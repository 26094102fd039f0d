/** The request log's hot index: a ring of ids beside a map, standing for a bounded queue of distinct ids. */
module RequestLog {
  import opened Basics

  datatype Event = Event(requestId: string, bindId: string, action: string, reason: string, score: int)

  // ---------------------------------------------------------------------------
  // The queue

  /** The ids held after recording `id`: a known id keeps its place, a new one evicts the oldest when full. */
  function Enqueued(q: seq<string>, capacity: nat, id: string): seq<string> {
    if id in q then q
    else (if q != [] && |q| >= capacity then q[1..] else q) + [id]
  }

  lemma EnqueuedDistinct(q: seq<string>, capacity: nat, id: string)
    requires Distinct(q) && |q| <= capacity && capacity > 0
    ensures Distinct(Enqueued(q, capacity, id)) && |Enqueued(q, capacity, id)| <= capacity
    ensures id in Enqueued(q, capacity, id)
  {
  }

  lemma WithoutOldest(q: seq<string>, id: string)
    requires q != [] && Distinct(q) && id !in q
    ensures forall x :: x in q && x != q[0] <==> x in q[1..] + [id] && x != id
  {
    assert q == [q[0]] + q[1..];
  }

  /** A record is refused when the id is already bound to somebody else. */
  predicate Conflicts(events: map<string, Event>, e: Event) {
    && e.requestId in events
    && events[e.requestId].bindId != "" && e.bindId != "" && events[e.requestId].bindId != e.bindId
  }

  /** The log on values. */
  datatype Log = Log(queue: seq<string>, events: map<string, Event>)

  predicate Ignores(l: Log, e: Event) {
    e.requestId == "" || Conflicts(l.events, e)
  }

  /** `Record` on values. */
  function Recorded(l: Log, capacity: nat, e: Event): Log {
    if Ignores(l, e) then l
    else
      var q := Enqueued(l.queue, capacity, e.requestId);
      Log(q, Still(l.events, q)[e.requestId := e])
  }

  /**
   * What a record does, said of the log: nothing for an empty id, or for one held for another binding; the event of a
   * known id is replaced where it stands; a new id goes to the end, and the oldest leaves if there is no room.
   */
  lemma RecordMeans(l: Log, capacity: nat, e: Event)
    requires forall id :: id in l.queue <==> id in l.events
    ensures var l' := Recorded(l, capacity, e); var id := e.requestId;
      if id == "" || (id in l.events && l.events[id].bindId != "" && e.bindId != "" && l.events[id].bindId != e.bindId)
      then l' == l
      else
        && l'.queue == (if id in l.queue then l.queue
                        else if |l.queue| > 0 && |l.queue| >= capacity then l.queue[1..] + [id]
                        else l.queue + [id])
        && id in l'.events && l'.events[id] == e
        && (forall x :: x in l'.events && x != id ==> x in l.events && l'.events[x] == l.events[x])
        && (forall x :: x in l'.queue ==> x in l'.events)
  {
  }

  /** The events whose ids are still in the queue. */
  function Still(events: map<string, Event>, q: seq<string>): map<string, Event> {
    map id | id in events && id in q :: events[id]
  }

  /** `Recent` on values: the newest ids first, each with its event. */
  function RecentOf(l: Log, n: nat): seq<Event>
    requires forall id :: id in l.queue ==> id in l.events
  {
    var k := if |l.queue| < n then |l.queue| else n;
    seq(k, j requires 0 <= j < k => l.events[l.queue[|l.queue| - 1 - j]])
  }

  // ---------------------------------------------------------------------------
  // The ring

  /** Position `i` of the queue in the ring. */
  function Slot(head: nat, i: nat, size: nat): nat {
    if head + i < size then head + i else head + i - size
  }

  /** The program computes it with a remainder. */
  lemma SlotIsRemainder(head: nat, i: nat, size: nat)
    requires head < size && i <= size
    ensures (head + i) % size == Slot(head, i, size) < size
  {
    if head + i < size {
      SmallMod(head + i, size);
    } else {
      WrapMod(head + i - size, size);
    }
  }

  lemma SmallMod(a: nat, n: nat)
    requires a < n
    ensures a % n == a
  {
  }

  lemma WrapMod(a: nat, n: nat)
    requires a < n
    ensures (a + n) % n == a
  {
  }

  class Logger {
    var byId: map<string, Event>
    var order: array<string>
    var head: nat
    var len: nat
    const maxHot: nat
    ghost var queue: seq<string>   // the ids held, oldest first

    ghost predicate Ring()
      reads this, order
    {
      && order.Length == maxHot && maxHot > 0 && head < maxHot && len <= maxHot && |queue| == len
      && forall i :: 0 <= i < len ==> order[Slot(head, i, maxHot)] == queue[i]
    }

    ghost predicate Index()
      reads this
    {
      && Distinct(queue)
      && (forall id :: id in byId <==> id in queue)
      && (forall id :: id in byId ==> byId[id].requestId == id)
    }

    /** Ring, map and queue agree. */
    ghost predicate Valid()
      reads this, order
    {
      Ring() && Index()
    }

    /** The log the ring and the map stand for. */
    ghost function Value(): Log
      reads this
    {
      Log(queue, byId)
    }

    /** `New`. */
    constructor (hotCapacity: int)
      ensures Valid() && queue == [] && byId == map[] && fresh(order)
      ensures maxHot == if hotCapacity < 1 then 2000 else hotCapacity
    {
      var n: nat := if hotCapacity < 1 then 2000 else hotCapacity;
      order := new string[n](_ => "");
      maxHot, byId, head, len, queue := n, map[], 0, 0, [];
    }

    /** The ring part of `Record` for a new id, when the ring is full: the oldest id goes. */
    method Replace(id: string)
      requires Ring() && len >= maxHot
      modifies `head, `queue, order
      ensures Ring() && queue == old(queue)[1..] + [id]
    {
      order[head] := id;
      SlotIsRemainder(head, 1, maxHot);
      head := (head + 1) % maxHot;
      queue := queue[1..] + [id];
      forall i | 0 <= i < len ensures order[Slot(head, i, maxHot)] == queue[i] {
        assert i + 1 < len ==> queue[i] == old(queue)[i + 1];
        assert i + 1 < len ==> Slot(head, i, maxHot) == Slot(old(head), i + 1, maxHot) != old(head);
      }
    }

    /** The ring part of `Record` for a new id, while there is room. */
    method Append(id: string)
      requires Ring() && len < maxHot
      modifies `len, `queue, order
      ensures Ring() && queue == old(queue) + [id]
    {
      SlotIsRemainder(head, len, maxHot);
      var idx := (head + len) % maxHot;
      order[idx] := id;
      queue := queue + [id];
      len := len + 1;
    }

    /** A new id enters the ring; a full ring first drops its oldest id from the map. */
    method Admit(id: string)
      requires Valid() && id !in byId
      modifies this, order
      ensures Ring() && order == old(order) && queue == Enqueued(old(queue), maxHot, id)
      ensures forall x :: x in byId <==> x in queue && x != id
      ensures forall x :: x in byId ==> x in old(byId) && byId[x] == old(byId)[x]
    {
      if len >= maxHot {
        assert order[Slot(head, 0, maxHot)] == queue[0];
        var oldest := order[head];
        byId := byId - {oldest};
        Replace(id);
        WithoutOldest(old(queue), id);
      } else {
        Append(id);
      }
    }

    /** The id is in the ring, whether it was before or not; who had to leave it has left the map. */
    method Hold(id: string)
      requires Valid()
      modifies this, order
      ensures Ring() && order == old(order) && queue == Enqueued(old(queue), maxHot, id)
      ensures byId == Still(old(byId), queue)
      ensures forall x :: x in byId || x == id <==> x in queue
    {
      if id !in byId {
        Admit(id);
      }
    }

    /** `Record`. */
    method Record(e: Event)
      requires Valid()
      modifies this, order
      ensures Valid() && order == old(order) && Value() == Recorded(old(Value()), maxHot, e)
    {
      if e.requestId == "" || Conflicts(byId, e) { return; }
      EnqueuedDistinct(queue, maxHot, e.requestId);
      Hold(e.requestId);
      byId := byId[e.requestId := e];
    }

    /** `Recent`: the newest ids first, each with its event. */
    method Recent(limit: int) returns (out: seq<Event>)
      requires Valid()
      ensures out == RecentOf(Value(), if limit <= 0 then 50 else limit)
    {
      var n := if limit <= 0 then 50 else limit;
      out := [];
      var i := 0;
      while i < len && |out| < n
        invariant 0 <= i <= len && |out| == i && i <= n
        invariant forall j :: 0 <= j < i ==> out[j] == byId[queue[len - 1 - j]]
      {
        var idx := (head + len - 1 - i) % maxHot;
        SlotIsRemainder(head, len - 1 - i, maxHot);
        assert head + len - 1 - i == head + (len - 1 - i);
        var id := order[idx];
        assert id == queue[len - 1 - i];
        if id in byId {
          out := out + [byId[id]];
        }
        i := i + 1;
      }
    }
  }

  // ---------------------------------------------------------------------------
  // Runs: what the queue holds after any sequence of accepted records

  function QueueAfter(ids: seq<string>, capacity: nat): seq<string> {
    if ids == [] then [] else Enqueued(QueueAfter(ids[..|ids| - 1], capacity), capacity, ids[|ids| - 1])
  }

  /** After any run the queue is bounded, duplicate-free, and ends in the latest id unless that was already held. */
  lemma {:induction false} QueueAfterBounded(ids: seq<string>, capacity: nat)
    requires capacity > 0
    ensures Distinct(QueueAfter(ids, capacity)) && |QueueAfter(ids, capacity)| <= capacity
    ensures ids != [] ==> ids[|ids| - 1] in QueueAfter(ids, capacity)
  {
    if ids != [] {
      QueueAfterBounded(ids[..|ids| - 1], capacity);
      EnqueuedDistinct(QueueAfter(ids[..|ids| - 1], capacity), capacity, ids[|ids| - 1]);
    }
  }

  lemma EnqueueNext(ids: seq<string>, start: nat, capacity: nat)
    requires Distinct(ids) && start < |ids| && capacity > 0 && |ids| - 1 - start <= capacity
    requires start == 0 || |ids| - 1 - start == capacity
    ensures Enqueued(ids[start..|ids| - 1], capacity, ids[|ids| - 1]) ==
      if |ids| <= capacity then ids else ids[|ids| - capacity..]
  {
    var n := |ids| - 1;
    var held := ids[start..n];
    assert ids[n] !in held;
    if n < capacity {
      assert held + [ids[n]] == ids;
    } else {
      assert held[1..] + [ids[n]] == ids[n + 1 - capacity..];
    }
  }

  /** The last `capacity` of them. */
  function Newest(ids: seq<string>, capacity: nat): seq<string> {
    if |ids| <= capacity then ids else ids[|ids| - capacity..]
  }

  /** A run of distinct ids leaves exactly the most recent ones, in order of insertion. */
  lemma {:induction false} DistinctRunKeepsNewest(ids: seq<string>, capacity: nat)
    requires capacity > 0 && Distinct(ids)
    ensures QueueAfter(ids, capacity) == Newest(ids, capacity)
  {
    if ids != [] {
      var n := |ids| - 1;
      var init := ids[..n];
      DistinctRunKeepsNewest(init, capacity);
      if n <= capacity {
        assert init == ids[0..n];
        EnqueueNext(ids, 0, capacity);
      } else {
        assert init[n - capacity..] == ids[n - capacity..n];
        EnqueueNext(ids, n - capacity, capacity);
      }
    }
  }

  // ---------------------------------------------------------------------------
  // Runs of `Record`, refused conflicts included

  function LogAfter(events: seq<Event>, capacity: nat): Log {
    if events == [] then Log([], map[])
    else Recorded(LogAfter(events[..|events| - 1], capacity), capacity, events[|events| - 1])
  }

  /** Event `i` was recorded, not ignored. */
  predicate RecordedAt(events: seq<Event>, capacity: nat, i: nat) {
    i < |events| && !Ignores(LogAfter(events[..i], capacity), events[i])
  }

  /** The ids of the events that were recorded. */
  function RecordedIds(events: seq<Event>, capacity: nat): seq<string> {
    if events == [] then []
    else
      var n := |events| - 1;
      RecordedIds(events[..n], capacity) + if RecordedAt(events, capacity, n) then [events[n].requestId] else []
  }

  /** The queue is that of the recorded ids. */
  lemma {:induction false} LogQueue(events: seq<Event>, capacity: nat)
    ensures LogAfter(events, capacity).queue == QueueAfter(RecordedIds(events, capacity), capacity)
  {
    if events != [] {
      var n := |events| - 1;
      LogQueue(events[..n], capacity);
      var ids := RecordedIds(events[..n], capacity);
      assert (ids + [events[n].requestId])[..|ids|] == ids;
      assert ids + [] == ids;
    }
  }

  /** The ids held are distinct, within the capacity, and each has an event of its own. */
  lemma {:induction false} LogBounded(events: seq<Event>, capacity: nat)
    requires capacity > 0
    ensures var l := LogAfter(events, capacity);
      && Distinct(l.queue) && |l.queue| <= capacity
      && (forall id :: id in l.queue <==> id in l.events)
  {
    if events != [] {
      var n := |events| - 1;
      var l := LogAfter(events[..n], capacity);
      LogBounded(events[..n], capacity);
      EnqueuedDistinct(l.queue, capacity, events[n].requestId);
    }
  }

  /** The event held for an id is the last one recorded for it. */
  lemma {:induction false} HeldIsLatest(events: seq<Event>, capacity: nat, id: string) returns (i: nat)
    requires capacity > 0 && id in LogAfter(events, capacity).events
    ensures RecordedAt(events, capacity, i) && events[i].requestId == id
    ensures LogAfter(events, capacity).events[id] == events[i]
    ensures forall j :: i < j < |events| && events[j].requestId == id ==> !RecordedAt(events, capacity, j)
  {
    var n := |events| - 1;
    if RecordedAt(events, capacity, n) && events[n].requestId == id {
      i := n;
    } else {
      var before := events[..n];
      i := HeldIsLatest(before, capacity, id);
      assert before[..i] == events[..i];
      forall j | i < j < |events| && events[j].requestId == id ensures !RecordedAt(events, capacity, j) {
        if j < n {
          assert before[..j] == events[..j] && before[j] == events[j];
          assert !RecordedAt(before, capacity, j);
        }
      }
    }
  }

  ghost predicate DistinctIds(events: seq<Event>) {
    && (forall i :: 0 <= i < |events| ==> events[i].requestId != "")
    && (forall i, j :: 0 <= i < j < |events| ==> events[i].requestId != events[j].requestId)
  }

  function IdsOf(events: seq<Event>): seq<string> {
    seq(|events|, i requires 0 <= i < |events| => events[i].requestId)
  }

  /** Whoever records distinct ids is never refused. */
  lemma {:induction false} DistinctRecorded(events: seq<Event>, capacity: nat)
    requires capacity > 0 && DistinctIds(events)
    ensures RecordedIds(events, capacity) == IdsOf(events)
  {
    if events != [] {
      var n := |events| - 1;
      var before := events[..n];
      DistinctRecorded(before, capacity);
      if events[n].requestId in LogAfter(before, capacity).events {
        var i := HeldIsLatest(before, capacity, events[n].requestId);
      }
      assert IdsOf(events) == IdsOf(before) + [events[n].requestId];
    }
  }

  /** So of a run of distinct ids exactly the newest are held, in order of insertion. */
  lemma DistinctRunHolds(events: seq<Event>, capacity: nat)
    requires capacity > 0 && DistinctIds(events)
    ensures LogAfter(events, capacity).queue == Newest(IdsOf(events), capacity)
  {
    var ids := IdsOf(events);
    assert Distinct(ids) by { assert forall i :: 0 <= i < |ids| ==> ids[i] == events[i].requestId; }
    LogQueue(events, capacity);
    DistinctRecorded(events, capacity);
    DistinctRunKeepsNewest(ids, capacity);
  }

  /** A new logger takes any events and is then asked for the latest. */
  method RecordAllThenRecent(hotCapacity: int, events: seq<Event>, limit: int) returns (out: seq<Event>)
    ensures var capacity := if hotCapacity < 1 then 2000 else hotCapacity; var l := LogAfter(events, capacity);
      && (forall id :: id in l.queue ==> id in l.events)
      && out == RecentOf(l, if limit <= 0 then 50 else limit)
  {
    var logger := new Logger(hotCapacity);
    for i := 0 to |events|
      invariant logger.Valid() && fresh(logger) && fresh(logger.order)
      invariant logger.maxHot == if hotCapacity < 1 then 2000 else hotCapacity
      invariant logger.Value() == LogAfter(events[..i], logger.maxHot)
    {
      assert events[..i + 1][..i] == events[..i];
      logger.Record(events[i]);
    }
    assert events[..|events|] == events;
    out := logger.Recent(limit);
  }
}
