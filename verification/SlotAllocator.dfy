/**
 * `Acquire`, `Release` and the client part of `Sweep` as a transition system.
 * One action is one atomic operation on shared state; any number of threads interleave freely.
 */
module SlotAllocator {

  type Key = string
  type Tid = nat
  type Id = nat   // identity of a *clientConc

  datatype Config = Config(maxGlobal: int, maxClient: int)

  /** Where a thread stands: what it will do next, and the locals it does it with. */
  datatype Pc =
    | Idle
    | Trying(key: Key)                          // about to load global
    | Loaded(key: Key, cur: int)                // about to compare-and-swap global
    | HoldingAnonymous                          // granted under the empty key
    | Claimed(key: Key)                         // global claimed, about to LoadOrStore
    | Found(key: Key, id: Id)                   // about to add one to the counter
    | Over(key: Key, id: Id)                    // limit exceeded, about to take the one back
    | Undone(key: Key)                          // about to take the global claim back
    | Under(key: Key, id: Id)                   // about to check that the counter is still published
    | Stale(key: Key, id: Id)                   // about to publish it again
    | Holding(key: Key, id: Id)                 // granted; id is bookkeeping, Release does not know it
    | Freed(key: Key, id: Id)                   // Release: global given back, about to look up the counter
    | Freeing(key: Key, id: Id, target: Id)     // Release: about to subtract one from target
    | Visiting(key: Key, id: Id)                // Sweep: about to read the counter
    | Doomed(key: Key, id: Id)                  // Sweep: read zero, about to compare-and-delete

  datatype State = State(global: int, clients: map<Key, Id>, counters: map<Id, int>, threads: map<Tid, Pc>)

  const Init := State(0, map[], map[], map[])

  datatype Action =
    | Begin(t: Tid, key: Key)      // call Acquire
    | Release(t: Tid)              // call Release, up to and including its decrement of global
    | Visit(t: Tid, key: Key)      // Sweep's Range reaches key
    | Go(t: Tid, newId: Id)        // the thread's next atomic operation; newId names a counter it may allocate

  function PcOf(s: State, t: Tid): Pc {
    if t in s.threads then s.threads[t] else Idle
  }

  predicate Enabled(s: State, a: Action) {
    match a
    case Begin(t, _) => PcOf(s, t).Idle?
    case Release(t) => PcOf(s, t).Holding? || PcOf(s, t).HoldingAnonymous?
    case Visit(t, key) => PcOf(s, t).Idle? && key in s.clients
    case Go(t, newId) =>
      var pc := PcOf(s, t);
      && !pc.Idle? && !pc.Holding? && !pc.HoldingAnonymous?
      && (pc.Claimed? ==> newId !in s.counters)
  }

  function Count(s: State, id: Id): int {
    if id in s.counters then s.counters[id] else 0
  }

  function Bump(s: State, id: Id, d: int): State {
    s.(counters := s.counters[id := Count(s, id) + d])
  }

  function Move(s: State, t: Tid, pc: Pc): State {
    s.(threads := s.threads[t := pc])
  }

  function Apply(c: Config, s: State, a: Action): State
    requires Enabled(s, a)
  {
    match a
    case Begin(t, key) => Move(s, t, Trying(key))
    case Release(t) =>
      var pc := PcOf(s, t);
      Move(s.(global := s.global - 1), t, if pc.Holding? then Freed(pc.key, pc.id) else Idle)
    case Visit(t, key) => Move(s, t, Visiting(key, s.clients[key]))
    case Go(t, newId) => Advance(c, s, t, newId)
  }

  function Advance(c: Config, s: State, t: Tid, newId: Id): State
    requires Enabled(s, Go(t, newId))
  {
    match PcOf(s, t)
    case Trying(key) =>
      Move(s, t, if s.global >= c.maxGlobal then Idle else Loaded(key, s.global))
    case Loaded(key, cur) =>
      if s.global == cur
      then Move(s.(global := cur + 1), t, if key == "" then HoldingAnonymous else Claimed(key))
      else Move(s, t, Trying(key))
    case Claimed(key) =>
      if key in s.clients
      then Move(s, t, Found(key, s.clients[key]))
      else Move(s.(clients := s.clients[key := newId], counters := s.counters[newId := 0]), t, Found(key, newId))
    case Found(key, id) =>
      Move(Bump(s, id, 1), t, if Count(s, id) + 1 > c.maxClient then Over(key, id) else Under(key, id))
    case Over(key, id) =>
      Move(Bump(s, id, -1), t, Undone(key))
    case Undone(key) =>
      Move(s.(global := s.global - 1), t, Idle)
    case Under(key, id) =>
      Move(s, t, if key in s.clients && s.clients[key] == id then Holding(key, id) else Stale(key, id))
    case Stale(key, id) =>
      Move(s.(clients := s.clients[key := id]), t, Holding(key, id))
    case Freed(key, id) =>
      Move(s, t, if key in s.clients then Freeing(key, id, s.clients[key]) else Idle)
    case Freeing(key, id, target) =>
      Move(Bump(s, target, -1), t, Idle)
    case Visiting(key, id) =>
      Move(s, t, if Count(s, id) != 0 then Idle else Doomed(key, id))
    case Doomed(key, id) =>
      if key in s.clients && s.clients[key] == id
      then Move(s.(clients := s.clients - {key}), t, Idle)
      else Move(s, t, Idle)
  }

  /** A run is any sequence of enabled actions. */
  predicate IsRun(c: Config, s: State, run: seq<Action>)
    decreases |run|
  {
    run == [] || (Enabled(s, run[0]) && IsRun(c, Apply(c, s, run[0]), run[1..]))
  }

  function Final(c: Config, s: State, run: seq<Action>): State
    requires IsRun(c, s, run)
    decreases |run|
  {
    if run == [] then s else Final(c, Apply(c, s, run[0]), run[1..])
  }

  // ---------------------------------------------------------------------------
  // Counting threads by what they account for

  datatype Role =
    | GlobalClaim              // one unit of global
    | Charge(id: Id)           // one unit of a counter
    | Grant(key: Key)          // a granted slot whose counter has not been decremented yet

  predicate Plays(pc: Pc, role: Role) {
    match role
    case GlobalClaim =>
      || pc.HoldingAnonymous? || pc.Claimed? || pc.Found? || pc.Over? || pc.Undone?
      || pc.Under? || pc.Stale? || pc.Holding?
    case Charge(id) =>
      (pc.Over? || pc.Under? || pc.Stale? || pc.Holding? || pc.Freed? || pc.Freeing?) && pc.id == id
    case Grant(key) =>
      (pc.Under? || pc.Stale? || pc.Holding? || pc.Freed? || pc.Freeing?) && pc.key == key
  }

  ghost function Playing(threads: map<Tid, Pc>, role: Role): set<Tid> {
    set t | t in threads && Plays(threads[t], role)
  }

  ghost function Unit(b: bool): int {
    if b then 1 else 0
  }

  /** Moving one thread changes each head count by that thread's own change. */
  lemma PlayingMove(s: State, t: Tid, pc: Pc, role: Role)
    ensures |Playing(s.threads[t := pc], role)| ==
            |Playing(s.threads, role)| - Unit(Plays(PcOf(s, t), role)) + Unit(Plays(pc, role))
  {
    var before, after := Playing(s.threads, role), Playing(s.threads[t := pc], role);
    forall u | u != t ensures u in before <==> u in after {
    }
    DifferByOne(before, after, t);
  }

  lemma DifferByOne<T>(a: set<T>, b: set<T>, x: T)
    requires forall y :: y != x ==> (y in a <==> y in b)
    ensures |b| == |a| - Unit(x in a) + Unit(x in b)
  {
    assert a - {x} == b - {x};
    assert |a| == |a - {x}| + Unit(x in a);
    assert |b| == |b - {x}| + Unit(x in b);
  }

  // ---------------------------------------------------------------------------
  // The global limit, in every run

  ghost predicate GlobalInv(c: Config, s: State) {
    && s.global == |Playing(s.threads, GlobalClaim)|
    && s.global <= c.maxGlobal
    && forall t :: t in s.threads && s.threads[t].Loaded? ==> s.threads[t].cur < c.maxGlobal
  }

  /** An atomic operation moves `global` by exactly the change in its own thread's claim. */
  lemma GlobalDelta(c: Config, s: State, a: Action)
    requires Enabled(s, a)
    ensures var s' := Apply(c, s, a);
      s'.global - s.global == Unit(Plays(s'.threads[a.t], GlobalClaim)) - Unit(Plays(PcOf(s, a.t), GlobalClaim))
  {
  }

  lemma GlobalStep(c: Config, s: State, a: Action)
    requires GlobalInv(c, s) && Enabled(s, a)
    ensures GlobalInv(c, Apply(c, s, a))
  {
    GlobalDelta(c, s, a);
    PlayingMove(s, a.t, Apply(c, s, a).threads[a.t], GlobalClaim);
  }

  lemma {:induction false} GlobalRun(c: Config, s: State, run: seq<Action>)
    requires GlobalInv(c, s) && IsRun(c, s, run)
    ensures GlobalInv(c, Final(c, s, run))
    decreases |run|
  {
    if run != [] {
      GlobalStep(c, s, run[0]);
      GlobalRun(c, Apply(c, s, run[0]), run[1..]);
    }
  }

  /** In every interleaving `global` counts the holders and the tentative claims, and respects the limit. */
  lemma GlobalLimit(c: Config, run: seq<Action>)
    requires c.maxGlobal >= 0 && IsRun(c, Init, run)
    ensures var s := Final(c, Init, run);
      s.global == |Playing(s.threads, GlobalClaim)| && 0 <= s.global <= c.maxGlobal
  {
    assert Playing(Init.threads, GlobalClaim) == {};
    GlobalRun(c, Init, run);
  }

  // ---------------------------------------------------------------------------
  // The client limit, in runs where no sweep races an acquire

  /**
   * No thread stands between its LoadOrStore and its Add for a key while a sweep stands between
   * reading zero and its compare-and-delete for that key.
   */
  ghost predicate Apart(s: State) {
    forall t, u :: t in s.threads && u in s.threads && s.threads[t].Doomed? && s.threads[u].Found? ==>
      s.threads[t].key != s.threads[u].key
  }

  ghost predicate ApartRun(c: Config, s: State, run: seq<Action>)
    requires IsRun(c, s, run)
    decreases |run|
  {
    Apart(s) && (run != [] ==> ApartRun(c, Apply(c, s, run[0]), run[1..]))
  }

  /** The threads that rely on the counter they got from the table. */
  predicate Relies(pc: Pc) {
    pc.Found? || pc.Over? || pc.Under? || pc.Holding? || pc.Freed? || pc.Freeing?
  }

  ghost predicate Published(s: State, pc: Pc) {
    && !pc.Stale?
    && (Relies(pc) ==> pc.key in s.clients && s.clients[pc.key] == pc.id)
    && (pc.Freeing? ==> pc.target == pc.id)
    && ((pc.Visiting? || pc.Doomed?) ==> pc.id in s.counters)
    && (pc.Doomed? && pc.key in s.clients && s.clients[pc.key] == pc.id ==> Count(s, pc.id) == 0)
  }

  ghost predicate Balanced(c: Config, s: State) {
    && (forall id :: id in s.counters ==> s.counters[id] == |Playing(s.threads, Charge(id))|)
    && (forall key :: |Playing(s.threads, Grant(key))| <= c.maxClient)
  }

  ghost predicate Table(s: State) {
    && (forall key :: key in s.clients ==> s.clients[key] in s.counters)
    && (forall k1, k2 :: k1 in s.clients && k2 in s.clients && s.clients[k1] == s.clients[k2] ==> k1 == k2)
  }

  ghost predicate ClientInv(c: Config, s: State) {
    && Table(s) && Balanced(c, s)
    && forall t :: t in s.threads ==> Published(s, s.threads[t])
  }

  /** A granted slot is charged to the key's published counter. */
  lemma GrantsAreCharges(s: State, key: Key)
    requires forall t :: t in s.threads ==> Published(s, s.threads[t])
    requires key in s.clients
    ensures |Playing(s.threads, Grant(key))| <= |Playing(s.threads, Charge(s.clients[key]))|
  {
    SubsetSize(Playing(s.threads, Grant(key)), Playing(s.threads, Charge(s.clients[key])));
  }

  lemma {:induction false} SubsetSize<T>(a: set<T>, b: set<T>)
    requires a <= b
    ensures |a| <= |b|
  {
    if x :| x in a {
      SubsetSize(a - {x}, b - {x});
    }
  }

  /** Nobody charges a counter that stands at zero. */
  lemma ZeroMeansUncharged(c: Config, s: State, id: Id, t: Tid)
    requires Balanced(c, s) && id in s.counters && s.counters[id] == 0 && t in s.threads
    ensures !Plays(s.threads[t], Charge(id))
  {
    assert |Playing(s.threads, Charge(id))| == 0;
    assert t !in Playing(s.threads, Charge(id));
  }

  /** An atomic operation leaves the table alone, publishes a counter of its own, or deletes one. */
  lemma TableChange(c: Config, s: State, a: Action)
    requires Published(s, PcOf(s, a.t)) && Enabled(s, a)
    ensures var s' := Apply(c, s, a); var pc := PcOf(s, a.t);
      || s'.clients == s.clients
      || (pc.Claimed? && s'.clients == s.clients[pc.key := a.newId] && a.newId !in s.counters && a.newId in s'.counters)
      || (pc.Doomed? && s'.clients == s.clients - {pc.key})
  {
  }

  lemma CountersStay(c: Config, s: State, a: Action)
    requires Enabled(s, a)
    ensures s.counters.Keys <= Apply(c, s, a).counters.Keys
  {
  }

  lemma TableStep(c: Config, s: State, a: Action)
    requires ClientInv(c, s) && Enabled(s, a)
    ensures Table(Apply(c, s, a))
  {
    assert a.t in s.threads ==> Published(s, s.threads[a.t]);
    TableChange(c, s, a);
    CountersStay(c, s, a);
  }

  /** An atomic operation moves each counter by exactly the change in its own thread's charge. */
  lemma ChargeDelta(c: Config, s: State, a: Action, id: Id)
    requires Published(s, PcOf(s, a.t)) && Enabled(s, a)
    ensures var s' := Apply(c, s, a);
      Count(s', id) - Count(s, id) ==
      Unit(Plays(s'.threads[a.t], Charge(id))) - Unit(Plays(PcOf(s, a.t), Charge(id)))
  {
    if a.Go? {
      AdvanceCharges(c, s, a.t, a.newId, id);
    }
  }

  lemma AdvanceCharges(c: Config, s: State, t: Tid, newId: Id, id: Id)
    requires Published(s, PcOf(s, t)) && Enabled(s, Go(t, newId))
    ensures var s' := Advance(c, s, t, newId);
      Count(s', id) - Count(s, id) ==
      Unit(Plays(s'.threads[t], Charge(id))) - Unit(Plays(PcOf(s, t), Charge(id)))
  {
  }

  lemma ChargesStep(c: Config, s: State, a: Action, id: Id)
    requires ClientInv(c, s) && Enabled(s, a)
    ensures Count(Apply(c, s, a), id) == |Playing(Apply(c, s, a).threads, Charge(id))|
  {
    assert a.t in s.threads ==> Published(s, s.threads[a.t]);
    ChargeDelta(c, s, a, id);
    PlayingMove(s, a.t, Apply(c, s, a).threads[a.t], Charge(id));
    if id !in s.counters {
      UnallocatedUncharged(c, s, id);
    }
  }

  /** A slot is granted only by adding one below the limit. */
  lemma GrantDelta(c: Config, s: State, a: Action, key: Key)
    requires Enabled(s, a)
    ensures var pc, pc' := PcOf(s, a.t), Apply(c, s, a).threads[a.t];
      Plays(pc', Grant(key)) && !Plays(pc, Grant(key)) ==>
        pc.Found? && pc.key == key && Count(s, pc.id) + 1 <= c.maxClient
  {
    if a.Go? {
      AdvanceGrants(c, s, a.t, a.newId, key);
    }
  }

  lemma AdvanceGrants(c: Config, s: State, t: Tid, newId: Id, key: Key)
    requires Enabled(s, Go(t, newId))
    ensures var pc, pc' := PcOf(s, t), Advance(c, s, t, newId).threads[t];
      Plays(pc', Grant(key)) && !Plays(pc, Grant(key)) ==>
        pc.Found? && pc.key == key && Count(s, pc.id) + 1 <= c.maxClient
  {
  }

  lemma GrantsStep(c: Config, s: State, a: Action, key: Key)
    requires ClientInv(c, s) && Enabled(s, a)
    ensures |Playing(Apply(c, s, a).threads, Grant(key))| <= c.maxClient
  {
    GrantDelta(c, s, a, key);
    PlayingMove(s, a.t, Apply(c, s, a).threads[a.t], Grant(key));
    if PcOf(s, a.t).Found? && PcOf(s, a.t).key == key {
      assert Published(s, PcOf(s, a.t));
      GrantsAreCharges(s, key);
    }
  }

  lemma UnallocatedUncharged(c: Config, s: State, id: Id)
    requires ClientInv(c, s) && id !in s.counters
    ensures Playing(s.threads, Charge(id)) == {}
  {
    forall t | t in s.threads ensures !Plays(s.threads[t], Charge(id)) {
      assert Published(s, s.threads[t]);
    }
  }

  lemma PublishedSelf(c: Config, s: State, a: Action)
    requires Table(s) && Published(s, PcOf(s, a.t)) && Enabled(s, a)
    ensures Published(Apply(c, s, a), Apply(c, s, a).threads[a.t])
  {
    if a.Go? {
      AdvancePublishes(c, s, a.t, a.newId);
    }
  }

  lemma AdvancePublishes(c: Config, s: State, t: Tid, newId: Id)
    requires Table(s) && Published(s, PcOf(s, t)) && Enabled(s, Go(t, newId))
    ensures Published(Advance(c, s, t, newId), Advance(c, s, t, newId).threads[t])
  {
    var s' := Advance(c, s, t, newId);
    match PcOf(s, t)
    case Claimed(key) => assert s'.threads[t] == Found(key, s'.clients[key]);
    case _ =>
  }

  /** A thread that relies on a counter keeps it: nobody deletes it, and nobody replaces it. */
  lemma ReliedOnIsKept(c: Config, s: State, a: Action, u: Tid)
    requires ClientInv(c, s) && Apart(s) && Enabled(s, a) && u in s.threads && u != a.t
    requires Relies(s.threads[u])
    ensures s.threads[u].key in Apply(c, s, a).clients
    ensures Apply(c, s, a).clients[s.threads[u].key] == s.threads[u].id
  {
    var pc, pu := PcOf(s, a.t), s.threads[u];
    assert Published(s, pu) && (a.t in s.threads ==> Published(s, pc));
    if pc.Doomed? && pc.key == pu.key && pc.id == pu.id {
      ZeroMeansUncharged(c, s, pc.id, u);
    }
  }

  /** A counter only moves by the hand of a thread that knows it. */
  lemma CountMoves(c: Config, s: State, a: Action, id: Id)
    requires Published(s, PcOf(s, a.t)) && Enabled(s, a) && id in s.counters
    ensures var pc := PcOf(s, a.t);
      Count(Apply(c, s, a), id) != Count(s, id) ==> (pc.Found? || pc.Over? || pc.Freeing?) && pc.id == id
  {
  }

  /** A counter a sweep is about to delete stays at zero as long as it is published. */
  lemma DoomedStaysZero(c: Config, s: State, a: Action, u: Tid)
    requires ClientInv(c, s) && Apart(s) && Enabled(s, a) && u in s.threads && u != a.t
    requires s.threads[u].Doomed?
    ensures var s' := Apply(c, s, a); var pu := s.threads[u];
      pu.key in s'.clients && s'.clients[pu.key] == pu.id ==> Count(s', pu.id) == 0
  {
    var pc, pu := PcOf(s, a.t), s.threads[u];
    assert Published(s, pu) && (a.t in s.threads ==> Published(s, pc));
    CountMoves(c, s, a, pu.id);
    TableChange(c, s, a);
    if pu.key in s.clients && s.clients[pu.key] == pu.id && a.t in s.threads {
      ZeroMeansUncharged(c, s, pu.id, a.t);
    }
  }

  lemma PublishedOther(c: Config, s: State, a: Action, u: Tid)
    requires ClientInv(c, s) && Apart(s) && Enabled(s, a) && u in s.threads && u != a.t
    ensures Published(Apply(c, s, a), s.threads[u])
  {
    assert Published(s, s.threads[u]);
    if Relies(s.threads[u]) {
      ReliedOnIsKept(c, s, a, u);
    }
    if s.threads[u].Doomed? {
      DoomedStaysZero(c, s, a, u);
    }
  }

  lemma BalancedStep(c: Config, s: State, a: Action)
    requires ClientInv(c, s) && Enabled(s, a)
    ensures Balanced(c, Apply(c, s, a))
  {
    var s' := Apply(c, s, a);
    forall id | id in s'.counters ensures s'.counters[id] == |Playing(s'.threads, Charge(id))| {
      ChargesStep(c, s, a, id);
    }
    forall key ensures |Playing(s'.threads, Grant(key))| <= c.maxClient {
      GrantsStep(c, s, a, key);
    }
  }

  /** An action moves no thread but its own. */
  lemma MovesOne(c: Config, s: State, a: Action)
    requires Enabled(s, a)
    ensures a.t in Apply(c, s, a).threads
    ensures forall u :: u != a.t ==> (u in Apply(c, s, a).threads <==> u in s.threads)
    ensures forall u :: u != a.t && u in s.threads ==> Apply(c, s, a).threads[u] == s.threads[u]
  {
    if a.Go? {
      AdvanceMovesOne(c, s, a.t, a.newId);
    }
  }

  lemma AdvanceMovesOne(c: Config, s: State, t: Tid, newId: Id)
    requires Enabled(s, Go(t, newId))
    ensures var s' := Advance(c, s, t, newId); t in s'.threads && s'.threads == s.threads[t := s'.threads[t]]
  {
  }

  lemma PublishedStep(c: Config, s: State, a: Action, u: Tid)
    requires ClientInv(c, s) && Apart(s) && Enabled(s, a) && u in Apply(c, s, a).threads
    ensures Published(Apply(c, s, a), Apply(c, s, a).threads[u])
  {
    MovesOne(c, s, a);
    if u != a.t {
      PublishedOther(c, s, a, u);
    } else {
      assert Published(s, PcOf(s, a.t)) by {
        assert a.t in s.threads ==> Published(s, s.threads[a.t]);
      }
      PublishedSelf(c, s, a);
    }
  }

  lemma ClientStep(c: Config, s: State, a: Action)
    requires ClientInv(c, s) && Apart(s) && Enabled(s, a)
    ensures ClientInv(c, Apply(c, s, a))
  {
    var s' := Apply(c, s, a);
    TableStep(c, s, a);
    BalancedStep(c, s, a);
    forall u | u in s'.threads ensures Published(s', s'.threads[u]) {
      PublishedStep(c, s, a, u);
    }
  }

  lemma {:induction false} ClientRun(c: Config, s: State, run: seq<Action>)
    requires ClientInv(c, s) && IsRun(c, s, run) && ApartRun(c, s, run)
    ensures ClientInv(c, Final(c, s, run))
    decreases |run|
  {
    if run != [] {
      ClientStep(c, s, run[0]);
      ClientRun(c, Apply(c, s, run[0]), run[1..]);
    }
  }

  lemma InitClientInv(c: Config)
    requires c.maxClient >= 0
    ensures ClientInv(c, Init)
  {
    forall role ensures Playing(Init.threads, role) == {} {
    }
  }

  ghost function Holders(s: State, key: Key): set<Tid> {
    set t | t in s.threads && s.threads[t].Holding? && s.threads[t].key == key
  }

  /** With sweeps and acquires of one key kept apart, no key ever has more holders than its limit. */
  lemma ClientLimit(c: Config, run: seq<Action>, key: Key)
    requires c.maxClient >= 0 && IsRun(c, Init, run) && ApartRun(c, Init, run)
    ensures |Holders(Final(c, Init, run), key)| <= c.maxClient
  {
    var s := Final(c, Init, run);
    InitClientInv(c);
    ClientRun(c, Init, run);
    SubsetSize(Holders(s, key), Playing(s.threads, Grant(key)));
  }

  // ---------------------------------------------------------------------------
  // When an acquire is refused

  /** The threads that have added one too many to the key's counter and not yet taken it back. */
  ghost function Overshooting(s: State, key: Key): set<Tid> {
    set t | t in s.threads && s.threads[t].Over? && s.threads[t].key == key
  }

  /** A key's published counter is charged by its granted slots and the overshooting calls. */
  lemma ChargesOfKey(c: Config, s: State, key: Key)
    requires ClientInv(c, s) && key in s.clients
    ensures Count(s, s.clients[key]) == |Playing(s.threads, Grant(key))| + |Overshooting(s, key)|
  {
    var id, grants, overs := s.clients[key], Playing(s.threads, Grant(key)), Overshooting(s, key);
    forall t ensures t in Playing(s.threads, Charge(id)) <==> t in grants + overs {
      assert t in s.threads ==> Published(s, s.threads[t]);
    }
    assert Playing(s.threads, Charge(id)) == grants + overs;
    assert grants !! overs;
  }

  /**
   * With sweeps and acquires of one key kept apart, an acquire that comes to its Add is refused exactly when the
   * granted slots of the key and the calls that overshot it and have not yet taken their one back fill the limit.
   */
  lemma RefusedIff(c: Config, run: seq<Action>, t: Tid, newId: Id)
    requires c.maxClient >= 0 && IsRun(c, Init, run) && ApartRun(c, Init, run)
    requires PcOf(Final(c, Init, run), t).Found? && Enabled(Final(c, Init, run), Go(t, newId))
    ensures var s := Final(c, Init, run); var key := PcOf(s, t).key;
      Advance(c, s, t, newId).threads[t].Over? <==>
      |Playing(s.threads, Grant(key))| + |Overshooting(s, key)| >= c.maxClient
  {
    var s := Final(c, Init, run);
    InitClientInv(c);
    ClientRun(c, Init, run);
    assert Published(s, s.threads[t]);
    ChargesOfKey(c, s, s.threads[t].key);
  }

  /** In every interleaving it is turned away before that exactly when holders and claims fill the global limit. */
  lemma TurnedAwayIff(c: Config, run: seq<Action>, t: Tid, newId: Id)
    requires c.maxGlobal >= 0 && IsRun(c, Init, run)
    requires PcOf(Final(c, Init, run), t).Trying? && Enabled(Final(c, Init, run), Go(t, newId))
    ensures var s := Final(c, Init, run);
      Advance(c, s, t, newId).threads[t].Idle? <==> |Playing(s.threads, GlobalClaim)| >= c.maxGlobal
  {
    GlobalLimit(c, run);
  }

  /** A failed compare-and-swap turns nobody away: the call tries again. */
  lemma ContentionRetries(c: Config, s: State, t: Tid, newId: Id)
    requires PcOf(s, t).Loaded? && Enabled(s, Go(t, newId))
    ensures var pc := PcOf(s, t); var s' := Advance(c, s, t, newId);
      if s.global == pc.cur then s'.global == s.global + 1 && !s'.threads[t].Idle?
      else s' == Move(s, t, Trying(pc.key))
  {
  }

  /** When every thread is idle again, nothing is left claimed and no counter is left charged. */
  lemma NothingLeaks(c: Config, run: seq<Action>)
    requires c.maxGlobal >= 0 && c.maxClient >= 0 && IsRun(c, Init, run)
    requires forall t :: PcOf(Final(c, Init, run), t).Idle?
    ensures Final(c, Init, run).global == 0
    ensures ApartRun(c, Init, run) ==>
      forall id :: id in Final(c, Init, run).counters ==> Final(c, Init, run).counters[id] == 0
  {
    var s := Final(c, Init, run);
    forall role ensures Playing(s.threads, role) == {} {
      forall t | t in s.threads ensures !Plays(s.threads[t], role) {
        assert PcOf(s, t).Idle?;
      }
    }
    GlobalLimit(c, run);
    if ApartRun(c, Init, run) {
      InitClientInv(c);
      ClientRun(c, Init, run);
      forall id | id in s.counters ensures s.counters[id] == 0 {
        assert s.counters[id] == |Playing(s.threads, Charge(id))|;
      }
    }
  }
}
