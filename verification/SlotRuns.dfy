/** Particular runs of the slot allocator, and what they show about its limits. */
module SlotRuns {
  import opened Basics
  import opened SlotAllocator

  /** The key a sweep is at work on when it takes this action. */
  function SweptKey(s: State, a: Action): Option<Key> {
    match a
    case Visit(_, key) => Some(key)
    case Go(t, _) =>
      var pc := PcOf(s, t);
      if pc.Visiting? || pc.Doomed? then Some(pc.key) else None
    case _ => None
  }

  /** The thread stands between its LoadOrStore for `key` and its return or re-publish. */
  predicate InWindow(pc: Pc, key: Key) {
    (pc.Found? || pc.Over? || pc.Under? || pc.Stale?) && pc.key == key
  }

  /** The action is not a step of a sweep inside the window of an acquire of the same key. */
  ghost predicate Clear(s: State, a: Action) {
    SweptKey(s, a).Some? ==> forall u :: u in s.threads ==> !InWindow(s.threads[u], SweptKey(s, a).value)
  }

  /** No step of a sweep falls between an acquire's LoadOrStore and its re-publish for the same key. */
  ghost predicate ClearRun(c: Config, s: State, run: seq<Action>)
    requires IsRun(c, s, run)
    decreases |run|
  {
    run == [] || (Clear(s, run[0]) && ClearRun(c, Apply(c, s, run[0]), run[1..]))
  }

  /** The run takes `s` to `s'`, keeping sweeps out of those windows. */
  ghost predicate Leads(c: Config, s: State, run: seq<Action>, s': State) {
    IsRun(c, s, run) && Final(c, s, run) == s' && ClearRun(c, s, run)
  }

  lemma {:induction false} LeadsOn(c: Config, s: State, r1: seq<Action>, s1: State, r2: seq<Action>, s2: State)
    requires Leads(c, s, r1, s1) && Leads(c, s1, r2, s2)
    ensures Leads(c, s, r1 + r2, s2)
    decreases |r1|
  {
    if r1 == [] {
      assert r1 + r2 == r2;
    } else {
      assert (r1 + r2)[1..] == r1[1..] + r2;
      LeadsOn(c, Apply(c, s, r1[0]), r1[1..], s1, r2, s2);
    }
  }

  /** One action more. */
  lemma Extend(c: Config, s: State, run: seq<Action>, s1: State, a: Action) returns (run': seq<Action>)
    requires Leads(c, s, run, s1) && Enabled(s1, a) && Clear(s1, a)
    ensures run' == run + [a] && Leads(c, s, run', Apply(c, s1, a))
  {
    var one, s2 := [a], Apply(c, s1, a);
    assert one[0] == a && one[1..] == [];
    assert Leads(c, s2, one[1..], s2);
    LeadsOn(c, s, run, s1, one, s2);
    run' := run + [a];
  }

  /** Nothing interrupts thread `t`. */
  ghost predicate Alone(run: seq<Action>, t: Tid) {
    forall i :: 0 <= i < |run| ==> run[i].t == t
  }

  /** From the call to the successful compare-and-swap. */
  lemma ReachClaimed(c: Config, s: State, t: Tid, key: Key, newId: Id) returns (run: seq<Action>)
    requires PcOf(s, t).Idle? && key != "" && s.global < c.maxGlobal
    ensures Alone(run, t) && Leads(c, s, run, Move(s.(global := s.global + 1), t, Claimed(key)))
  {
    var loaded := Move(s, t, Loaded(key, s.global));
    run := ReachLoaded(c, s, t, key, newId);
    run := Extend(c, s, run, loaded, Go(t, newId));
    assert Apply(c, loaded, Go(t, newId)) == Move(s.(global := s.global + 1), t, Claimed(key));
  }

  lemma ReachLoaded(c: Config, s: State, t: Tid, key: Key, newId: Id) returns (run: seq<Action>)
    requires PcOf(s, t).Idle? && s.global < c.maxGlobal
    ensures Alone(run, t) && Leads(c, s, run, Move(s, t, Loaded(key, s.global)))
  {
    var trying := Move(s, t, Trying(key));
    run := Extend(c, s, [], s, Begin(t, key));
    run := Extend(c, s, run, trying, Go(t, newId));
    assert Apply(c, trying, Go(t, newId)) == Move(s, t, Loaded(key, s.global));
  }

  /** A request without a key is granted as soon as the global limit leaves room. */
  lemma UninterruptedAnonymous(c: Config, s: State, t: Tid) returns (run: seq<Action>)
    requires PcOf(s, t).Idle? && s.global < c.maxGlobal
    ensures Alone(run, t) && Leads(c, s, run, Move(s.(global := s.global + 1), t, HoldingAnonymous))
  {
    var loaded := Move(s, t, Loaded("", s.global));
    run := ReachLoaded(c, s, t, "", 0);
    run := Extend(c, s, run, loaded, Go(t, 0));
    assert Apply(c, loaded, Go(t, 0)) == Move(s.(global := s.global + 1), t, HoldingAnonymous);
  }

  /** The counter a LoadOrStore of `key` returns. */
  function Stored(s: State, key: Key, newId: Id): Id {
    if key in s.clients then s.clients[key] else newId
  }

  /** The state after the LoadOrStore. */
  lemma FoundFromClaimed(c: Config, s: State, t: Tid, key: Key, newId: Id)
    requires t in s.threads && s.threads[t] == Claimed(key) && newId !in s.counters
    ensures var id := Stored(s, key, newId); var s1 := Advance(c, s, t, newId);
      && s1.global == s.global && s1.clients == s.clients[key := id]
      && s1.threads == s.threads[t := Found(key, id)]
      && Count(s1, id) == Count(s, id) && s1.counters[id := Count(s, id) + 1] == s.counters[id := Count(s, id) + 1]
  {
  }

  /** From the Add to the grant. */
  lemma HoldingFromFound(c: Config, s: State, t: Tid, key: Key, id: Id, newId: Id) returns (run: seq<Action>)
    requires t in s.threads && s.threads[t] == Found(key, id)
    requires key in s.clients && s.clients[key] == id && Count(s, id) < c.maxClient
    ensures Alone(run, t) && Leads(c, s, run, Move(Bump(s, id, 1), t, Holding(key, id)))
  {
    var s1 := Move(Bump(s, id, 1), t, Under(key, id));
    run := Extend(c, s, [], s, Go(t, newId));
    assert Apply(c, s, Go(t, newId)) == s1;
    run := Extend(c, s, run, s1, Go(t, newId));
    assert Apply(c, s1, Go(t, newId)) == Move(Bump(s, id, 1), t, Holding(key, id));
  }

  /** The state a grant leaves. */
  function Granted(s: State, t: Tid, key: Key, id: Id): State {
    State(s.global, s.clients[key := id], s.counters[id := Count(s, id) + 1], s.threads[t := Holding(key, id)])
  }

  /** From the LoadOrStore to the grant. */
  lemma ReachHolding(c: Config, s: State, t: Tid, key: Key, newId: Id) returns (run: seq<Action>)
    requires t in s.threads && s.threads[t] == Claimed(key) && newId !in s.counters
    requires Count(s, Stored(s, key, newId)) < c.maxClient
    ensures Alone(run, t) && Leads(c, s, run, Granted(s, t, key, Stored(s, key, newId)))
  {
    var id, s1 := Stored(s, key, newId), Advance(c, s, t, newId);
    FoundFromClaimed(c, s, t, key, newId);
    var first := Extend(c, s, [], s, Go(t, newId));
    var rest := HoldingFromFound(c, s1, t, key, id, newId);
    LeadsOn(c, s, first, s1, rest, Move(Bump(s1, id, 1), t, Holding(key, id)));
    assert Move(Bump(s1, id, 1), t, Holding(key, id)) == Granted(s, t, key, id);
    run := first + rest;
  }

  /** An Acquire that nothing interrupts is granted whenever both limits leave room. */
  lemma UninterruptedAcquire(c: Config, s: State, t: Tid, key: Key, newId: Id) returns (run: seq<Action>)
    requires PcOf(s, t).Idle? && key != "" && s.global < c.maxGlobal && newId !in s.counters
    requires Count(s, Stored(s, key, newId)) < c.maxClient
    ensures Alone(run, t)
    ensures Leads(c, s, run, Granted(s.(global := s.global + 1), t, key, Stored(s, key, newId)))
  {
    var s1 := Move(s.(global := s.global + 1), t, Claimed(key));
    var r1 := ReachClaimed(c, s, t, key, newId);
    var r2 := ReachHolding(c, s1, t, key, newId);
    assert Granted(s1, t, key, Stored(s, key, newId)) ==
           Granted(s.(global := s.global + 1), t, key, Stored(s, key, newId));
    LeadsOn(c, s, r1, s1, r2, Granted(s1, t, key, Stored(s, key, newId)));
    run := r1 + r2;
  }

  /** An Acquire that nothing interrupts, up to its Add, when the counter stands at the limit. */
  lemma ReachOver(c: Config, s: State, t: Tid, key: Key) returns (run: seq<Action>)
    requires PcOf(s, t).Idle? && key != "" && s.global < c.maxGlobal
    requires key in s.clients && s.clients[key] in s.counters && s.counters[s.clients[key]] >= c.maxClient
    ensures var id := s.clients[key];
      Leads(c, s, run, Move(Bump(s.(global := s.global + 1), id, 1), t, Over(key, id)))
  {
    var id, more := s.clients[key], s.(global := s.global + 1);
    var newId := Unused(s.counters);
    var s1, s2 := Move(more, t, Claimed(key)), Move(more, t, Found(key, id));
    run := ReachClaimed(c, s, t, key, newId);
    run := Extend(c, s, run, s1, Go(t, newId));
    assert Apply(c, s1, Go(t, newId)) == s2;
    run := Extend(c, s, run, s2, Go(t, newId));
    assert Apply(c, s2, Go(t, newId)) == Move(Bump(more, id, 1), t, Over(key, id));
  }

  /** There is always an identity no counter has. */
  lemma {:induction false} UnusedExists(ids: set<Id>) returns (id: Id)
    ensures forall x :: x in ids ==> x < id
  {
    if ids == {} {
      id := 0;
    } else {
      var x :| x in ids;
      var rest := UnusedExists(ids - {x});
      id := if x < rest then rest else x + 1;
      forall y | y in ids ensures y < id {
        assert y == x || y in ids - {x};
      }
    }
  }

  lemma Unused(counters: map<Id, int>) returns (id: Id)
    ensures id !in counters
  {
    id := UnusedExists(counters.Keys);
    assert id in counters.Keys ==> id < id;
  }

  /** A Release that nothing interrupts, of a slot whose counter is still published. */
  lemma UninterruptedRelease(c: Config, s: State, t: Tid) returns (run: seq<Action>)
    requires t in s.threads && s.threads[t].Holding?
    requires var pc := s.threads[t]; pc.key in s.clients && s.clients[pc.key] == pc.id
    ensures Alone(run, t) && Leads(c, s, run, Move(Bump(s.(global := s.global - 1), s.threads[t].id, -1), t, Idle))
  {
    var pc, less := s.threads[t], s.(global := s.global - 1);
    var s1, s2 := Move(less, t, Freed(pc.key, pc.id)), Move(less, t, Freeing(pc.key, pc.id, pc.id));
    run := Extend(c, s, [], s, Release(t));
    run := Extend(c, s, run, s1, Go(t, 0));
    assert Apply(c, s1, Go(t, 0)) == s2;
    run := Extend(c, s, run, s2, Go(t, 0));
    assert Apply(c, s2, Go(t, 0)) == Move(Bump(less, pc.id, -1), t, Idle);
  }

  /** A request without a key gives back its place in the global limit, and nothing else. */
  lemma AnonymousRelease(c: Config, s: State, t: Tid) returns (run: seq<Action>)
    requires t in s.threads && s.threads[t].HoldingAnonymous?
    ensures Alone(run, t) && Leads(c, s, run, Move(s.(global := s.global - 1), t, Idle))
  {
    run := Extend(c, s, [], s, Release(t));
  }

  /** A sweep reads zero. */
  lemma SweepReadsZero(c: Config, s: State, t: Tid, key: Key) returns (run: seq<Action>)
    requires PcOf(s, t).Idle? && key in s.clients && Count(s, s.clients[key]) == 0
    requires forall u :: u in s.threads ==> !InWindow(s.threads[u], key)
    ensures Leads(c, s, run, Move(s, t, Doomed(key, s.clients[key])))
  {
    var s1 := Move(s, t, Visiting(key, s.clients[key]));
    run := Extend(c, s, [], s, Visit(t, key));
    run := Extend(c, s, run, s1, Go(t, 0));
    assert Apply(c, s1, Go(t, 0)) == Move(s, t, Doomed(key, s.clients[key]));
  }

  /** A sweep's compare-and-delete, whatever the counter holds by now. */
  lemma SweepDeletes(c: Config, s: State, t: Tid) returns (run: seq<Action>)
    requires t in s.threads && s.threads[t].Doomed?
    requires s.threads[t].key in s.clients && s.clients[s.threads[t].key] == s.threads[t].id
    requires forall u :: u in s.threads ==> !InWindow(s.threads[u], s.threads[t].key)
    ensures Leads(c, s, run, Move(s.(clients := s.clients - {s.threads[t].key}), t, Idle))
  {
    run := Extend(c, s, [], s, Go(t, 0));
  }

  /** Nobody holds "k", whose counter `0` is published at zero, and the sweep's thread 0 stands at `pc`. */
  function Swept(pc: Pc): State {
    State(0, map["k" := 0], map[0 := 0], map[1 := Idle, 0 := pc])
  }

  /** An acquire and its release leave a published counter at zero. */
  lemma CounterLeft(c: Config) returns (run: seq<Action>)
    requires c.maxGlobal >= 1 && c.maxClient >= 1
    ensures Leads(c, Init, run, State(0, map["k" := 0], map[0 := 0], map[1 := Idle]))
  {
    var held := State(1, map["k" := 0], map[0 := 1], map[1 := Holding("k", 0)]);
    run := UninterruptedAcquire(c, Init, 1, "k", 0);
    assert Granted(Init.(global := 1), 1, "k", 0) == held;
    var release := UninterruptedRelease(c, held, 1);
    var left := Move(Bump(held.(global := 0), 0, -1), 1, Idle);
    assert left == State(0, map["k" := 0], map[0 := 0], map[1 := Idle]);
    LeadsOn(c, Init, run, held, release, left);
    run := run + release;
  }

  /** A sweep then reads that zero. */
  lemma SweepArmed(c: Config) returns (run: seq<Action>)
    requires c.maxGlobal >= 1 && c.maxClient >= 1
    ensures Leads(c, Init, run, Swept(Doomed("k", 0)))
  {
    var left := State(0, map["k" := 0], map[0 := 0], map[1 := Idle]);
    run := CounterLeft(c);
    var sweep := SweepReadsZero(c, left, 0, "k");
    assert Move(left, 0, Doomed("k", 0)) == Swept(Doomed("k", 0));
    LeadsOn(c, Init, run, left, sweep, Swept(Doomed("k", 0)));
    run := run + sweep;
  }

  /** With the sweep armed, the slot is granted again. */
  lemma GrantedAgain(c: Config) returns (run: seq<Action>)
    requires c.maxGlobal >= 1 && c.maxClient >= 1
    ensures Leads(c, Init, run, State(1, map["k" := 0], map[0 := 1], map[1 := Holding("k", 0), 0 := Doomed("k", 0)]))
  {
    var armed := Swept(Doomed("k", 0));
    run := SweepArmed(c);
    var acquire := UninterruptedAcquire(c, armed, 1, "k", 1);
    var held := Granted(armed.(global := 1), 1, "k", 0);
    assert held == State(1, map["k" := 0], map[0 := 1], map[1 := Holding("k", 0), 0 := Doomed("k", 0)]);
    LeadsOn(c, Init, run, armed, acquire, held);
    run := run + acquire;
  }

  /** Then the sweep deletes the counter, which its holder still uses. */
  lemma LateDelete(c: Config) returns (run: seq<Action>)
    requires c.maxGlobal >= 1 && c.maxClient >= 1
    ensures Leads(c, Init, run, State(1, map[], map[0 := 1], map[1 := Holding("k", 0), 0 := Idle]))
  {
    var held := State(1, map["k" := 0], map[0 := 1], map[1 := Holding("k", 0), 0 := Doomed("k", 0)]);
    run := GrantedAgain(c);
    var delete := SweepDeletes(c, held, 0);
    var deleted := Move(held.(clients := held.clients - {"k"}), 0, Idle);
    assert deleted == State(1, map[], map[0 := 1], map[1 := Holding("k", 0), 0 := Idle]);
    LeadsOn(c, Init, run, held, delete, deleted);
    run := run + delete;
  }

  /**
   * With room for one, a call that overshot and has not yet taken its one back makes the next call overshoot too,
   * although by then nobody holds the key.
   */
  lemma OvershootRefuses(c: Config) returns (run: seq<Action>)
    requires c.maxClient == 1 && c.maxGlobal >= 2
    ensures IsRun(c, Init, run)
    ensures var s := Final(c, Init, run); Holders(s, "k") == {} && PcOf(s, 3) == Over("k", 0)
  {
    var s1 := State(1, map["k" := 0], map[0 := 1], map[1 := Holding("k", 0)]);
    run := UninterruptedAcquire(c, Init, 1, "k", 0);
    assert Granted(Init.(global := 1), 1, "k", 0) == s1;
    var over := ReachOver(c, s1, 2, "k");
    var s2 := Move(Bump(s1.(global := 2), 0, 1), 2, Over("k", 0));
    LeadsOn(c, Init, run, s1, over, s2);
    run := run + over;
    var release := UninterruptedRelease(c, s2, 1);
    var s3 := Move(Bump(s2.(global := 1), 0, -1), 1, Idle);
    LeadsOn(c, Init, run, s2, release, s3);
    run := run + release;
    over := ReachOver(c, s3, 3, "k");
    LeadsOn(c, Init, run, s3, over, Move(Bump(s3.(global := 2), 0, 1), 3, Over("k", 0)));
    run := run + over;
  }

  /** Threads 1 to `n` hold "k", but the counter that later acquires find has not heard of the first. */
  ghost predicate Crowd(s: State, n: nat) {
    && n >= 1 && s.global == n
    && (forall t :: 1 <= t <= n ==> t in s.threads && s.threads[t].Holding? && s.threads[t].key == "k")
    && (forall t :: t in s.threads ==> t <= n)
    && (if n == 1 then s.clients == map[] && s.counters.Keys == {0}
        else s.clients == map["k" := 1] && s.counters.Keys == {0, 1} && s.counters[1] == n - 1)
  }

  /** The next thread joins. */
  lemma CrowdGrows(c: Config, s: State, n: nat) returns (run: seq<Action>, s': State)
    requires Crowd(s, n) && n <= c.maxClient && n < c.maxGlobal
    ensures Leads(c, s, run, s') && Crowd(s', n + 1)
  {
    var newId := if n == 1 then 1 else 2;
    run := UninterruptedAcquire(c, s, n + 1, "k", newId);
    s' := Granted(s.(global := s.global + 1), n + 1, "k", Stored(s, "k", newId));
  }

  lemma {:induction false} CrowdReached(c: Config, n: nat) returns (run: seq<Action>, s: State)
    requires c.maxClient >= 1 && 1 <= n <= c.maxGlobal && n <= c.maxClient + 1
    ensures Leads(c, Init, run, s) && Crowd(s, n)
  {
    if n == 1 {
      run := LateDelete(c);
      s := State(1, map[], map[0 := 1], map[1 := Holding("k", 0), 0 := Idle]);
    } else {
      var before, joining;
      run, before := CrowdReached(c, n - 1);
      joining, s := CrowdGrows(c, before, n - 1);
      LeadsOn(c, Init, run, before, joining, s);
      run := run + joining;
    }
  }

  lemma {:induction false} CrowdSize(n: nat) returns (r: set<Tid>)
    ensures |r| == n && forall t :: t in r <==> 1 <= t <= n
  {
    if n == 0 {
      r := {};
    } else {
      r := CrowdSize(n - 1);
      r := r + {n};
    }
  }

  /**
   * Keeping every step of a sweep out of the LoadOrStore-to-publish window is not enough: here the sweep reads zero
   * before the window opens and deletes after it has closed, and one key gets more holders than its limit.
   */
  lemma LateDeleteBreaksLimit(c: Config) returns (run: seq<Action>)
    requires 1 <= c.maxClient < c.maxGlobal
    ensures IsRun(c, Init, run) && ClearRun(c, Init, run)
    ensures |Holders(Final(c, Init, run), "k")| > c.maxClient
  {
    var n := c.maxClient + 1;
    var s;
    run, s := CrowdReached(c, n);
    var crowd := CrowdSize(n);
    SubsetSize(crowd, Holders(s, "k"));
  }

  /** In every interleaving no key has more holders than the global limit. */
  lemma HoldersWithinGlobal(c: Config, run: seq<Action>, key: Key)
    requires c.maxGlobal >= 0 && IsRun(c, Init, run)
    ensures |Holders(Final(c, Init, run), key)| <= c.maxGlobal
  {
    var s := Final(c, Init, run);
    GlobalLimit(c, run);
    SubsetSize(Holders(s, key), Playing(s.threads, GlobalClaim));
  }

  ghost predicate KeepsLimit(c: Config, run: seq<Action>, key: Key)
    requires IsRun(c, Init, run)
  {
    |Holders(Final(c, Init, run), key)| <= c.maxClient
  }

  /**
   * The client limit holds in every interleaving exactly when the global limit already implies it; and keeping the
   * steps of sweeps out of the windows of acquires changes nothing about that.
   */
  lemma ClientLimitCondition(c: Config)
    requires c.maxClient >= 1 && c.maxGlobal >= 0
    ensures (forall run, key :: IsRun(c, Init, run) ==> KeepsLimit(c, run, key)) <==> c.maxGlobal <= c.maxClient
    ensures (forall run, key :: IsRun(c, Init, run) && ClearRun(c, Init, run) ==> KeepsLimit(c, run, key))
            <==> c.maxGlobal <= c.maxClient
  {
    if c.maxGlobal <= c.maxClient {
      forall run, key | IsRun(c, Init, run) ensures KeepsLimit(c, run, key) {
        HoldersWithinGlobal(c, run, key);
      }
    } else {
      var run := LateDeleteBreaksLimit(c);
      assert IsRun(c, Init, run) && ClearRun(c, Init, run) && !KeepsLimit(c, run, "k");
    }
  }
}
