/**
 * What `Acquire` does about a sweep that deletes the counter it has just got: it publishes the counter again. And what
 * a request without a key does to the counters: nothing.
 */
module SlotRepair {
  import opened SlotAllocator

  /** Every grant leaves the counter it was charged to published, whatever sweeps have done meanwhile. */
  lemma GrantPublishes(c: Config, s: State, a: Action)
    requires Enabled(s, a)
    ensures var s' := Apply(c, s, a); var pc' := s'.threads[a.t];
      pc'.Holding? && !PcOf(s, a.t).Holding? ==> pc'.key in s'.clients && s'.clients[pc'.key] == pc'.id
  {
    if a.Go? {
      AdvanceGrantPublishes(c, s, a.t, a.newId);
    }
  }

  lemma AdvanceGrantPublishes(c: Config, s: State, t: Tid, newId: Id)
    requires Enabled(s, Go(t, newId))
    ensures var s' := Advance(c, s, t, newId); var pc' := s'.threads[t];
      pc'.Holding? ==> pc'.key in s'.clients && s'.clients[pc'.key] == pc'.id
  {
  }

  /** The thread works with a counter of its key, published or not. */
  predicate Uses(pc: Pc) {
    Relies(pc) || pc.Stale?
  }

  /** The action is not a LoadOrStore that makes a second counter for a key while some thread still uses the first. */
  ghost predicate Single(s: State, a: Action) {
    var pc := PcOf(s, a.t);
    a.Go? && pc.Claimed? && pc.key !in s.clients ==>
      forall u :: u in s.threads && Uses(s.threads[u]) ==> s.threads[u].key != pc.key
  }

  /** No other acquire of a key comes in between the delete of its counter and the re-publish. */
  ghost predicate SingleRun(c: Config, s: State, run: seq<Action>)
    requires IsRun(c, s, run)
    decreases |run|
  {
    run == [] || (Single(s, run[0]) && SingleRun(c, Apply(c, s, run[0]), run[1..]))
  }

  /** The counter a thread uses is its key's, wherever that is published, and nobody else's. */
  ghost predicate Consistent(s: State, pc: Pc) {
    && (Uses(pc) ==>
          && pc.id in s.counters && (pc.key in s.clients ==> s.clients[pc.key] == pc.id)
          && (forall k :: k in s.clients && s.clients[k] == pc.id ==> k == pc.key))
    && (pc.Freeing? ==> pc.target == pc.id)
  }

  ghost predicate SameCounter(p: Pc, q: Pc) {
    Uses(p) && Uses(q) ==> (p.key == q.key <==> p.id == q.id)
  }

  ghost predicate SingleInv(c: Config, s: State) {
    && Table(s)
    && (forall t :: t in s.threads ==> Consistent(s, s.threads[t]))
    && (forall t, u :: t in s.threads && u in s.threads ==> SameCounter(s.threads[t], s.threads[u]))
    && (forall id :: id in s.counters ==> |Playing(s.threads, Charge(id))| <= s.counters[id])
    && (forall key :: |Playing(s.threads, Grant(key))| <= c.maxClient)
  }

  /** What an action does to the table of counters. */
  lemma TableMoves(c: Config, s: State, a: Action)
    requires Enabled(s, a)
    ensures var s' := Apply(c, s, a); var pc := PcOf(s, a.t);
      || s'.clients == s.clients
      || (&& a.Go? && pc.Claimed? && pc.key !in s.clients && a.newId !in s.counters
          && s'.clients == s.clients[pc.key := a.newId] && a.newId in s'.counters)
      || (pc.Stale? && s'.clients == s.clients[pc.key := pc.id])
      || (pc.Doomed? && s'.clients == s.clients - {pc.key})
  {
  }

  /** What it does to its own thread's counter: keeps it, lets it go, or takes up the one published for its key. */
  lemma CounterMoves(c: Config, s: State, a: Action)
    requires Enabled(s, a)
    ensures var s' := Apply(c, s, a); var pc, pc' := PcOf(s, a.t), s'.threads[a.t];
      Uses(pc') ==>
        || (Uses(pc) && pc'.key == pc.key && pc'.id == pc.id)
        || (a.Go? && pc.Claimed? && pc'.key == pc.key && pc.key in s'.clients && s'.clients[pc.key] == pc'.id)
    ensures var s' := Apply(c, s, a); var pc, pc' := PcOf(s, a.t), s'.threads[a.t];
      pc'.Freeing? ==> pc'.key in s.clients && pc'.target == s.clients[pc'.key]
  {
    if a.Go? {
      AdvanceCounterMoves(c, s, a.t, a.newId);
    }
  }

  lemma AdvanceCounterMoves(c: Config, s: State, t: Tid, newId: Id)
    requires Enabled(s, Go(t, newId))
    ensures var s' := Advance(c, s, t, newId); var pc, pc' := PcOf(s, t), s'.threads[t];
      Uses(pc') ==>
        || (Uses(pc) && pc'.key == pc.key && pc'.id == pc.id)
        || (pc.Claimed? && pc'.key == pc.key && pc.key in s'.clients && s'.clients[pc.key] == pc'.id)
    ensures var s' := Advance(c, s, t, newId); var pc, pc' := PcOf(s, t), s'.threads[t];
      pc'.Freeing? ==> pc'.key in s.clients && pc'.target == s.clients[pc'.key]
  {
  }

  lemma SingleTable(c: Config, s: State, a: Action)
    requires SingleInv(c, s) && Enabled(s, a)
    ensures Table(Apply(c, s, a))
  {
    assert a.t in s.threads ==> Consistent(s, s.threads[a.t]);
    TableMoves(c, s, a);
    CountersStay(c, s, a);
  }

  lemma ConsistentOther(c: Config, s: State, a: Action, u: Tid)
    requires SingleInv(c, s) && Enabled(s, a) && Single(s, a) && u in s.threads && u != a.t
    ensures Consistent(Apply(c, s, a), s.threads[u])
  {
    assert Consistent(s, s.threads[u]);
    assert a.t in s.threads ==> Consistent(s, s.threads[a.t]) && SameCounter(s.threads[a.t], s.threads[u]);
    TableMoves(c, s, a);
    CountersStay(c, s, a);
  }

  lemma ConsistentSelf(c: Config, s: State, a: Action)
    requires SingleInv(c, s) && Enabled(s, a)
    ensures Consistent(Apply(c, s, a), Apply(c, s, a).threads[a.t])
  {
    assert a.t in s.threads ==> Consistent(s, s.threads[a.t]);
    SingleTable(c, s, a);
    TableMoves(c, s, a);
    CountersStay(c, s, a);
    CounterMoves(c, s, a);
    KeepsTarget(c, s, a);
  }

  lemma KeepsTarget(c: Config, s: State, a: Action)
    requires Enabled(s, a)
    ensures Apply(c, s, a).threads[a.t].Freeing? ==> PcOf(s, a.t).Freed? && Apply(c, s, a).clients == s.clients
  {
  }

  lemma SameCounterStep(c: Config, s: State, a: Action, u: Tid)
    requires SingleInv(c, s) && Enabled(s, a) && Single(s, a) && u in s.threads && u != a.t
    ensures SameCounter(Apply(c, s, a).threads[a.t], s.threads[u])
  {
    ConsistentOther(c, s, a, u);
    ConsistentSelf(c, s, a);
    assert a.t in s.threads ==> SameCounter(s.threads[a.t], s.threads[u]);
    CounterMoves(c, s, a);
    if a.Go? && PcOf(s, a.t).Claimed? && Uses(s.threads[u]) {
      TakesUp(c, s, a, u);
    }
  }

  /** Whoever takes up a counter finds the one the others of its key use. */
  lemma TakesUp(c: Config, s: State, a: Action, u: Tid)
    requires SingleInv(c, s) && Enabled(s, a) && Single(s, a) && u in s.threads && u != a.t && Uses(s.threads[u])
    requires a.Go? && PcOf(s, a.t).Claimed?
    ensures var pc, s' := PcOf(s, a.t), Apply(c, s, a);
      pc.key in s'.clients && (s.threads[u].key == pc.key <==> s.threads[u].id == s'.clients[pc.key])
  {
    assert Consistent(s, s.threads[u]);
  }

  /** A counter never falls behind what is charged to it. */
  lemma ChargeMoves(c: Config, s: State, a: Action, id: Id)
    requires Consistent(s, PcOf(s, a.t)) && Enabled(s, a)
    ensures var s' := Apply(c, s, a);
      Count(s', id) - Count(s, id) >=
      Unit(Plays(s'.threads[a.t], Charge(id))) - Unit(Plays(PcOf(s, a.t), Charge(id)))
  {
    if a.Go? {
      AdvanceChargeMoves(c, s, a.t, a.newId, id);
    }
  }

  lemma AdvanceChargeMoves(c: Config, s: State, t: Tid, newId: Id, id: Id)
    requires Consistent(s, PcOf(s, t)) && Enabled(s, Go(t, newId))
    ensures var s' := Advance(c, s, t, newId);
      Count(s', id) - Count(s, id) >=
      Unit(Plays(s'.threads[t], Charge(id))) - Unit(Plays(PcOf(s, t), Charge(id)))
  {
  }

  lemma SingleCharges(c: Config, s: State, a: Action, id: Id)
    requires SingleInv(c, s) && Enabled(s, a)
    ensures |Playing(Apply(c, s, a).threads, Charge(id))| <= Count(Apply(c, s, a), id)
  {
    assert Consistent(s, PcOf(s, a.t)) by {
      assert a.t in s.threads ==> Consistent(s, s.threads[a.t]);
    }
    ChargeMoves(c, s, a, id);
    ChargedWithin(c, s, id);
    MovesOneThread(c, s, a);
    PlayingMove(s, a.t, Apply(c, s, a).threads[a.t], Charge(id));
  }

  /** Nothing is charged to a counter that does not exist, and no more than it shows to one that does. */
  lemma ChargedWithin(c: Config, s: State, id: Id)
    requires SingleInv(c, s)
    ensures |Playing(s.threads, Charge(id))| <= Count(s, id)
  {
    if id !in s.counters {
      forall t | t in s.threads ensures !Plays(s.threads[t], Charge(id)) {
        assert Consistent(s, s.threads[t]);
      }
      assert Playing(s.threads, Charge(id)) == {};
    }
  }

  lemma MovesOneThread(c: Config, s: State, a: Action)
    requires Enabled(s, a)
    ensures Apply(c, s, a).threads == s.threads[a.t := Apply(c, s, a).threads[a.t]]
  {
    if a.Go? {
      AdvanceMovesOne(c, s, a.t, a.newId);
    }
  }

  lemma SingleGrants(c: Config, s: State, a: Action, key: Key)
    requires SingleInv(c, s) && Enabled(s, a)
    ensures |Playing(Apply(c, s, a).threads, Grant(key))| <= c.maxClient
  {
    GrantDelta(c, s, a, key);
    MovesOneThread(c, s, a);
    PlayingMove(s, a.t, Apply(c, s, a).threads[a.t], Grant(key));
    var pc := PcOf(s, a.t);
    if pc.Found? && pc.key == key {
      forall t | t in Playing(s.threads, Grant(key)) ensures t in Playing(s.threads, Charge(pc.id)) {
        assert SameCounter(s.threads[t], s.threads[a.t]);
      }
      SubsetSize(Playing(s.threads, Grant(key)), Playing(s.threads, Charge(pc.id)));
      assert Consistent(s, s.threads[a.t]);
    }
  }

  lemma SingleStep(c: Config, s: State, a: Action)
    requires SingleInv(c, s) && Enabled(s, a) && Single(s, a)
    ensures SingleInv(c, Apply(c, s, a))
  {
    var s' := Apply(c, s, a);
    SingleTable(c, s, a);
    MovesOneThread(c, s, a);
    forall t | t in s'.threads ensures Consistent(s', s'.threads[t]) {
      if t == a.t {
        ConsistentSelf(c, s, a);
      } else {
        ConsistentOther(c, s, a, t);
      }
    }
    forall t, u | t in s'.threads && u in s'.threads ensures SameCounter(s'.threads[t], s'.threads[u]) {
      SingleThreads(c, s, a, t, u);
    }
    forall id | id in s'.counters ensures |Playing(s'.threads, Charge(id))| <= s'.counters[id] {
      SingleCharges(c, s, a, id);
    }
    forall key ensures |Playing(s'.threads, Grant(key))| <= c.maxClient {
      SingleGrants(c, s, a, key);
    }
  }

  lemma SingleThreads(c: Config, s: State, a: Action, t: Tid, u: Tid)
    requires SingleInv(c, s) && Enabled(s, a) && Single(s, a)
    requires t in Apply(c, s, a).threads && u in Apply(c, s, a).threads
    ensures SameCounter(Apply(c, s, a).threads[t], Apply(c, s, a).threads[u])
  {
    MovesOneThread(c, s, a);
    if t != a.t && u == a.t {
      SameCounterStep(c, s, a, t);
    } else if t == a.t && u != a.t {
      SameCounterStep(c, s, a, u);
    }
  }

  lemma {:induction false} SingleKeeps(c: Config, s: State, run: seq<Action>)
    requires SingleInv(c, s) && IsRun(c, s, run) && SingleRun(c, s, run)
    ensures SingleInv(c, Final(c, s, run))
    decreases |run|
  {
    if run != [] {
      SingleStep(c, s, run[0]);
      SingleKeeps(c, Apply(c, s, run[0]), run[1..]);
    }
  }

  /**
   * Whatever a sweep deletes and whenever, no key has more holders than its limit as long as no LoadOrStore makes a
   * second counter for a key while some thread still uses the first.
   */
  lemma ClientLimitDespiteDeletes(c: Config, run: seq<Action>, key: Key)
    requires c.maxClient >= 0 && IsRun(c, Init, run) && SingleRun(c, Init, run)
    ensures |Holders(Final(c, Init, run), key)| <= c.maxClient
  {
    var s := Final(c, Init, run);
    assert SingleInv(c, Init) by {
      forall role ensures Playing(Init.threads, role) == {} {
      }
    }
    SingleKeeps(c, Init, run);
    SubsetSize(Holders(s, key), Playing(s.threads, Grant(key)));
  }

  /** Sweeps kept apart from acquires never lead to that. */
  lemma {:induction false} ApartIsSingle(c: Config, s: State, run: seq<Action>)
    requires ClientInv(c, s) && IsRun(c, s, run) && ApartRun(c, s, run)
    ensures SingleRun(c, s, run)
    decreases |run|
  {
    if run != [] {
      forall u | u in s.threads && Uses(s.threads[u]) ensures s.threads[u].key in s.clients {
        assert Published(s, s.threads[u]);
      }
      ClientStep(c, s, run[0]);
      ApartIsSingle(c, Apply(c, s, run[0]), run[1..]);
    }
  }

  /** Thread `u` has its slot and the sweep is done, as if the sweep had deleted nothing. */
  function Repaired(s: State, u: Tid, w: Tid, key: Key, id: Id): State {
    State(s.global, s.clients, s.counters[id := Count(s, id) + 1], s.threads[w := Idle][u := Holding(key, id)])
  }

  /** Thread `u` is about to add to the counter that the sweep in thread `w` is about to delete. */
  ghost predicate Racing(s: State, u: Tid, w: Tid, key: Key, id: Id) {
    && u != w && u in s.threads && s.threads[u] == Found(key, id) && w in s.threads && s.threads[w] == Doomed(key, id)
    && key in s.clients && s.clients[key] == id
  }

  /**
   * A delete between an acquire's LoadOrStore and its Add, or between its Add and its check, is undone by the
   * re-publish: the state is the one an undisturbed acquire leaves.
   */
  lemma DeleteIsRepaired(c: Config, s: State, u: Tid, w: Tid, key: Key, id: Id)
    requires Racing(s, u, w, key, id) && Count(s, id) < c.maxClient
    ensures IsRun(c, s, [Go(w, 0), Go(u, 0), Go(u, 0), Go(u, 0)])
    ensures Final(c, s, [Go(w, 0), Go(u, 0), Go(u, 0), Go(u, 0)]) == Repaired(s, u, w, key, id)
    ensures IsRun(c, s, [Go(u, 0), Go(w, 0), Go(u, 0), Go(u, 0)])
    ensures Final(c, s, [Go(u, 0), Go(w, 0), Go(u, 0), Go(u, 0)]) == Repaired(s, u, w, key, id)
  {
    var gone := s.(clients := s.clients - {key}, threads := s.threads[w := Idle]);
    var under := Move(Bump(s, id, 1), u, Under(key, id));
    var o, done := Orphaned(s, u, w, key, id), Repaired(s, u, w, key, id);
    DeleteThenAdd(c, s, u, w, key, id);
    AddThenDelete(c, s, u, w, key, id);
    CheckThenStore(c, s, u, w, key, id);
    FourSteps(c, s, Go(w, 0), gone, Go(u, 0), o, Move(o, u, Stale(key, id)), Go(u, 0), done);
    FourSteps(c, s, Go(u, 0), under, Go(w, 0), o, Move(o, u, Stale(key, id)), Go(u, 0), done);
  }

  /** The state once the counter is gone and the one is added, in either order. */
  function Orphaned(s: State, u: Tid, w: Tid, key: Key, id: Id): State {
    State(s.global, s.clients - {key}, s.counters[id := Count(s, id) + 1], s.threads[w := Idle][u := Under(key, id)])
  }

  lemma DeleteThenAdd(c: Config, s: State, u: Tid, w: Tid, key: Key, id: Id)
    requires Racing(s, u, w, key, id) && Count(s, id) < c.maxClient
    ensures var gone := s.(clients := s.clients - {key}, threads := s.threads[w := Idle]);
      Apply(c, s, Go(w, 0)) == gone && Apply(c, gone, Go(u, 0)) == Orphaned(s, u, w, key, id)
  {
  }

  lemma AddThenDelete(c: Config, s: State, u: Tid, w: Tid, key: Key, id: Id)
    requires Racing(s, u, w, key, id) && Count(s, id) < c.maxClient
    ensures var under := Move(Bump(s, id, 1), u, Under(key, id));
      Apply(c, s, Go(u, 0)) == under && Apply(c, under, Go(w, 0)) == Orphaned(s, u, w, key, id)
  {
    var under := Move(Bump(s, id, 1), u, Under(key, id));
    assert Apply(c, under, Go(w, 0)).threads == Orphaned(s, u, w, key, id).threads;
  }

  lemma CheckThenStore(c: Config, s: State, u: Tid, w: Tid, key: Key, id: Id)
    requires Racing(s, u, w, key, id)
    ensures var o := Orphaned(s, u, w, key, id); var stale := Move(o, u, Stale(key, id));
      Apply(c, o, Go(u, 0)) == stale && Apply(c, stale, Go(u, 0)) == Repaired(s, u, w, key, id)
  {
    var stale := Move(Orphaned(s, u, w, key, id), u, Stale(key, id));
    assert Apply(c, stale, Go(u, 0)).clients == s.clients;
    assert Apply(c, stale, Go(u, 0)).threads == Repaired(s, u, w, key, id).threads;
  }

  /** Four actions in a row; the third and fourth are the same thread's. */
  lemma FourSteps(c: Config, s: State, a1: Action, s1: State, a2: Action, s2: State, s3: State, a: Action, s4: State)
    requires Enabled(s, a1) && s1 == Apply(c, s, a1) && Enabled(s1, a2) && s2 == Apply(c, s1, a2)
    requires Enabled(s2, a) && s3 == Apply(c, s2, a) && Enabled(s3, a) && s4 == Apply(c, s3, a)
    ensures IsRun(c, s, [a1, a2, a, a]) && Final(c, s, [a1, a2, a, a]) == s4
  {
    var r0, r1, r2, r3 := [a1, a2, a, a], [a2, a, a], [a, a], [a];
    assert r0[1..] == r1 && r1[1..] == r2 && r2[1..] == r3 && r3[1..] == [];
    assert IsRun(c, s3, r3) && Final(c, s3, r3) == s4;
    assert IsRun(c, s2, r2) && Final(c, s2, r2) == s4;
    assert IsRun(c, s1, r1) && Final(c, s1, r1) == s4;
  }

  // ---------------------------------------------------------------------------
  // The empty key

  /** The thread is idle, or about a request without a key. */
  predicate Unnamed(pc: Pc) {
    pc.Idle? || pc.HoldingAnonymous? || ((pc.Trying? || pc.Loaded?) && pc.key == "")
  }

  /** A request without a key takes part in the global limit only: no client counter is read or written for it. */
  lemma AnonymousTouchesNothing(c: Config, s: State, a: Action)
    requires Enabled(s, a) && Unnamed(PcOf(s, a.t)) && !a.Visit? && (a.Begin? ==> a.key == "")
    ensures var s' := Apply(c, s, a); s'.clients == s.clients && s'.counters == s.counters && Unnamed(s'.threads[a.t])
  {
  }

  /** The table never has an entry for it. */
  ghost predicate Named(s: State) {
    "" !in s.clients && forall t :: t in s.threads ==> Unnamed(s.threads[t]) || s.threads[t].key != ""
  }

  lemma NamedStep(c: Config, s: State, a: Action)
    requires Named(s) && Enabled(s, a)
    ensures Named(Apply(c, s, a))
  {
    TableMoves(c, s, a);
    MovesOneThread(c, s, a);
  }

  lemma {:induction false} NamedRun(c: Config, s: State, run: seq<Action>)
    requires Named(s) && IsRun(c, s, run)
    ensures Named(Final(c, s, run))
    decreases |run|
  {
    if run != [] {
      NamedStep(c, s, run[0]);
      NamedRun(c, Apply(c, s, run[0]), run[1..]);
    }
  }

  lemma NoAnonymousCounter(c: Config, run: seq<Action>)
    requires IsRun(c, Init, run)
    ensures "" !in Final(c, Init, run).clients
  {
    NamedRun(c, Init, run);
  }
}
