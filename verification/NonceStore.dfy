/**
 * The single-use nonces of the challenge engine: `ConsumeNonce` and `SweepNonces` over 256 locked shards.
 *
 * A run is a sequence of the steps the shard locks make atomic: one `consume`, or the sweep of one shard. Each
 * carries the clock reading it works with, which `ConsumeNonce` takes before it locks the shard; so the readings
 * of a run need not be in order.
 */
module NonceRuns {

  type Nonce = string
  type Hash = Nonce -> nat

  const TTL := 300
  const SHARDS := 256

  datatype Event =
    | Consume(nonce: Nonce, issued: int, now: int)
    | SweepShard(shard: nat, now: int)
    | Other   // a step that does not touch the store

  datatype Answer = Accepted | Expired | Replay

  function ShardOf(h: Hash, n: Nonce): (s: nat)
    ensures s < SHARDS
  {
    h(n) % SHARDS
  }

  /** The answer of a store that holds the nonces of `m`. */
  function Judge(m: map<Nonce, int>, n: Nonce, issued: int, now: int): Answer {
    if now > issued + TTL then Expired else if n in m then Replay else Accepted
  }

  /** A token is good for 300 seconds from its issue, once. */
  lemma JudgeMeans(m: map<Nonce, int>, n: Nonce, issued: int, now: int)
    ensures Judge(m, n, issued, now) == Expired <==> now > issued + 300
    ensures Judge(m, n, issued, now) == Replay <==> now <= issued + 300 && n in m
    ensures Judge(m, n, issued, now) == Accepted <==> now <= issued + 300 && n !in m
  {
  }

  function Consumed(m: map<Nonce, int>, n: Nonce, issued: int, now: int): map<Nonce, int> {
    if Judge(m, n, issued, now).Accepted? then m[n := issued + TTL] else m
  }

  /** Without the entries of one shard that expired before `now`. */
  function ShardSwept(h: Hash, m: map<Nonce, int>, shard: nat, now: int): map<Nonce, int> {
    map k | k in m && !(ShardOf(h, k) == shard && m[k] < now) :: m[k]
  }

  function Apply(h: Hash, m: map<Nonce, int>, e: Event): map<Nonce, int> {
    match e
    case Consume(n, issued, now) => Consumed(m, n, issued, now)
    case SweepShard(shard, now) => ShardSwept(h, m, shard, now)
    case Other => m
  }

  /** What one unsharded map holds after a run. */
  function After(h: Hash, es: seq<Event>): map<Nonce, int> {
    if es == [] then map[] else Apply(h, After(h, es[..|es| - 1]), es[|es| - 1])
  }

  predicate AcceptedAt(h: Hash, es: seq<Event>, j: nat, n: Nonce) {
    && j < |es| && es[j].Consume? && es[j].nonce == n
    && Judge(After(h, es[..j]), n, es[j].issued, es[j].now) == Accepted
  }

  /** Step `s` is a sweep that drops what step `i` stored. */
  predicate Drops(h: Hash, es: seq<Event>, i: nat, s: nat) {
    && i < s < |es| && es[i].Consume? && es[s].SweepShard?
    && es[s].shard == ShardOf(h, es[i].nonce) && es[i].issued + TTL < es[s].now
  }

  /** `n` was accepted at step `i`, and no later step dropped it. */
  ghost predicate Holds(h: Hash, es: seq<Event>, i: nat, n: Nonce) {
    AcceptedAt(h, es, i, n) && forall s :: i < s < |es| ==> !Drops(h, es, i, s)
  }

  lemma {:induction false} StoredIsHeld(h: Hash, es: seq<Event>, n: Nonce)
    requires n in After(h, es)
    ensures exists i: nat :: Holds(h, es, i, n) && After(h, es)[n] == es[i].issued + TTL
    decreases |es|
  {
    var k := |es| - 1;
    var before := es[..k];
    if AcceptedAt(h, es, k, n) {
      assert Holds(h, es, k, n);
    } else {
      StoredIsHeld(h, before, n);
      var i: nat :| Holds(h, before, i, n) && After(h, before)[n] == before[i].issued + TTL;
      assert es[..i] == before[..i];
      forall s | i < s < |es| ensures !Drops(h, es, i, s) {
        assert s < k ==> !Drops(h, before, i, s);
      }
      assert Holds(h, es, i, n);
    }
  }

  lemma {:induction false} HeldIsStored(h: Hash, es: seq<Event>, i: nat, n: Nonce)
    requires Holds(h, es, i, n)
    ensures n in After(h, es) && After(h, es)[n] == es[i].issued + TTL
    decreases |es|
  {
    var k := |es| - 1;
    var before := es[..k];
    if i < k {
      assert before[..i] == es[..i];
      forall s | i < s < |before| ensures !Drops(h, before, i, s) {
        assert !Drops(h, es, i, s);
      }
      HeldIsStored(h, before, i, n);
      assert !Drops(h, es, i, k);
    }
  }

  /** A nonce is in the store exactly when an acceptance of it has not been swept away since. */
  lemma StoredIffHeld(h: Hash, es: seq<Event>, n: Nonce)
    ensures n in After(h, es) <==> exists i: nat :: Holds(h, es, i, n)
  {
    if n in After(h, es) {
      StoredIsHeld(h, es, n);
    }
    if i: nat :| Holds(h, es, i, n) {
      HeldIsStored(h, es, i, n);
    }
  }

  /** No `consume` works with a clock reading older than that of a sweep its shard has already seen. */
  ghost predicate Timely(h: Hash, es: seq<Event>) {
    forall s, j :: 0 <= s < j < |es| && es[s].SweepShard? && es[j].Consume? && es[s].shard == ShardOf(h, es[j].nonce)
                   ==> es[s].now <= es[j].now
  }

  /** Between two acceptances of a nonce lies a sweep that dropped the first. */
  lemma SweptBetween(h: Hash, es: seq<Event>, i: nat, j: nat, n: Nonce) returns (s: nat)
    requires i < j && AcceptedAt(h, es, i, n) && AcceptedAt(h, es, j, n)
    ensures s < j && Drops(h, es, i, s)
  {
    var before := es[..j];
    assert before[..i] == es[..i];
    StoredIffHeld(h, before, n);
    assert !Holds(h, before, i, n);
    s :| i < s < |before| && Drops(h, before, i, s);
  }

  /** Only a token issued later can get a nonce accepted again. */
  lemma AcceptedAgainIsYounger(h: Hash, es: seq<Event>, i: nat, j: nat, n: Nonce)
    requires Timely(h, es) && i < j && AcceptedAt(h, es, i, n) && AcceptedAt(h, es, j, n)
    ensures es[i].issued < es[j].issued
  {
    var s := SweptBetween(h, es, i, j, n);
  }

  /** A nonce always carries the same issue time. */
  ghost predicate FixedIssue(es: seq<Event>) {
    forall i, j :: 0 <= i < j < |es| && es[i].Consume? && es[j].Consume? && es[i].nonce == es[j].nonce
                   ==> es[i].issued == es[j].issued
  }

  /** Each nonce is accepted at most once, also after it has been swept. */
  lemma AcceptedAtMostOnce(h: Hash, es: seq<Event>, i: nat, j: nat, n: Nonce)
    requires Timely(h, es) && FixedIssue(es) && AcceptedAt(h, es, i, n) && AcceptedAt(h, es, j, n)
    ensures i == j
  {
    if i < j {
      AcceptedAgainIsYounger(h, es, i, j, n);
    } else if j < i {
      AcceptedAgainIsYounger(h, es, j, i, n);
    }
  }

  /** Step `i` presents `n` before its token expires. */
  predicate Presented(es: seq<Event>, i: nat, n: Nonce) {
    i < |es| && es[i].Consume? && es[i].nonce == n && es[i].now <= es[i].issued + TTL
  }

  /** The answers of a store that never forgets: a replay is any nonce presented in time before. */
  ghost function Ideal(es: seq<Event>, j: nat): Answer
    requires j < |es| && es[j].Consume?
  {
    if es[j].now > es[j].issued + TTL then Expired
    else if exists i: nat :: i < j && Presented(es, i, es[j].nonce) then Replay
    else Accepted
  }

  lemma {:induction false} PresentedWasAccepted(h: Hash, es: seq<Event>, i: nat, n: Nonce) returns (a: nat)
    requires Presented(es, i, n)
    ensures a <= i && AcceptedAt(h, es, a, n)
  {
    a := i;
    if !AcceptedAt(h, es, i, n) {
      StoredIsHeld(h, es[..i], n);
      a :| Holds(h, es[..i], a, n);
      assert es[..i][..a] == es[..a];
    }
  }

  /** Sweeping changes no answer. */
  lemma AnswersLikeIdeal(h: Hash, es: seq<Event>, j: nat)
    requires Timely(h, es) && FixedIssue(es) && j < |es| && es[j].Consume?
    ensures Judge(After(h, es[..j]), es[j].nonce, es[j].issued, es[j].now) == Ideal(es, j)
  {
    var n, before := es[j].nonce, es[..j];
    if es[j].now <= es[j].issued + TTL {
      if i: nat :| i < j && Presented(es, i, n) {
        var a := PresentedWasAccepted(h, es, i, n);
        if AcceptedAt(h, es, j, n) {
          AcceptedAtMostOnce(h, es, a, j, n);
        }
      } else if n in After(h, before) {
        StoredIsHeld(h, before, n);
        var i: nat :| Holds(h, before, i, n);
        assert Presented(es, i, n);
      }
    }
  }

  ghost predicate TwiceWith(h: Hash, n: Nonce, a: int, b: int, es: seq<Event>, i: nat, j: nat) {
    && Timely(h, es) && i < j && AcceptedAt(h, es, i, n) && AcceptedAt(h, es, j, n)
    && es[i].issued == a && es[j].issued == b
  }

  /** A nonce can be accepted for issue time `a` and then again for `b` exactly when `a < b`. */
  lemma TwiceCondition(h: Hash, n: Nonce, a: int, b: int)
    ensures (exists es, i, j :: TwiceWith(h, n, a, b, es, i, j)) <==> a < b
  {
    if es, i, j :| TwiceWith(h, n, a, b, es, i, j) {
      AcceptedAgainIsYounger(h, es, i, j, n);
    }
    if a < b {
      var es := AcceptSweepAccept(h, n, a, b, a + TTL + 1);
      assert TwiceWith(h, n, a, b, es, 0, 2);
    }
  }

  /** Accept, sweep after the expiry, present again with clock reading `now`. */
  lemma AcceptSweepAccept(h: Hash, n: Nonce, a: int, b: int, now: int) returns (es: seq<Event>)
    requires now <= b + TTL
    ensures |es| == 3 && AcceptedAt(h, es, 0, n) && AcceptedAt(h, es, 2, n)
    ensures es == [Consume(n, a, a), SweepShard(ShardOf(h, n), a + TTL + 1), Consume(n, b, now)]
  {
    es := [Consume(n, a, a), SweepShard(ShardOf(h, n), a + TTL + 1), Consume(n, b, now)];
    assert es[..2][..1] == es[..1] == [es[0]] && es[..1][..0] == es[..0] == [];
    assert After(h, es[..1]) == map[n := a + TTL];
    assert After(h, es[..2]) == map[];
  }

  /** `n` is accepted at step `i` and again at step `j`. */
  ghost predicate TwiceAt(h: Hash, es: seq<Event>, n: Nonce, i: nat, j: nat) {
    i < j && AcceptedAt(h, es, i, n) && AcceptedAt(h, es, j, n)
  }

  /** `n` is presented in time at step `i`, dropped at step `s` and, by the clock reading of step `j`, still in time. */
  predicate ForgottenEarly(h: Hash, es: seq<Event>, n: Nonce, i: nat, s: nat, j: nat) {
    i < s < j && Presented(es, i, n) && Drops(h, es, i, s) && Presented(es, j, n)
  }

  /** Whoever presents a nonce in time after a sweep that dropped it finds it accepted after that sweep. */
  lemma AcceptedAfterDrop(h: Hash, es: seq<Event>, n: Nonce, i: nat, s: nat, j: nat) returns (b: nat)
    requires FixedIssue(es) && ForgottenEarly(h, es, n, i, s, j)
    ensures s < b <= j && AcceptedAt(h, es, b, n)
  {
    b := j;
    if !AcceptedAt(h, es, j, n) {
      var before := es[..j];
      StoredIsHeld(h, before, n);
      b :| Holds(h, before, b, n);
      assert before[..b] == es[..b];
      assert b < s ==> Drops(h, before, b, s);
    }
  }

  /**
   * Exactly when a nonce with a fixed issue time is accepted more than once: when some sweep, by its clock, drops
   * what a later call, by its own older reading, still takes for valid. All of it can be read off the schedule.
   */
  lemma AcceptedTwiceIff(h: Hash, es: seq<Event>, n: Nonce)
    requires FixedIssue(es)
    ensures (exists i, j :: TwiceAt(h, es, n, i, j)) <==> (exists i, s, j :: ForgottenEarly(h, es, n, i, s, j))
  {
    if i, j :| TwiceAt(h, es, n, i, j) {
      var s := SweptBetween(h, es, i, j, n);
      assert ForgottenEarly(h, es, n, i, s, j);
    }
    if i, s, j :| ForgottenEarly(h, es, n, i, s, j) {
      var a := PresentedWasAccepted(h, es, i, n);
      var b := AcceptedAfterDrop(h, es, n, i, s, j);
      assert TwiceAt(h, es, n, a, b);
    }
  }

  /** Such a schedule: a clock reading one second older than that of the sweep before it. */
  lemma StaleReadingAcceptsTwice(h: Hash, n: Nonce) returns (es: seq<Event>)
    ensures FixedIssue(es) && !Timely(h, es) && ForgottenEarly(h, es, n, 0, 1, 2) && TwiceAt(h, es, n, 0, 2)
  {
    es := AcceptSweepAccept(h, n, 0, 0, TTL);
    assert es[1].SweepShard? && es[2].Consume?;
  }
}

module NonceStore {
  import opened NonceRuns

  /** The part of the unsharded map that belongs in shard `i`. */
  function Part(h: Hash, m: map<Nonce, int>, i: nat): map<Nonce, int> {
    map k | k in m && ShardOf(h, k) == i :: m[k]
  }

  /** Without the entries that expired before `now`. */
  function Swept(m: map<Nonce, int>, now: int): map<Nonce, int> {
    map k | k in m && m[k] >= now :: m[k]
  }

  /** Without those in the shards below `upTo`. */
  function SweptBelow(h: Hash, m: map<Nonce, int>, upTo: nat, now: int): map<Nonce, int> {
    map k | k in m && !(ShardOf(h, k) < upTo && m[k] < now) :: m[k]
  }

  lemma PartOfSwept(h: Hash, m: map<Nonce, int>, i: nat, now: int)
    ensures Part(h, ShardSwept(h, m, i, now), i) == Swept(Part(h, m, i), now)
    ensures forall j :: 0 <= j < SHARDS && j != i ==> Part(h, ShardSwept(h, m, i, now), j) == Part(h, m, j)
  {}

  lemma PartOfUpdate(h: Hash, m: map<Nonce, int>, n: Nonce, exp: int)
    ensures Part(h, m[n := exp], ShardOf(h, n)) == Part(h, m, ShardOf(h, n))[n := exp]
    ensures forall j :: 0 <= j < SHARDS && j != ShardOf(h, n) ==> Part(h, m[n := exp], j) == Part(h, m, j)
  {}

  /** `delete` while ranging over a map, in any order. */
  method DeleteExpired(m: map<Nonce, int>, now: int) returns (r: map<Nonce, int>)
    ensures r == Swept(m, now)
  {
    var todo := m.Keys;
    r := m;
    while todo != {}
      invariant todo <= m.Keys
      invariant r == map k | k in m && (k in todo || m[k] >= now) :: m[k]
    {
      var k :| k in todo;
      todo := todo - {k};
      if r[k] < now {
        r := r - {k};
      }
    }
  }

  class Store {
    const hash: Hash
    const shards: array<map<Nonce, int>>
    ghost var used: map<Nonce, int>   // the unsharded map

    ghost predicate Valid()
      reads this, shards
    {
      shards.Length == SHARDS && forall i :: 0 <= i < SHARDS ==> shards[i] == Part(hash, used, i)
    }

    constructor (h: Hash)
      ensures Valid() && fresh(shards) && hash == h && used == map[]
    {
      hash := h;
      shards := new map<Nonce, int>[SHARDS](_ => map[]);
      used := map[];
    }

    /** `nonceStore.consume`. */
    method Consume(n: Nonce, exp: int) returns (ok: bool)
      requires Valid()
      modifies this, shards
      ensures Valid() && ok == (n !in old(used))
      ensures used == if ok then old(used)[n := exp] else old(used)
    {
      var sh := ShardOf(hash, n);
      if n in shards[sh] { return false; }
      PartOfUpdate(hash, used, n, exp);
      shards[sh] := shards[sh][n := exp];
      used := used[n := exp];
      ok := true;
    }

    /** `ConsumeNonce`. */
    method ConsumeNonce(n: Nonce, issued: int, now: int) returns (a: Answer)
      requires Valid()
      modifies this, shards
      ensures Valid() && a == Judge(old(used), n, issued, now)
      ensures used == Apply(hash, old(used), Event.Consume(n, issued, now))
    {
      if now > issued + TTL { return Expired; }
      var ok := Consume(n, issued + TTL);
      a := if ok then Accepted else Replay;
    }

    /** The body of the sweep's loop: one shard, under its lock. */
    method SweepOne(i: nat, now: int)
      requires Valid() && i < SHARDS
      modifies this, shards
      ensures Valid() && used == Apply(hash, old(used), Event.SweepShard(i, now))
    {
      var left := DeleteExpired(shards[i], now);
      PartOfSwept(hash, used, i, now);
      shards[i] := left;
      used := ShardSwept(hash, used, i, now);
    }

    /** `nonceStore.sweep`. */
    method Sweep(now: int)
      requires Valid()
      modifies this, shards
      ensures Valid() && used == Swept(old(used), now)
    {
      for i := 0 to SHARDS
        invariant Valid() && used == SweptBelow(hash, old(used), i, now)
      {
        SweepOne(i, now);
      }
    }
  }
}
