/** The rate limiter on values: client and path buckets, sweeping, and runs of both. */
module TokenBuckets {
  import opened Basics

  datatype Config = Config(rate: real, burst: real, perPath: bool)

  /** A bucket level as of the instant it was last touched. */
  datatype Level = Level(tokens: real, last: real)

  datatype Bucket = Bucket(own: Level, paths: map<string, Level>)

  type Buckets = map<string, Bucket>

  /** `level`, but no more than `burst`. */
  function Capped(level: real, burst: real): real {
    if level > burst then burst else level
  }

  /** What flows into a bucket between two instants. */
  function Accrued(c: Config, from: real, to: real): real {
    (to - from) * c.rate
  }

  /** What the level amounts to at `now`. */
  function Refilled(c: Config, l: Level, now: real): real {
    Capped(l.tokens + Accrued(c, l.last, now), c.burst)
  }

  /** `refillAllow` on values. */
  function Charge(c: Config, l: Level, now: real, need: real): (Level, bool) {
    var have := Refilled(c, l, now);
    if have < need then (Level(have, now), false) else (Level(have - need, now), true)
  }

  function Need(cost: int): real {
    if cost <= 0 then 1.0 else cost as real
  }

  function PathKey(path: string): string {
    if path == "" then "/" else path
  }

  function Full(c: Config, now: real): Level {
    Level(c.burst, now)
  }

  function BucketOf(c: Config, s: Buckets, ip: string, now: real): Bucket {
    if ip in s then s[ip] else Bucket(Full(c, now), map[])
  }

  function PathLevelOf(c: Config, b: Bucket, path: string, now: real): Level {
    if path in b.paths then b.paths[path] else Full(c, now)
  }

  /** `AllowN` on values: the new table and the answer. */
  function Allow(c: Config, s: Buckets, ip: string, path: string, cost: int, now: real): (Buckets, bool) {
    var b := BucketOf(c, s, ip, now);
    var (own, clientOk) := Charge(c, b.own, now, Need(cost));
    if !c.perPath then (s[ip := Bucket(own, b.paths)], clientOk)
    else
      var (level, pathOk) := Charge(c, PathLevelOf(c, b, PathKey(path), now), now, Need(cost));
      (s[ip := Bucket(own, b.paths[PathKey(path) := level])], clientOk && pathOk)
  }

  /** What `Sweep` leaves of one client. */
  function SweptBucket(c: Config, b: Bucket, cutoff: real): Option<Bucket> {
    if c.perPath then
      var kept := map p | p in b.paths && b.paths[p].last >= cutoff :: b.paths[p];
      if kept == map[] && b.own.last < cutoff then None else Some(Bucket(b.own, kept))
    else if b.own.last < cutoff then None else Some(b)
  }

  /** `Sweep` with the clients in `todo` still to be visited. */
  function SweptExcept(c: Config, s: Buckets, todo: set<string>, cutoff: real): Buckets {
    map ip | ip in s && (ip in todo || SweptBucket(c, s[ip], cutoff).Some?) ::
      if ip in todo then s[ip] else SweptBucket(c, s[ip], cutoff).value
  }

  function Cutoff(now: real, maxAge: real): real {
    now - maxAge
  }

  function Swept(c: Config, s: Buckets, cutoff: real): Buckets {
    SweptExcept(c, s, {}, cutoff)
  }

  // ---------------------------------------------------------------------------
  // Observation: what a table would let through

  function ClientLevel(c: Config, s: Buckets, ip: string, now: real): real {
    if ip in s then Refilled(c, s[ip].own, now) else c.burst
  }

  function PathLevel(c: Config, s: Buckets, ip: string, path: string, now: real): real {
    if ip in s && path in s[ip].paths then Refilled(c, s[ip].paths[path], now) else c.burst
  }

  ghost predicate Sane(c: Config) {
    c.rate >= 0.0 && c.burst >= 0.0
  }

  /** Two tables no call with a reading from `now` on can tell apart. */
  ghost predicate Same(c: Config, s1: Buckets, s2: Buckets, now: real) {
    && (forall ip :: ClientLevel(c, s1, ip, now) == ClientLevel(c, s2, ip, now))
    && (c.perPath ==> forall ip, p :: PathLevel(c, s1, ip, p, now) == PathLevel(c, s2, ip, p, now))
  }

  lemma AccruedNonNegative(c: Config, from: real, to: real)
    requires Sane(c) && from <= to
    ensures Accrued(c, from, to) >= 0.0
  {
  }

  lemma AccrueSplit(c: Config, from: real, mid: real, to: real)
    ensures Accrued(c, from, to) == Accrued(c, from, mid) + Accrued(c, mid, to)
  {
    Distribute(mid - from, to - mid, c.rate);
    assert (mid - from) + (to - mid) == to - from;
  }

  lemma Distribute(a: real, b: real, k: real)
    ensures (a + b) * k == a * k + b * k
  {
  }

  /** Refilling in two stages is refilling once. */
  lemma RefillTwice(c: Config, l: Level, now: real, later: real)
    requires Sane(c) && now <= later
    ensures Refilled(c, l, later) == Capped(Refilled(c, l, now) + Accrued(c, now, later), c.burst)
    ensures Refilled(c, l, now) <= Refilled(c, l, later)
  {
    AccruedNonNegative(c, now, later);
    AccrueSplit(c, l.last, now, later);
  }

  lemma FullStaysFull(c: Config, now: real)
    ensures Refilled(c, Full(c, now), now) == c.burst
  {
  }

  /** Indistinguishable now, indistinguishable later. */
  lemma SameLater(c: Config, s1: Buckets, s2: Buckets, now: real, later: real)
    requires Sane(c) && now <= later && Same(c, s1, s2, now)
    ensures Same(c, s1, s2, later)
  {
    forall ip ensures ClientLevel(c, s1, ip, later) == ClientLevel(c, s2, ip, later) {
      assert ClientLevel(c, s1, ip, now) == ClientLevel(c, s2, ip, now);
      ClientLevelLater(c, s1, ip, now, later);
      ClientLevelLater(c, s2, ip, now, later);
    }
    if c.perPath {
      forall ip, p ensures PathLevel(c, s1, ip, p, later) == PathLevel(c, s2, ip, p, later) {
        assert PathLevel(c, s1, ip, p, now) == PathLevel(c, s2, ip, p, now);
        PathLevelLater(c, s1, ip, p, now, later);
        PathLevelLater(c, s2, ip, p, now, later);
      }
    }
  }

  lemma ClientLevelLater(c: Config, s: Buckets, ip: string, now: real, later: real)
    requires Sane(c) && now <= later
    ensures ClientLevel(c, s, ip, later) == Capped(ClientLevel(c, s, ip, now) + Accrued(c, now, later), c.burst)
  {
    AccruedNonNegative(c, now, later);
    if ip in s {
      RefillTwice(c, s[ip].own, now, later);
    }
  }

  lemma PathLevelLater(c: Config, s: Buckets, ip: string, p: string, now: real, later: real)
    requires Sane(c) && now <= later
    ensures PathLevel(c, s, ip, p, later) == Capped(PathLevel(c, s, ip, p, now) + Accrued(c, now, later), c.burst)
  {
    AccruedNonNegative(c, now, later);
    if ip in s && p in s[ip].paths {
      RefillTwice(c, s[ip].paths[p], now, later);
    }
  }

  /** What is left of `have` after a request of `need`. */
  function Left(have: real, need: real): real {
    if have < need then have else have - need
  }

  lemma ChargeLeaves(c: Config, l: Level, now: real, need: real)
    requires need >= 0.0
    ensures Charge(c, l, now, need).1 == (Refilled(c, l, now) >= need)
    ensures Refilled(c, Charge(c, l, now, need).0, now) == Left(Refilled(c, l, now), need)
  {
  }

  /** The answer depends on the table only through the levels it shows. */
  lemma AllowAnswer(c: Config, s: Buckets, ip: string, path: string, cost: int, now: real)
    ensures Allow(c, s, ip, path, cost, now).1 ==
      (&& ClientLevel(c, s, ip, now) >= Need(cost)
       && (c.perPath ==> PathLevel(c, s, ip, PathKey(path), now) >= Need(cost)))
  {
    FullStaysFull(c, now);
  }

  /** The client's own level always pays, whatever the path bucket says; nobody else's level moves. */
  lemma AllowClientLevel(c: Config, s: Buckets, ip: string, path: string, cost: int, now: real, x: string)
    ensures ClientLevel(c, Allow(c, s, ip, path, cost, now).0, x, now) ==
      if x == ip then Left(ClientLevel(c, s, ip, now), Need(cost)) else ClientLevel(c, s, x, now)
  {
    FullStaysFull(c, now);
    ChargeLeaves(c, BucketOf(c, s, ip, now).own, now, Need(cost));
  }

  lemma AllowPathLevel(c: Config, s: Buckets, ip: string, path: string, cost: int, now: real, x: string, p: string)
    requires c.perPath
    ensures PathLevel(c, Allow(c, s, ip, path, cost, now).0, x, p, now) ==
      if x == ip && p == PathKey(path) then Left(PathLevel(c, s, ip, p, now), Need(cost))
      else PathLevel(c, s, x, p, now)
  {
    FullStaysFull(c, now);
    ChargeLeaves(c, PathLevelOf(c, BucketOf(c, s, ip, now), PathKey(path), now), now, Need(cost));
  }

  /** What a call leaves in the client's own bucket. */
  lemma AllowOwn(c: Config, s: Buckets, ip: string, path: string, cost: int, now: real)
    ensures var s' := Allow(c, s, ip, path, cost, now).0;
      ip in s' && s'[ip].own == Level(Left(ClientLevel(c, s, ip, now), Need(cost)), now)
  {
    FullStaysFull(c, now);
  }

  /** What it leaves in the path's bucket. */
  lemma AllowPath(c: Config, s: Buckets, ip: string, path: string, cost: int, now: real)
    requires c.perPath
    ensures var s' := Allow(c, s, ip, path, cost, now).0; var p := PathKey(path);
      ip in s' && p in s'[ip].paths && s'[ip].paths[p] == Level(Left(PathLevel(c, s, ip, p, now), Need(cost)), now)
  {
    FullStaysFull(c, now);
  }

  /** Other buckets show what they showed, at any time. */
  lemma AllowElsewhere(c: Config, s: Buckets, ip: string, path: string, cost: int, now: real,
                       x: string, p: string, t: real)
    ensures var s' := Allow(c, s, ip, path, cost, now).0;
      && (x != ip ==> ClientLevel(c, s', x, t) == ClientLevel(c, s, x, t))
      && (c.perPath && (x != ip || p != PathKey(path)) ==> PathLevel(c, s', x, p, t) == PathLevel(c, s, x, p, t))
  {
  }

  /** Indistinguishable tables answer alike and stay indistinguishable, however late the call's reading is. */
  lemma AllowKeepsSame(c: Config, s1: Buckets, s2: Buckets, ip: string, path: string, cost: int, now: real, m: real)
    requires Sane(c) && Same(c, s1, s2, m) && m <= now
    ensures Allow(c, s1, ip, path, cost, now).1 == Allow(c, s2, ip, path, cost, now).1
    ensures Same(c, Allow(c, s1, ip, path, cost, now).0, Allow(c, s2, ip, path, cost, now).0, m)
  {
    var t1, t2 := Allow(c, s1, ip, path, cost, now).0, Allow(c, s2, ip, path, cost, now).0;
    SameLater(c, s1, s2, m, now);
    AllowAnswer(c, s1, ip, path, cost, now);
    AllowAnswer(c, s2, ip, path, cost, now);
    forall x ensures ClientLevel(c, t1, x, m) == ClientLevel(c, t2, x, m) {
      SameClient(c, s1, s2, ip, path, cost, now, m, x);
    }
    if c.perPath {
      forall x, p ensures PathLevel(c, t1, x, p, m) == PathLevel(c, t2, x, p, m) {
        SamePath(c, s1, s2, ip, path, cost, now, m, x, p);
      }
    }
  }

  lemma SameClient(c: Config, s1: Buckets, s2: Buckets, ip: string, path: string, cost: int, now: real, m: real,
                   x: string)
    requires ClientLevel(c, s1, x, m) == ClientLevel(c, s2, x, m)
    requires ClientLevel(c, s1, ip, now) == ClientLevel(c, s2, ip, now)
    ensures ClientLevel(c, Allow(c, s1, ip, path, cost, now).0, x, m) ==
            ClientLevel(c, Allow(c, s2, ip, path, cost, now).0, x, m)
  {
    AllowOwn(c, s1, ip, path, cost, now);
    AllowOwn(c, s2, ip, path, cost, now);
    AllowElsewhere(c, s1, ip, path, cost, now, x, "", m);
    AllowElsewhere(c, s2, ip, path, cost, now, x, "", m);
  }

  lemma SamePath(c: Config, s1: Buckets, s2: Buckets, ip: string, path: string, cost: int, now: real, m: real,
                 x: string, p: string)
    requires c.perPath && PathLevel(c, s1, x, p, m) == PathLevel(c, s2, x, p, m)
    requires PathLevel(c, s1, ip, PathKey(path), now) == PathLevel(c, s2, ip, PathKey(path), now)
    ensures PathLevel(c, Allow(c, s1, ip, path, cost, now).0, x, p, m) ==
            PathLevel(c, Allow(c, s2, ip, path, cost, now).0, x, p, m)
  {
    AllowPath(c, s1, ip, path, cost, now);
    AllowPath(c, s2, ip, path, cost, now);
    AllowElsewhere(c, s1, ip, path, cost, now, x, p, m);
    AllowElsewhere(c, s2, ip, path, cost, now, x, p, m);
  }

  /**
   * In per-path mode a call is answered and paid by the client's level and the level of its own path, "/" standing for
   * the empty one; a cost of zero or less counts as one.
   */
  lemma CallOnPath(c: Config, s: Buckets, ip: string, path: string, cost: int, now: real)
    requires c.perPath
    ensures var p := if path == "" then "/" else path; var need := if cost <= 0 then 1.0 else cost as real;
      var r := Allow(c, s, ip, path, cost, now);
      var own, its := ClientLevel(c, s, ip, now), PathLevel(c, s, ip, p, now);
      && r.1 == (own >= need && its >= need)
      && ClientLevel(c, r.0, ip, now) == (if own >= need then own - need else own)
      && PathLevel(c, r.0, ip, p, now) == (if its >= need then its - need else its)
  {
    AllowAnswer(c, s, ip, path, cost, now);
    AllowClientLevel(c, s, ip, path, cost, now, ip);
    AllowPathLevel(c, s, ip, path, cost, now, ip, PathKey(path));
  }

  /** No other path, and no other client, shows anything of it at any reading. */
  lemma OtherPathsUntouched(c: Config, s: Buckets, ip: string, path: string, cost: int, now: real,
                            x: string, p: string, t: real)
    requires c.perPath && (x != ip || p != (if path == "" then "/" else path))
    ensures PathLevel(c, Allow(c, s, ip, path, cost, now).0, x, p, t) == PathLevel(c, s, x, p, t)
    ensures x != ip ==> ClientLevel(c, Allow(c, s, ip, path, cost, now).0, x, t) == ClientLevel(c, s, x, t)
  {
    AllowElsewhere(c, s, ip, path, cost, now, x, p, t);
  }

  /** Without per-path mode the path does not matter. */
  lemma CallOnClient(c: Config, s: Buckets, ip: string, path: string, cost: int, now: real)
    requires !c.perPath
    ensures var need := if cost <= 0 then 1.0 else cost as real; var r := Allow(c, s, ip, path, cost, now);
      var own := ClientLevel(c, s, ip, now);
      && r.1 == (own >= need)
      && ClientLevel(c, r.0, ip, now) == (if own >= need then own - need else own)
  {
    AllowAnswer(c, s, ip, path, cost, now);
    AllowClientLevel(c, s, ip, path, cost, now, ip);
  }

  // ---------------------------------------------------------------------------
  // How far a lagging reading can draw a level down

  /**
   * A level touched by readings that lag at most `d` behind the highest so far, `high`: it would not be negative at
   * `high`, and is at most `d` seconds' worth of tokens below zero now.
   */
  ghost predicate LevelOk(c: Config, l: Level, high: real, d: real) {
    l.tokens + Accrued(c, l.last, high) >= 0.0 && l.tokens + Accrued(c, 0.0, d) >= 0.0
  }

  ghost predicate Ok(c: Config, s: Buckets, high: real, d: real) {
    && (forall ip :: ip in s ==> LevelOk(c, s[ip].own, high, d))
    && (forall ip, p :: ip in s && p in s[ip].paths ==> LevelOk(c, s[ip].paths[p], high, d))
  }

  function Max(a: real, b: real): real {
    if a >= b then a else b
  }

  lemma LevelOkLater(c: Config, l: Level, high: real, later: real, d: real)
    requires Sane(c) && high <= later && LevelOk(c, l, high, d)
    ensures LevelOk(c, l, later, d)
  {
    AccrueSplit(c, l.last, high, later);
    AccruedNonNegative(c, high, later);
  }

  lemma OkLater(c: Config, s: Buckets, high: real, later: real, d: real)
    requires Sane(c) && high <= later && Ok(c, s, high, d)
    ensures Ok(c, s, later, d)
  {
    forall ip | ip in s ensures LevelOk(c, s[ip].own, later, d) {
      LevelOkLater(c, s[ip].own, high, later, d);
    }
    forall ip, p | ip in s && p in s[ip].paths ensures LevelOk(c, s[ip].paths[p], later, d) {
      LevelOkLater(c, s[ip].paths[p], high, later, d);
    }
  }

  /** A level that is not negative at `high` has not fallen far if it was last touched at most `d` before. */
  lemma NotFarBelow(c: Config, tokens: real, last: real, high: real, d: real)
    requires Sane(c) && high - d <= last && tokens + Accrued(c, last, high) >= 0.0
    ensures LevelOk(c, Level(tokens, last), high, d)
  {
    AccrueSplit(c, last, high, last + d);
    AccruedNonNegative(c, high, last + d);
    assert Accrued(c, last, last + d) == Accrued(c, 0.0, d);
  }

  lemma ChargeOk(c: Config, l: Level, high: real, now: real, need: real, d: real)
    requires Sane(c) && LevelOk(c, l, high, d) && now <= high && high - d <= now && need >= 0.0
    ensures LevelOk(c, Charge(c, l, now, need).0, high, d)
  {
    var r := Charge(c, l, now, need).0;
    AccrueSplit(c, l.last, now, high);
    AccruedNonNegative(c, now, high);
    NotFarBelow(c, r.tokens, now, high, d);
  }

  lemma FullOk(c: Config, now: real, high: real, d: real)
    requires Sane(c) && now <= high && high - d <= now
    ensures LevelOk(c, Full(c, now), high, d)
  {
    AccruedNonNegative(c, now, high);
    NotFarBelow(c, c.burst, now, high, d);
  }

  lemma AllowKeepsOk(c: Config, s: Buckets, ip: string, path: string, cost: int, now: real, high: real, d: real)
    requires Sane(c) && Ok(c, s, high, d) && now <= high && high - d <= now
    ensures Ok(c, Allow(c, s, ip, path, cost, now).0, high, d)
  {
    var b, p := BucketOf(c, s, ip, now), PathKey(path);
    FullOk(c, now, high, d);
    ChargeOk(c, b.own, high, now, Need(cost), d);
    ChargeOk(c, PathLevelOf(c, b, p, now), high, now, Need(cost), d);
  }

  lemma SweptKeepsOk(c: Config, s: Buckets, cutoff: real, high: real, d: real)
    requires Ok(c, s, high, d)
    ensures Ok(c, Swept(c, s, cutoff), high, d)
  {
  }

  // ---------------------------------------------------------------------------
  // Sweeping

  /** Time enough to refill, for buckets that lagging readings may have drawn below zero. */
  ghost predicate Patient(c: Config, maxAge: real, d: real) {
    (maxAge - 2.0 * d) * c.rate >= c.burst
  }

  /** A level that a patient sweep at `now` removes is full, for every reading it can still meet. */
  lemma IdleIsFull(c: Config, l: Level, high: real, now: real, maxAge: real, d: real, m: real)
    requires Sane(c) && LevelOk(c, l, high, d) && l.last < Cutoff(now, maxAge) && Patient(c, maxAge, d) && now - d <= m
    ensures Refilled(c, l, m) == c.burst
  {
    var full := l.last + maxAge - d;
    AccrueSplit(c, l.last, full, m);
    AccruedNonNegative(c, full, m);
    Distribute(maxAge - 2.0 * d, d, c.rate);
    assert Accrued(c, l.last, full) == (maxAge - 2.0 * d) * c.rate + Accrued(c, 0.0, d);
  }

  /** A path bucket goes if it is old, and keeps its client's bucket alive if it is not. */
  lemma SweptPath(c: Config, b: Bucket, cutoff: real, p: string)
    requires c.perPath && p in b.paths
    ensures var r := SweptBucket(c, b, cutoff);
      if b.paths[p].last < cutoff then r.Some? ==> p !in r.value.paths
      else r.Some? && p in r.value.paths && r.value.paths[p] == b.paths[p]
  {
    var kept := map q | q in b.paths && b.paths[q].last >= cutoff :: b.paths[q];
    if b.paths[p].last >= cutoff {
      assert p in kept;
    }
  }

  /**
   * A sweep at `now` drops exactly what was last touched more than `maxAge` before: path buckets one by one, in
   * per-path mode, and a client's bucket once it is that old and, in per-path mode, has no path bucket left.
   */
  lemma SweepDropsExactly(c: Config, s: Buckets, maxAge: real, now: real, ip: string)
    ensures var s' := Step(c, s, Sweep(maxAge, now)); var cutoff := now - maxAge;
      && (ip in s' <==> ip in s && (|| s[ip].own.last >= cutoff
                                    || (c.perPath && exists p :: p in s[ip].paths && s[ip].paths[p].last >= cutoff)))
      && (ip in s' ==> s'[ip].own == s[ip].own)
      && (ip in s' && !c.perPath ==> s'[ip] == s[ip])
      && (ip in s' && c.perPath ==> forall p ::
            && (p in s'[ip].paths <==> p in s[ip].paths && s[ip].paths[p].last >= cutoff)
            && (p in s'[ip].paths ==> s'[ip].paths[p] == s[ip].paths[p]))
  {
    if ip in s && c.perPath {
      var kept := map p | p in s[ip].paths && s[ip].paths[p].last >= now - maxAge :: s[ip].paths[p];
      if p :| p in s[ip].paths && s[ip].paths[p].last >= now - maxAge {
        assert p in kept;
      }
    }
  }

  /** Sweeping what has had time to refill cannot be observed by readings from `m` on. */
  lemma SweepUnobservable(c: Config, s: Buckets, high: real, now: real, maxAge: real, d: real, m: real)
    requires Sane(c) && Ok(c, s, high, d) && Patient(c, maxAge, d) && now - d <= m
    ensures Same(c, s, Swept(c, s, Cutoff(now, maxAge)), m)
  {
    var cutoff := Cutoff(now, maxAge);
    var s' := Swept(c, s, cutoff);
    forall ip ensures ClientLevel(c, s, ip, m) == ClientLevel(c, s', ip, m) {
      if ip in s && ip !in s' {
        IdleIsFull(c, s[ip].own, high, now, maxAge, d, m);
      }
    }
    if c.perPath {
      forall ip, p ensures PathLevel(c, s, ip, p, m) == PathLevel(c, s', ip, p, m) {
        if ip in s && p in s[ip].paths {
          SweptPath(c, s[ip], cutoff, p);
          if s[ip].paths[p].last < cutoff {
            IdleIsFull(c, s[ip].paths[p], high, now, maxAge, d, m);
          }
        }
      }
    }
  }

  // ---------------------------------------------------------------------------
  // Runs

  /** Calls and sweeps, in the order of the lock; `at` is the clock reading, which they take before it. */
  datatype Event =
    | Call(ip: string, path: string, cost: int, at: real)
    | Sweep(maxAge: real, at: real)

  /** No reading is more than `d` older than one before it. */
  ghost predicate LagsAtMost(run: seq<Event>, d: real) {
    forall s, j :: 0 <= s < j < |run| ==> run[s].at - d <= run[j].at
  }

  /** The same, given the highest reading so far. */
  ghost predicate LagsFrom(run: seq<Event>, high: real, d: real) {
    run == [] || (high - d <= run[0].at && LagsFrom(run[1..], Max(high, run[0].at), d))
  }

  lemma {:induction false} LagsAfter(run: seq<Event>, high: real, d: real)
    requires LagsAtMost(run, d) && forall j :: 0 <= j < |run| ==> high - d <= run[j].at
    ensures LagsFrom(run, high, d)
  {
    if run != [] {
      forall j | 0 <= j < |run[1..]| ensures Max(high, run[0].at) - d <= run[1..][j].at {
        assert run[1..][j] == run[j + 1] && run[0].at - d <= run[j + 1].at;
      }
      LagsTail(run, d);
      LagsAfter(run[1..], Max(high, run[0].at), d);
    }
  }

  lemma LagsTail(run: seq<Event>, d: real)
    requires run != [] && LagsAtMost(run, d)
    ensures LagsAtMost(run[1..], d)
  {
    forall s, j | 0 <= s < j < |run[1..]| ensures run[1..][s].at - d <= run[1..][j].at {
      assert run[1..][s] == run[s + 1] && run[1..][j] == run[j + 1];
    }
  }

  /** Every sweep leaves buckets time to refill. */
  ghost predicate SweepsPatiently(c: Config, run: seq<Event>, d: real) {
    run == [] || ((run[0].Sweep? ==> Patient(c, run[0].maxAge, d)) && SweepsPatiently(c, run[1..], d))
  }

  function Step(c: Config, s: Buckets, e: Event): Buckets {
    match e
    case Call(ip, path, cost, at) => Allow(c, s, ip, path, cost, at).0
    case Sweep(maxAge, at) => Swept(c, s, Cutoff(at, maxAge))
  }

  function Answers(c: Config, s: Buckets, run: seq<Event>): seq<bool>
    decreases |run|
  {
    if run == [] then []
    else
      var rest := Answers(c, Step(c, s, run[0]), run[1..]);
      if run[0].Call?
      then [Allow(c, s, run[0].ip, run[0].path, run[0].cost, run[0].at).1] + rest
      else rest
  }

  function CallsOnly(run: seq<Event>): seq<Event> {
    if run == [] then []
    else if run[0].Call? then [run[0]] + CallsOnly(run[1..])
    else CallsOnly(run[1..])
  }

  /**
   * `s1` has seen readings up to `high` that lag at most `d`, and no reading that can still come tells it from `s2`.
   */
  ghost predicate Alike(c: Config, s1: Buckets, s2: Buckets, high: real, d: real) {
    Ok(c, s1, high, d) && Same(c, s1, s2, high - d)
  }

  /** One call, answered by two such tables. */
  lemma CallKeepsAlike(c: Config, s1: Buckets, s2: Buckets, e: Event, high: real, d: real)
    requires Sane(c) && d >= 0.0 && e.Call? && high - d <= e.at && Alike(c, s1, s2, high, d)
    ensures Allow(c, s1, e.ip, e.path, e.cost, e.at).1 == Allow(c, s2, e.ip, e.path, e.cost, e.at).1
    ensures Alike(c, Step(c, s1, e), Step(c, s2, e), Max(high, e.at), d)
  {
    var high' := Max(high, e.at);
    OkLater(c, s1, high, high', d);
    AllowKeepsOk(c, s1, e.ip, e.path, e.cost, e.at, high', d);
    AllowKeepsSame(c, s1, s2, e.ip, e.path, e.cost, e.at, high - d);
    SameLater(c, Step(c, s1, e), Step(c, s2, e), high - d, high' - d);
  }

  /** One patient sweep of the first of two such tables. */
  lemma SweepKeepsAlike(c: Config, s1: Buckets, s2: Buckets, e: Event, high: real, d: real)
    requires Sane(c) && e.Sweep? && Patient(c, e.maxAge, d) && Alike(c, s1, s2, high, d)
    ensures Alike(c, Step(c, s1, e), s2, Max(high, e.at), d)
  {
    var high' := Max(high, e.at);
    OkLater(c, s1, high, high', d);
    SweptKeepsOk(c, s1, Cutoff(e.at, e.maxAge), high', d);
    SweepUnobservable(c, s1, high', e.at, e.maxAge, d, high' - d);
    SameLater(c, s1, s2, high - d, high' - d);
    SameEuclidean(c, s1, Step(c, s1, e), s2, high' - d);
  }

  lemma SameEuclidean(c: Config, s: Buckets, s1: Buckets, s2: Buckets, now: real)
    requires Same(c, s, s1, now) && Same(c, s, s2, now)
    ensures Same(c, s1, s2, now)
  {
    forall ip ensures ClientLevel(c, s1, ip, now) == ClientLevel(c, s2, ip, now) {
      assert ClientLevel(c, s, ip, now) == ClientLevel(c, s1, ip, now);
    }
    forall ip, p | c.perPath ensures PathLevel(c, s1, ip, p, now) == PathLevel(c, s2, ip, p, now) {
      assert PathLevel(c, s, ip, p, now) == PathLevel(c, s1, ip, p, now);
    }
  }

  lemma {:induction false} SweepsTransparentFrom(c: Config, s1: Buckets, s2: Buckets, run: seq<Event>,
                                                 high: real, d: real)
    requires Sane(c) && d >= 0.0 && LagsFrom(run, high, d) && SweepsPatiently(c, run, d) && Alike(c, s1, s2, high, d)
    ensures Answers(c, s1, run) == Answers(c, s2, CallsOnly(run))
    decreases |run|
  {
    if run != [] {
      var high' := Max(high, run[0].at);
      if run[0].Call? {
        CallKeepsAlike(c, s1, s2, run[0], high, d);
        assert CallsOnly(run)[1..] == CallsOnly(run[1..]);
        SweepsTransparentFrom(c, Step(c, s1, run[0]), Step(c, s2, run[0]), run[1..], high', d);
      } else {
        SweepKeepsAlike(c, s1, s2, run[0], high, d);
        SweepsTransparentFrom(c, Step(c, s1, run[0]), s2, run[1..], high', d);
      }
    }
  }

  /** A limiter swept patiently, anywhere in a run of lagging readings, answers like one that is never swept. */
  lemma SweepsTransparent(c: Config, run: seq<Event>, d: real)
    requires Sane(c) && d >= 0.0 && LagsAtMost(run, d) && SweepsPatiently(c, run, d)
    ensures Answers(c, map[], run) == Answers(c, map[], CallsOnly(run))
  {
    if run != [] {
      forall j | 0 <= j < |run| ensures run[0].at - d <= run[j].at {
      }
      LagsAfter(run, run[0].at, d);
      SweepsTransparentFrom(c, map[], map[], run, run[0].at, d);
    }
  }

  // ---------------------------------------------------------------------------
  // The bound, for readings in any order

  /** The cost one client was let through for by calls with readings from `from` to `to`. */
  function Spent(calls: seq<Event>, answers: seq<bool>, ip: string, from: real, to: real): real {
    if calls == [] || answers == [] then 0.0
    else
      (if answers[0] && Counts(calls[0], ip, from, to) then Need(calls[0].cost) else 0.0) +
      Spent(calls[1..], answers[1..], ip, from, to)
  }

  predicate Counts(e: Event, ip: string, from: real, to: real) {
    e.Call? && e.ip == ip && from <= e.at <= to
  }

  /** What a client can still spend in the interval. */
  function Room(c: Config, s: Buckets, ip: string, from: real, to: real): real {
    Max(0.0, ClientLevel(c, s, ip, from) + Accrued(c, from, to))
  }

  /** Seen from any instant, touching a bucket at another never raises it, and draws on it what is let through. */
  lemma TouchedLevel(c: Config, l: Level, now: real, left: real, from: real)
    requires Sane(c) && left <= Refilled(c, l, now)
    ensures Refilled(c, Level(left, now), from) <= Refilled(c, l, from)
    ensures from <= now ==> Refilled(c, Level(left, now), from) <= Refilled(c, l, from) - (Refilled(c, l, now) - left)
  {
    AccrueSplit(c, l.last, now, from);
    AccrueSplit(c, now, from, now);
    if from <= now {
      AccruedNonNegative(c, from, now);
    } else {
      AccruedNonNegative(c, now, from);
    }
  }

  lemma CallTakesRoom(c: Config, s: Buckets, e: Event, ip: string, from: real, to: real)
    requires Sane(c) && e.Call? && from <= to
    ensures var ok := Allow(c, s, e.ip, e.path, e.cost, e.at).1;
      (if ok && Counts(e, ip, from, to) then Need(e.cost) else 0.0) + Room(c, Step(c, s, e), ip, from, to) <=
      Room(c, s, ip, from, to)
  {
    if e.ip == ip {
      var l := BucketOf(c, s, ip, e.at).own;
      var have := ClientLevel(c, s, ip, e.at);
      FullStaysFull(c, e.at);
      AllowOwn(c, s, ip, e.path, e.cost, e.at);
      AllowAnswer(c, s, ip, e.path, e.cost, e.at);
      TouchedLevel(c, l, e.at, Left(have, Need(e.cost)), from);
      NewcomerLevel(c, s, ip, e.at, from);
      if Counts(e, ip, from, to) {
        ClientLevelLater(c, s, ip, from, e.at);
        AccrueSplit(c, from, e.at, to);
        AccruedNonNegative(c, e.at, to);
      }
    } else {
      AllowElsewhere(c, s, e.ip, e.path, e.cost, e.at, ip, "", from);
    }
  }

  /** The full bucket a newcomer gets shows no more than no bucket at all. */
  lemma NewcomerLevel(c: Config, s: Buckets, ip: string, now: real, from: real)
    ensures Refilled(c, BucketOf(c, s, ip, now).own, from) <= ClientLevel(c, s, ip, from)
  {
  }

  lemma {:induction false} SpentBound(c: Config, s: Buckets, calls: seq<Event>, ip: string, from: real, to: real)
    requires Sane(c) && from <= to && forall i :: 0 <= i < |calls| ==> calls[i].Call?
    ensures Spent(calls, Answers(c, s, calls), ip, from, to) <= Room(c, s, ip, from, to)
    decreases |calls|
  {
    if calls != [] {
      var s' := Step(c, s, calls[0]);
      CallTakesRoom(c, s, calls[0], ip, from, to);
      assert Answers(c, s, calls)[1..] == Answers(c, s', calls[1..]);
      SpentBound(c, s', calls[1..], ip, from, to);
    }
  }

  lemma {:induction false} CallsOnlyCalls(run: seq<Event>)
    ensures forall i :: 0 <= i < |CallsOnly(run)| ==> CallsOnly(run)[i].Call?
  {
    if run != [] {
      CallsOnlyCalls(run[1..]);
    }
  }

  /**
   * Without sweeps, for readings in any order and whatever paths are used, one client is let through for at most
   * `burst + rate * (to - from)` by calls with readings from `from` to `to`.
   */
  lemma IntervalBound(c: Config, calls: seq<Event>, ip: string, from: real, to: real)
    requires Sane(c) && from <= to && forall i :: 0 <= i < |calls| ==> calls[i].Call?
    ensures Spent(calls, Answers(c, map[], calls), ip, from, to) <= c.burst + Accrued(c, from, to)
  {
    SpentBound(c, map[], calls, ip, from, to);
    AccruedNonNegative(c, from, to);
  }

  /** With patient sweeps anywhere between readings that lag at most `d`, the bound still holds. */
  lemma SweptIntervalBound(c: Config, run: seq<Event>, ip: string, from: real, to: real, d: real)
    requires Sane(c) && from <= to && d >= 0.0 && LagsAtMost(run, d) && SweepsPatiently(c, run, d)
    ensures Spent(CallsOnly(run), Answers(c, map[], run), ip, from, to) <= c.burst + Accrued(c, from, to)
  {
    SweepsTransparent(c, run, d);
    CallsOnlyCalls(run);
    IntervalBound(c, CallsOnly(run), ip, from, to);
  }

  // ---------------------------------------------------------------------------
  // Exactly when sweeping is transparent

  /** Spend everything, be refused by a reading `d` older, be swept, ask for everything again with one as old. */
  function ProbeRun(n: int, maxAge: real, d: real, at: real): seq<Event> {
    [Call("a", "/", n, d), Call("a", "/", n, 0.0), Sweep(maxAge, at), Call("a", "/", n, at - d)]
  }

  /** What the first two calls leave: an empty bucket, drawn `d` seconds below zero. */
  lemma ProbeDrains(c: Config, n: int, d: real) returns (s: Buckets)
    requires Sane(c) && n >= 1 && c.burst == n as real && d >= 0.0
    ensures "a" in s && s["a"].own == Level(-Accrued(c, 0.0, d), 0.0)
    ensures forall p :: p in s["a"].paths ==> s["a"].paths[p].last == 0.0
    ensures s.Keys == {"a"}
    ensures Allow(c, map[], "a", "/", n, d).1
    ensures !Allow(c, Allow(c, map[], "a", "/", n, d).0, "a", "/", n, 0.0).1
    ensures s == Allow(c, Allow(c, map[], "a", "/", n, d).0, "a", "/", n, 0.0).0
  {
    var s1 := Allow(c, map[], "a", "/", n, d).0;
    assert s1["a"].own == Level(0.0, d);
    s := Allow(c, s1, "a", "/", n, 0.0).0;
    AccrueSplit(c, d, 0.0, d);
    AccruedNonNegative(c, 0.0, d);
  }

  lemma ProbeSwept(c: Config, s: Buckets, cutoff: real)
    requires s.Keys == {"a"} && s["a"].own.last < cutoff
    requires forall p :: p in s["a"].paths ==> s["a"].paths[p].last < cutoff
    ensures Swept(c, s, cutoff) == map[]
  {
    assert SweptBucket(c, s["a"], cutoff) == None;
  }

  /** Sweeping sooner than that shows: the last call is refused without it and granted with it. */
  lemma ImpatientSweepShows(c: Config, n: int, maxAge: real, d: real, at: real)
    requires Sane(c) && n >= 1 && c.burst == n as real && d >= 0.0
    requires at > maxAge && at >= d && (at - 2.0 * d) * c.rate < c.burst
    ensures Answers(c, map[], ProbeRun(n, maxAge, d, at)) == [true, false, true]
    ensures Answers(c, map[], CallsOnly(ProbeRun(n, maxAge, d, at))) == [true, false, false]
  {
    var run := ProbeRun(n, maxAge, d, at);
    var last := run[3];
    var s := ProbeDrains(c, n, d);
    ProbeSwept(c, s, Cutoff(at, maxAge));
    assert Answers(c, map[], [last]) == [true];
    assert Answers(c, s, [last]) == [false] by {
      ProbeRefused(c, s, n, d, at);
    }
    ProbeAnswers(c, n, maxAge, d, at, s);
  }

  lemma ProbeRefused(c: Config, s: Buckets, n: int, d: real, at: real)
    requires Sane(c) && n >= 1 && c.burst == n as real && (at - 2.0 * d) * c.rate < c.burst
    requires "a" in s && s["a"].own == Level(-Accrued(c, 0.0, d), 0.0)
    ensures Answers(c, s, [Call("a", "/", n, at - d)]) == [false]
  {
    var e := Call("a", "/", n, at - d);
    AllowAnswer(c, s, "a", "/", n, at - d);
    AccrueSplit(c, 0.0, at - 2.0 * d, at - d);
    assert Accrued(c, at - 2.0 * d, at - d) == Accrued(c, 0.0, d);
    assert Accrued(c, 0.0, at - 2.0 * d) == (at - 2.0 * d) * c.rate;
    assert [e][1..] == [];
  }

  /** The answers of the probe, call by call. */
  lemma ProbeAnswers(c: Config, n: int, maxAge: real, d: real, at: real, s: Buckets)
    requires n >= 1 && Allow(c, map[], "a", "/", n, d).1
    requires var s1 := Allow(c, map[], "a", "/", n, d).0;
      !Allow(c, s1, "a", "/", n, 0.0).1 && s == Allow(c, s1, "a", "/", n, 0.0).0
    ensures var last := [Call("a", "/", n, at - d)];
      && Answers(c, map[], ProbeRun(n, maxAge, d, at)) ==
         [true, false] + Answers(c, Swept(c, s, Cutoff(at, maxAge)), last)
      && Answers(c, map[], CallsOnly(ProbeRun(n, maxAge, d, at))) == [true, false] + Answers(c, s, last)
  {
    var run := ProbeRun(n, maxAge, d, at);
    var s1 := Allow(c, map[], "a", "/", n, d).0;
    var r1, r2, r3 := [run[1], run[2], run[3]], [run[2], run[3]], [run[3]];
    assert run[1..] == r1 && r1[1..] == r2 && r2[1..] == r3 && r3[1..] == [];
    assert CallsOnly(r3) == r3 && CallsOnly(r2) == r3 && CallsOnly(r1) == [run[1], run[3]];
    var calls, c1 := [run[0], run[1], run[3]], [run[1], run[3]];
    assert CallsOnly(run) == calls && calls[1..] == c1 && c1[1..] == r3;
    assert Answers(c, s, r2) == Answers(c, Swept(c, s, Cutoff(at, maxAge)), r3);
    assert Answers(c, s1, r1) == [false] + Answers(c, s, r2);
    assert Answers(c, s1, c1) == [false] + Answers(c, s, r3);
  }

  /** The instant of such a probe: after `maxAge`, before the bucket is full again. */
  lemma ProbeInstant(c: Config, maxAge: real, d: real) returns (at: real)
    requires Sane(c) && c.burst > 0.0 && d >= 0.0 && (maxAge - 2.0 * d) * c.rate < c.burst
    ensures at > maxAge && at >= d && (at - 2.0 * d) * c.rate < c.burst
  {
    var base := Max(maxAge, d);
    var now := base - 2.0 * d;
    assert now * c.rate < c.burst by {
      if base == d {
        assert now == -d;
        AccruedNonNegative(c, 0.0, d);
        assert (-d) * c.rate == -Accrued(c, 0.0, d);
      }
    }
    if c.rate == 0.0 {
      at := base + 1.0;
    } else {
      var room := c.burst - now * c.rate;
      var step := room / c.rate / 2.0;
      assert step * c.rate == room / 2.0;
      at := base + step;
      Distribute(now, step, c.rate);
      assert at - 2.0 * d == now + step;
    }
  }

  ghost predicate SweepsEvery(run: seq<Event>, maxAge: real) {
    forall i :: 0 <= i < |run| && run[i].Sweep? ==> run[i].maxAge == maxAge
  }

  lemma {:induction false} EveryIsPatient(c: Config, run: seq<Event>, maxAge: real, d: real)
    requires SweepsEvery(run, maxAge) && Patient(c, maxAge, d)
    ensures SweepsPatiently(c, run, d)
  {
    if run != [] {
      forall i | 0 <= i < |run[1..]| && run[1..][i].Sweep? ensures run[1..][i].maxAge == maxAge {
        assert run[1..][i] == run[i + 1];
      }
      EveryIsPatient(c, run[1..], maxAge, d);
    }
  }

  ghost predicate Transparent(c: Config, run: seq<Event>) {
    Answers(c, map[], run) == Answers(c, map[], CallsOnly(run))
  }

  /**
   * Among readings that lag at most `d`, sweeping at a given age is transparent in every run exactly when buckets
   * have time to refill from `d` seconds below zero as a reading `d` old sees it. For readings in order, where `d`
   * is zero, that is when the age times the rate reaches the burst.
   */
  lemma TransparencyCondition(c: Config, n: int, maxAge: real, d: real)
    requires Sane(c) && n >= 1 && c.burst == n as real && d >= 0.0
    ensures (forall run :: LagsAtMost(run, d) && SweepsEvery(run, maxAge) ==> Transparent(c, run))
            <==> (maxAge - 2.0 * d) * c.rate >= c.burst
  {
    if Patient(c, maxAge, d) {
      forall run | LagsAtMost(run, d) && SweepsEvery(run, maxAge) ensures Transparent(c, run) {
        EveryIsPatient(c, run, maxAge, d);
        SweepsTransparent(c, run, d);
      }
    } else {
      var at := ProbeInstant(c, maxAge, d);
      var run := ProbeRun(n, maxAge, d, at);
      ImpatientSweepShows(c, n, maxAge, d, at);
      assert LagsAtMost(run, d) && SweepsEvery(run, maxAge);
      assert Answers(c, map[], run)[2] != Answers(c, map[], CallsOnly(run))[2];
    }
  }
}
