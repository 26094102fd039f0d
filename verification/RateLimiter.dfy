/** The limiter as the program keeps it: shared objects, in-place updates, and two object pools. */
module RateLimiter {
  import opened Basics
  import opened TokenBuckets

  class Entry {
    var tokens: real
    var last: real
    ghost var owner: ClientBucket?   // the bucket it serves, if any
    ghost var path: string           // the path it serves there

    constructor ()
      ensures owner == null
    {
      tokens, last, owner, path := 0.0, 0.0, null, "";
    }
  }

  /** A Go map that may be nil. */
  datatype PathMap = Nil | Paths(entries: map<string, Entry>) {
    function Table(): map<string, Entry> {
      if Nil? then map[] else entries
    }
  }

  /** `refillAllow`, with its two by-reference parameters as in-out values. */
  method RefillAllow(tokens: real, last: real, now: real, c: Config, need: real)
    returns (tokens': real, last': real, ok: bool)
    ensures (Level(tokens', last'), ok) == Charge(c, Level(tokens, last), now, need)
  {
    var elapsed := now - last;
    last' := now;
    assert elapsed * c.rate == Accrued(c, last, now);
    tokens' := tokens + elapsed * c.rate;
    if tokens' > c.burst {
      tokens' := c.burst;
    }
    if tokens' < need { return tokens', last', false; }
    tokens' := tokens' - need;
    ok := true;
  }

  class ClientBucket {
    var tokens: real
    var last: real
    var paths: PathMap
    ghost var home: Option<string>   // the client it serves, if any
    ghost var value: Bucket          // what it stands for
    ghost var owned: set<Entry>

    /** The bucket stands for `value`, and every entry it owns serves exactly one of its paths. */
    ghost predicate Valid()
      reads this, owned
    {
      && Level(tokens, last) == value.own
      && paths.Table().Keys == value.paths.Keys
      && (forall e :: e in owned ==> e.owner == this)
      && (forall p :: p in value.paths ==> paths.Table()[p] in owned && Serves(paths.Table()[p], p, value.paths[p]))
    }

    ghost predicate Serves(e: Entry, p: string, l: Level)
      reads e
    {
      e.path == p && Level(e.tokens, e.last) == l
    }

    constructor ()
      ensures home == None && owned == {}
    {
      tokens, last, paths := 0.0, 0.0, Nil;
      home, value, owned := None, Bucket(Level(0.0, 0.0), map[]), {};
    }

    /** A bucket taken from the pool, whatever it held before, starts full and without paths. */
    method Reset(c: Config, now: real)
      modifies this
      ensures Valid() && home == old(home) && owned == {} && value == Bucket(Full(c, now), map[])
    {
      tokens := c.burst;
      last := now;
      if paths != Nil {
        paths := Paths(map[]);
      }
      value, owned := Bucket(Full(c, now), map[]), {};
    }

    /** Wiped for the pool. */
    method Wipe()
      modifies `tokens, `last, `paths, `home
      ensures home == None
    {
      tokens := 0.0;
      last := 0.0;
      paths := Nil;
      home := None;
    }

    method ChargeOwn(c: Config, now: real, need: real) returns (ok: bool)
      requires Valid()
      modifies `tokens, `last, `value
      ensures Valid()
      ensures value == old(value).(own := Charge(c, old(value).own, now, need).0)
      ensures ok == Charge(c, old(value).own, now, need).1
    {
      tokens, last, ok := RefillAllow(tokens, last, now, c, need);
      value := value.(own := Level(tokens, last));
    }

    method SetPath(p: string, e: Entry, tokens: real, last: real)
      requires Valid() && p in paths.Table() && e == paths.Table()[p]
      modifies `value, e`tokens, e`last
      ensures Valid() && value == old(value).(paths := old(value).paths[p := Level(tokens, last)])
    {
      e.tokens, e.last := tokens, last;
      value := value.(paths := value.paths[p := Level(tokens, last)]);
    }

    method ChargePath(p: string, c: Config, now: real, need: real) returns (ok: bool)
      requires Valid() && p in paths.Table()
      modifies `value, owned
      ensures Valid() && p in old(value).paths
      ensures forall e :: e in owned ==> e.owner == this
      ensures value == old(value).(paths := old(value).paths[p := Charge(c, old(value).paths[p], now, need).0])
      ensures ok == Charge(c, old(value).paths[p], now, need).1
    {
      var e := paths.Table()[p];
      assert Serves(e, p, value.paths[p]);
      var tokens, last;
      tokens, last, ok := RefillAllow(e.tokens, e.last, now, c, need);
      SetPath(p, e, tokens, last);
    }

    /** A fresh or recycled entry is filled and installed under a new path. */
    method AddPath(p: string, e: Entry, c: Config, now: real)
      requires Valid() && p !in paths.Table() && e.owner == null
      modifies `paths, `value, `owned, e
      ensures Valid() && owned == old(owned) + {e} && e.owner == this
      ensures p in paths.Table() && value == old(value).(paths := old(value).paths[p := Full(c, now)])
    {
      e.tokens := c.burst;
      e.last := now;
      e.owner, e.path := this, p;
      paths := Paths(paths.Table()[p := e]);
      owned := owned + {e};
      value := value.(paths := value.paths[p := Full(c, now)]);
    }

    /** An entry is taken out and wiped. */
    method RemovePath(p: string) returns (e: Entry)
      requires Valid() && paths.Paths? && p in paths.entries
      modifies `paths, `value, `owned, owned
      ensures Valid() && paths.Paths?
      ensures e in old(owned) && owned == old(owned) - {e} && e.owner == null
      ensures value == old(value).(paths := old(value).paths - {p})
    {
      e := paths.entries[p];
      paths := Paths(paths.entries - {p});
      e.tokens := 0.0;
      e.last := 0.0;
      e.owner := null;
      owned := owned - {e};
      value := value.(paths := value.paths - {p});
    }
  }

  lemma Overwrite<K, V>(m: map<K, V>, k: K, v: V, w: V)
    ensures m[k := v][k := w] == m[k := w]
  {
    assert m[k := v][k := w].Keys == m[k := w].Keys;
  }

  /** What `AllowN` makes of one client's bucket. */
  function Charged(c: Config, b: Bucket, path: string, cost: int, now: real): (Bucket, bool) {
    var (own, clientOk) := Charge(c, b.own, now, Need(cost));
    if !c.perPath then (b.(own := own), clientOk)
    else
      var p := PathKey(path);
      var (level, pathOk) := Charge(c, PathLevelOf(c, b, p, now), now, Need(cost));
      (b.(own := own, paths := b.paths[p := level]), clientOk && pathOk)
  }

  lemma AllowIsCharged(c: Config, s: Buckets, ip: string, path: string, cost: int, now: real)
    ensures var s' := s[ip := BucketOf(c, s, ip, now)];
      Allow(c, s, ip, path, cost, now) ==
      (s'[ip := Charged(c, s'[ip], path, cost, now).0], Charged(c, s'[ip], path, cost, now).1)
  {
    var b := BucketOf(c, s, ip, now);
    Overwrite(s, ip, b, Charged(c, b, path, cost, now).0);
  }

  class Limiter {
    const cfg: Config
    var ents: map<string, ClientBucket>
    var bucketPool: set<ClientBucket>
    var entryPool: set<Entry>
    ghost var buckets: set<ClientBucket>   // every bucket ever handed out or pooled
    ghost var entries: set<Entry>          // every entry ever handed out or pooled

    /** The table the objects stand for. */
    ghost function Model(): Buckets
      reads this, ents.Values
    {
      map ip | ip in ents :: ents[ip].value
    }

    ghost predicate EntryPoolOk()
      reads this, entries
    {
      entryPool <= entries && forall e :: e in entryPool ==> e.owner == null
    }

    ghost predicate BucketPoolOk()
      reads this, buckets
    {
      bucketPool <= buckets && forall b :: b in bucketPool ==> b.home == None
    }

    /** Each client has the one bucket that serves it. */
    ghost predicate Clients()
      reads this, buckets
    {
      forall ip :: ip in ents ==> ents[ip] in buckets && ents[ip].home == Some(ip)
    }

    /** Every serving bucket is well formed. */
    ghost predicate Serving()
      reads this, buckets, entries
    {
      forall b :: b in buckets && b.home.Some? ==> b.owned <= entries && b.Valid()
    }

    ghost predicate Valid()
      reads this, buckets, entries
    {
      EntryPoolOk() && BucketPoolOk() && Clients() && Serving()
    }

    constructor (c: Config)
      ensures Valid() && cfg == c && Model() == map[] && fresh(buckets) && fresh(entries)
    {
      cfg := c;
      ents, bucketPool, entryPool := map[], {}, {};
      buckets, entries := {}, {};
    }

    /** No object serves two clients or two paths, and no live object is also in a pool. */
    lemma NothingShared(ip1: string, ip2: string, p1: string, p2: string)
      requires Valid() && ip1 in ents && ip2 in ents
      ensures ents[ip1] !in bucketPool
      ensures ents[ip1] == ents[ip2] ==> ip1 == ip2
      ensures p1 in ents[ip1].paths.Table() ==> ents[ip1].paths.Table()[p1] !in entryPool
      ensures (&& p1 in ents[ip1].paths.Table() && p2 in ents[ip2].paths.Table()
               && ents[ip1].paths.Table()[p1] == ents[ip2].paths.Table()[p2]) ==> ip1 == ip2 && p1 == p2
    {
    }

    /** `entryPool.Get`: any pooled object, or a new one. */
    method GetEntry() returns (e: Entry)
      requires EntryPoolOk()
      modifies `entryPool, `entries
      ensures EntryPoolOk() && e !in entryPool && e.owner == null
      ensures e in old(entries) || fresh(e)
      ensures entries == old(entries) + {e}
    {
      if
      case true =>
        e := new Entry();
        entries := entries + {e};
      case entryPool != {} =>
        e :| e in entryPool;
        entryPool := entryPool - {e};
    }

    method GetBucket() returns (b: ClientBucket)
      requires BucketPoolOk()
      modifies `bucketPool, `buckets
      ensures BucketPoolOk() && b !in bucketPool && b.home == None
      ensures b in old(buckets) || fresh(b)
      ensures buckets == old(buckets) + {b}
    {
      if
      case true =>
        b := new ClientBucket();
        buckets := buckets + {b};
      case bucketPool != {} =>
        b :| b in bucketPool;
        bucketPool := bucketPool - {b};
    }

    /** Buckets other than `b` are untouched when only `b` and entries that serve `b` or nobody have changed. */
    twostate lemma OthersKept(b: ClientBucket)
      requires old(Serving()) && buckets == old(buckets) && old(entries) <= entries
      requires forall x :: x in buckets && x != b ==> unchanged(x)
      requires forall e :: e in old(entries) && old(e.owner) != null && old(e.owner) != b ==> unchanged(e)
      ensures forall x :: x in buckets && x.home.Some? && x != b ==> x.owned <= entries && x.Valid()
    {
      forall x | x in buckets && x.home.Some? && x != b ensures x.owned <= entries && x.Valid() {
        assert old(x.Valid());
        assert forall e :: e in x.owned ==> unchanged(e);
      }
    }

    /** The per-path part of `AllowN`: the path's entry, made on first use, pays too. */
    method ChargePathOf(b: ClientBucket, p: string, now: real, need: real) returns (ok: bool)
      requires EntryPoolOk() && b.Valid() && b.owned <= entries
      modifies `entryPool, `entries, b`paths, b`value, b`owned, entries
      ensures EntryPoolOk() && b.Valid() && b.owned <= entries
      ensures old(entries) <= entries && fresh(entries - old(entries))
      ensures var r := Charge(cfg, PathLevelOf(cfg, old(b.value), p, now), now, need);
        b.value == old(b.value).(paths := old(b.value).paths[p := r.0]) && ok == r.1
      ensures forall e :: e in old(entries) && old(e.owner) != null && old(e.owner) != b ==> unchanged(e)
    {
      if p !in b.paths.Table() {
        var e := GetEntry();
        b.AddPath(p, e, cfg, now);
      }
      assert b.value.paths[p] == PathLevelOf(cfg, old(b.value), p, now);
      Overwrite(old(b.value).paths, p, b.value.paths[p], Charge(cfg, b.value.paths[p], now, need).0);
      ok := b.ChargePath(p, cfg, now, need);
    }

    /** Everything `AllowN` does to one client's bucket. */
    method ChargeBucket(b: ClientBucket, path: string, cost: int, now: real) returns (ok: bool)
      requires EntryPoolOk() && b.Valid() && b.owned <= entries
      modifies `entryPool, `entries, b`tokens, b`last, b`paths, b`value, b`owned, entries
      ensures EntryPoolOk() && b.Valid() && b.owned <= entries
      ensures old(entries) <= entries && fresh(entries - old(entries))
      ensures (b.value, ok) == Charged(cfg, old(b.value), path, cost, now)
      ensures forall e :: e in old(entries) && old(e.owner) != null && old(e.owner) != b ==> unchanged(e)
    {
      ok := b.ChargeOwn(cfg, now, Need(cost));
      if cfg.perPath {
        var pathOk := ChargePathOf(b, PathKey(path), now, Need(cost));
        ok := ok && pathOk;
      }
    }

    /** A bucket that serves nobody, pooled or new, is reset and put to work for `ip`. */
    method Install(ip: string, b: ClientBucket, now: real)
      requires Valid() && ip !in ents && b in buckets && b !in bucketPool && b.home == None
      modifies `ents, b
      ensures Valid() && ents == old(ents)[ip := b] && Model() == old(Model())[ip := Bucket(Full(cfg, now), map[])]
    {
      ents := ents[ip := b];
      b.home := Some(ip);
      b.Reset(cfg, now);
      OthersKept(b);
    }

    /** The client's bucket, made on first use. */
    method BucketFor(ip: string, now: real) returns (b: ClientBucket)
      requires Valid()
      modifies `ents, `bucketPool, `buckets, buckets
      ensures Valid() && fresh(buckets - old(buckets))
      ensures ip in ents && b == ents[ip]
      ensures Model() == old(Model())[ip := BucketOf(cfg, old(Model()), ip, now)]
    {
      if ip in ents {
        b := ents[ip];
      } else {
        b := GetBucket();
        assert Model() == old(Model());
        Install(ip, b, now);
      }
    }

    /** `AllowN` refines `Allow`. */
    method AllowN(ip: string, path: string, cost: int, now: real) returns (ok: bool)
      requires Valid()
      modifies this, buckets, entries
      ensures Valid() && fresh(buckets - old(buckets)) && fresh(entries - old(entries))
      ensures Model() == Allow(cfg, old(Model()), ip, path, cost, now).0
      ensures ok == Allow(cfg, old(Model()), ip, path, cost, now).1
    {
      var b := BucketFor(ip, now);
      ok := ChargeClient(ip, b, path, cost, now);
      assert Valid();
      AllowIsCharged(cfg, old(Model()), ip, path, cost, now);
    }

    method ChargeClient(ip: string, b: ClientBucket, path: string, cost: int, now: real) returns (ok: bool)
      requires Valid() && ip in ents && b == ents[ip]
      modifies `entryPool, `entries, b`tokens, b`last, b`paths, b`value, b`owned, entries
      ensures Valid() && fresh(entries - old(entries))
      ensures ok == Charged(cfg, old(Model())[ip], path, cost, now).1
      ensures Model() == old(Model())[ip := Charged(cfg, old(Model())[ip], path, cost, now).0]
    {
      ok := ChargeBucket(b, path, cost, now);
      assert Model() == old(Model())[ip := b.value];
      OthersKept(b);
    }

    /** One old path entry goes back to the pool. */
    method PoolPath(b: ClientBucket, p: string)
      requires EntryPoolOk() && b.Valid() && b.owned <= entries && b.paths.Paths? && p in b.paths.entries
      modifies `entryPool, b`paths, b`value, b`owned, b.owned
      ensures EntryPoolOk() && b.Valid() && b.owned <= old(b.owned) && b.paths.Paths?
      ensures b.value == old(b.value).(paths := old(b.value).paths - {p})
    {
      var e := b.RemovePath(p);
      entryPool := entryPool + {e};
    }

    /** The path loop of `Sweep`: drop every path bucket last touched before `cutoff`. */
    method SweepPaths(b: ClientBucket, cutoff: real)
      requires EntryPoolOk() && b.Valid() && b.owned <= entries && b.paths.Paths?
      modifies `entryPool, b`paths, b`value, b`owned, b.owned
      ensures EntryPoolOk() && b.Valid() && b.owned <= old(b.owned) && b.paths.Paths?
      ensures b.value == old(b.value).(paths := KeptPaths(old(b.value).paths, {}, cutoff))
    {
      var todo := b.paths.entries.Keys;
      KeptAll(b.value.paths, cutoff);
      while todo != {}
        invariant EntryPoolOk() && b.Valid() && b.owned <= old(b.owned) && b.paths.Paths?
        invariant todo <= b.paths.entries.Keys
        invariant b.value == old(b.value).(paths := KeptPaths(old(b.value).paths, todo, cutoff))
        decreases |todo|
      {
        var p :| p in todo;
        KeptStep(old(b.value).paths, todo, p, cutoff);
        assert b.Serves(b.paths.entries[p], p, b.value.paths[p]);
        if b.paths.entries[p].last < cutoff {
          PoolPath(b, p);
        }
        todo := todo - {p};
      }
    }

    /** The other path loop of `Sweep`: drop them all. */
    method ClearPaths(b: ClientBucket)
      requires EntryPoolOk() && b.Valid() && b.owned <= entries && b.paths.Paths?
      modifies `entryPool, b`paths, b`value, b`owned, b.owned
      ensures EntryPoolOk() && b.Valid() && b.owned <= old(b.owned)
    {
      while b.paths.entries != map[]
        invariant EntryPoolOk() && b.Valid() && b.owned <= old(b.owned) && b.paths.Paths?
        decreases |b.paths.entries|
      {
        var p :| p in b.paths.entries;
        ghost var before := b.paths.entries;
        PoolPath(b, p);
        assert b.paths.entries.Keys == before.Keys - {p};
        assert |b.paths.entries.Keys| < |before.Keys|;
      }
    }

    /** A bucket no client uses any more goes back to the pool, wiped. */
    method Retire(b: ClientBucket)
      requires Valid() && b in buckets && forall ip :: ip in ents ==> ents[ip] != b
      modifies `bucketPool, b
      ensures Valid() && Model() == old(Model())
    {
      b.Wipe();
      bucketPool := bucketPool + {b};
      OthersKept(b);
    }

    method PoolBucket(ip: string, b: ClientBucket)
      requires Valid() && ip in ents && b == ents[ip]
      modifies `ents, `bucketPool, b
      ensures Valid() && Model() == old(Model()) - {ip}
    {
      ents := ents - {ip};
      assert Model() == old(Model()) - {ip};
      Retire(b);
    }

    /** Path sweeping seen from the table. */
    method SweepClientPaths(ip: string, b: ClientBucket, cutoff: real)
      requires Valid() && ip in ents && b == ents[ip] && b.paths.Paths?
      modifies `entryPool, b`paths, b`value, b`owned, b.owned
      ensures Valid() && b.paths.Paths? && b.Valid()
      ensures Model() == old(Model())[ip := old(b.value).(paths := KeptPaths(old(b.value).paths, {}, cutoff))]
    {
      SweepPaths(b, cutoff);
      OthersKept(b);
    }

    method ClearClientPaths(ip: string, b: ClientBucket)
      requires Valid() && ip in ents && b == ents[ip] && b.paths.Paths?
      modifies `entryPool, b`paths, b`value, b`owned, b.owned
      ensures Valid() && Model() - {ip} == old(Model()) - {ip}
    {
      ClearPaths(b);
      OthersKept(b);
    }

    /** Sweeping one client in per-path mode. */
    method SweepClientPerPath(ip: string, b: ClientBucket, cutoff: real)
      requires Valid() && ip in ents && b == ents[ip] && cfg.perPath && b.paths.Paths?
      modifies `ents, `bucketPool, `entryPool, b, b.owned
      ensures Valid()
      ensures Model() == WithSwept(old(Model()), ip, SweptBucket(cfg, old(Model())[ip], cutoff))
    {
      ghost var kept := KeptPaths(b.value.paths, {}, cutoff);
      SweptPerPath(cfg, b.value, cutoff);
      Overwritten(Model(), ip, b.value.(paths := kept));
      SweepClientPaths(ip, b, cutoff);
      assert b.value == Model()[ip];
      assert |b.paths.entries| == 0 <==> kept == map[] by { EmptyKeys(b.paths.entries, kept); }
      if |b.paths.entries| == 0 && b.last < cutoff {
        PoolBucket(ip, b);
      }
    }

    /** Sweeping one client that has no path table, or whose paths are not in use. */
    method SweepClientPlain(ip: string, b: ClientBucket, cutoff: real)
      requires Valid() && ip in ents && b == ents[ip] && !(cfg.perPath && b.paths.Paths?)
      modifies `ents, `bucketPool, `entryPool, b, b.owned
      ensures Valid()
      ensures Model() == WithSwept(old(Model()), ip, SweptBucket(cfg, old(Model())[ip], cutoff))
    {
      SweptPlain(cfg, b.value, cutoff);
      Overwritten(Model(), ip, b.value);
      if b.last < cutoff {
        if b.paths.Paths? {
          ClearClientPaths(ip, b);
        }
        PoolBucket(ip, b);
      }
    }

    /** The body of the client loop of `Sweep`. */
    method SweepClient(ip: string, cutoff: real)
      requires Valid() && ip in ents
      modifies `ents, `bucketPool, `entryPool, buckets, entries
      ensures Valid()
      ensures Model() == WithSwept(old(Model()), ip, SweptBucket(cfg, old(Model())[ip], cutoff))
    {
      var b := ents[ip];
      if cfg.perPath && b.paths.Paths? {
        SweepClientPerPath(ip, b, cutoff);
      } else {
        SweepClientPlain(ip, b, cutoff);
      }
    }

    /** The client loop of `Sweep`. */
    method SweepClients(cutoff: real, ghost before: Buckets)
      requires Valid() && Model() == before
      modifies `ents, `bucketPool, `entryPool, buckets, entries
      ensures Valid() && Model() == Swept(cfg, before, cutoff)
    {
      var todo := ents.Keys;
      SweptNone(cfg, before, cutoff);
      while todo != {}
        invariant Valid() && todo <= Model().Keys
        invariant Model() == SweptExcept(cfg, before, todo, cutoff)
        decreases |todo|
      {
        var ip :| ip in todo;
        SweptStep(cfg, before, todo, ip, cutoff);
        SweepClient(ip, cutoff);
        todo := todo - {ip};
      }
      assert todo == {};
    }

    /** `Sweep` refines `Swept`. */
    method Sweep(maxAge: real, now: real)
      requires Valid()
      modifies `ents, `bucketPool, `entryPool, buckets, entries
      ensures Valid() && Model() == Swept(cfg, old(Model()), Cutoff(now, maxAge))
    {
      SweepClients(Cutoff(now, maxAge), Model());
    }
  }

  lemma EmptyKeys<K, V, W>(m1: map<K, V>, m2: map<K, W>)
    requires m1.Keys == m2.Keys
    ensures |m1| == 0 <==> m2 == map[]
  {
    assert |m1| == |m1.Keys|;
  }

  lemma SweptPerPath(c: Config, b: Bucket, cutoff: real)
    requires c.perPath
    ensures var kept := KeptPaths(b.paths, {}, cutoff);
      SweptBucket(c, b, cutoff) ==
      if kept == map[] && b.own.last < cutoff then None else Some(b.(paths := kept))
  {
    assert KeptPaths(b.paths, {}, cutoff) == map p | p in b.paths && b.paths[p].last >= cutoff :: b.paths[p];
  }

  lemma SweptPlain(c: Config, b: Bucket, cutoff: real)
    requires c.perPath ==> b.paths == map[]
    ensures SweptBucket(c, b, cutoff) == if b.own.last < cutoff then None else Some(b)
  {
  }

  lemma Overwritten(s: Buckets, ip: string, v: Bucket)
    requires ip in s
    ensures s[ip := v] - {ip} == s - {ip} && s[ip := s[ip]] == s
  {
  }

  /** The path table with the paths in `todo` still to be visited. */
  function KeptPaths(paths: map<string, Level>, todo: set<string>, cutoff: real): map<string, Level> {
    map p | p in paths && (p in todo || paths[p].last >= cutoff) :: paths[p]
  }

  lemma KeptAll(paths: map<string, Level>, cutoff: real)
    ensures KeptPaths(paths, paths.Keys, cutoff) == paths
  {
  }

  lemma KeptStep(paths: map<string, Level>, todo: set<string>, p: string, cutoff: real)
    requires p in todo && p in paths
    ensures KeptPaths(paths, todo - {p}, cutoff) ==
      if paths[p].last < cutoff then KeptPaths(paths, todo, cutoff) - {p} else KeptPaths(paths, todo, cutoff)
  {
  }

  function WithSwept(s: Buckets, ip: string, r: Option<Bucket>): Buckets {
    if r.Some? then s[ip := r.value] else s - {ip}
  }

  lemma SweptNone(c: Config, s: Buckets, cutoff: real)
    ensures SweptExcept(c, s, s.Keys, cutoff) == s
  {
  }

  lemma SweptStep(c: Config, s: Buckets, todo: set<string>, ip: string, cutoff: real)
    requires ip in todo && ip in SweptExcept(c, s, todo, cutoff)
    ensures ip in s && SweptExcept(c, s, todo, cutoff)[ip] == s[ip]
    ensures SweptExcept(c, s, todo - {ip}, cutoff) ==
      WithSwept(SweptExcept(c, s, todo, cutoff), ip, SweptBucket(c, s[ip], cutoff))
  {
  }

  // ---------------------------------------------------------------------------
  // Runs of the program

  /** One event on a limiter; a sweep answers nothing. */
  method TakeEvent(l: Limiter, e: Event) returns (answer: seq<bool>)
    requires l.Valid()
    modifies l, l.buckets, l.entries
    ensures l.Valid() && fresh(l.buckets - old(l.buckets)) && fresh(l.entries - old(l.entries))
    ensures l.Model() == Step(l.cfg, old(l.Model()), e)
    ensures answer == if e.Call? then [Allow(l.cfg, old(l.Model()), e.ip, e.path, e.cost, e.at).1] else []
  {
    match e
    case Call(ip, path, cost, at) =>
      var ok := l.AllowN(ip, path, cost, at);
      answer := [ok];
    case Sweep(maxAge, at) =>
      l.Sweep(maxAge, at);
      answer := [];
  }

  /** What has been answered and what is still to be answered make up the answers of the run. */
  ghost predicate Answering(l: Limiter, run: seq<Event>, i: nat, answers: seq<bool>)
    reads l, l.ents.Values
    requires i <= |run|
  {
    answers + Answers(l.cfg, l.Model(), run[i..]) == Answers(l.cfg, map[], run)
  }

  /** The next event of a run. */
  method AnswerNext(l: Limiter, run: seq<Event>, i: nat, answers: seq<bool>) returns (answers': seq<bool>)
    requires l.Valid() && i < |run| && Answering(l, run, i, answers)
    modifies l, l.buckets, l.entries
    ensures l.Valid() && fresh(l.buckets - old(l.buckets)) && fresh(l.entries - old(l.entries))
    ensures Answering(l, run, i + 1, answers')
  {
    AnswersStep(l.cfg, l.Model(), run, i);
    ghost var rest := Answers(l.cfg, Step(l.cfg, l.Model(), run[i]), run[i + 1..]);
    var answer := TakeEvent(l, run[i]);
    assert (answers + answer) + rest == answers + (answer + rest);
    answers' := answers + answer;
  }

  /** A whole run on a new limiter, pools and all. */
  method RunLimiter(c: Config, run: seq<Event>) returns (answers: seq<bool>)
    ensures answers == Answers(c, map[], run)
  {
    var l := new Limiter(c);
    answers := [];
    assert run[0..] == run;
    for i := 0 to |run|
      invariant l.Valid() && l.cfg == c && fresh(l) && fresh(l.buckets) && fresh(l.entries)
      invariant Answering(l, run, i, answers)
    {
      answers := AnswerNext(l, run, i, answers);
    }
    assert answers + [] == answers;
  }

  /** The same calls on a limiter that is swept patiently and on one that never is. */
  method RunWithAndWithoutSweeps(c: Config, run: seq<Event>, ghost d: real)
    returns (swept: seq<bool>, unswept: seq<bool>)
    requires Sane(c) && d >= 0.0 && LagsAtMost(run, d) && SweepsPatiently(c, run, d)
    ensures swept == unswept == Answers(c, map[], run)
    ensures forall ip, from, to :: from <= to ==>
      Spent(CallsOnly(run), swept, ip, from, to) <= c.burst + Accrued(c, from, to)
  {
    swept := RunLimiter(c, run);
    unswept := RunLimiter(c, CallsOnly(run));
    SweepsTransparent(c, run, d);
    forall ip, from, to | from <= to
      ensures Spent(CallsOnly(run), swept, ip, from, to) <= c.burst + Accrued(c, from, to)
    {
      SweptIntervalBound(c, run, ip, from, to, d);
    }
  }

  lemma AnswersStep(c: Config, s: Buckets, run: seq<Event>, i: nat)
    requires i < |run|
    ensures var e := run[i];
      Answers(c, s, run[i..]) ==
      (if e.Call? then [Allow(c, s, e.ip, e.path, e.cost, e.at).1] else []) + Answers(c, Step(c, s, e), run[i + 1..])
  {
    assert run[i..][1..] == run[i + 1..];
  }
}
