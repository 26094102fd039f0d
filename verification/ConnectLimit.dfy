/**
 * The hub's sliding-window connect limiter: `allowConnect` and its in-place filter.
 *
 * A call reads the clock before it takes the lock, so the readings of one address, in the order in which its calls
 * get the lock, need not be in order.
 */
module ConnectLimit {

  type Time = int   // nanoseconds

  const LIMIT := 20
  const WINDOW := 60_000_000_000

  /** The start of the minute ending at `t`. */
  function Cut(t: Time): Time {
    t - WINDOW
  }

  /** The times after `cut`, in order. */
  function After(s: seq<Time>, cut: Time): (r: seq<Time>)
    ensures |r| <= |s|
  {
    if s == [] then []
    else
      var init := After(s[..|s| - 1], cut);
      if s[|s| - 1] > cut then init + [s[|s| - 1]] else init
  }

  /** How many of the times lie in the half-open window `(lo, hi]`. */
  function CountIn(s: seq<Time>, lo: Time, hi: Time): nat {
    if s == [] then 0
    else CountIn(s[..|s| - 1], lo, hi) + (if lo < s[|s| - 1] <= hi then 1 else 0)
  }

  /** How many of the times lie in the half-open window of length `w` ending at `t`. */
  function WindowEnding(s: seq<Time>, t: Time, w: int): nat {
    CountIn(s, t - w, t)
  }

  /** How many of the times lie in the half-open minute ending at `t`. */
  function MinuteEnding(s: seq<Time>, t: Time): nat {
    CountIn(s, Cut(t), t)
  }

  /** No half-open minute holds more than the limit. */
  ghost predicate WithinLimit(log: seq<Time>) {
    forall t :: MinuteEnding(log, t) <= LIMIT
  }

  // ---------------------------------------------------------------------------
  // What the clock readings of one address decide

  /** What a call adds. */
  function Entry(now: Time, ok: bool): seq<Time> {
    if ok then [now] else []
  }

  /** The times kept after calls with these readings. */
  function Kept(rs: seq<Time>): seq<Time> {
    if rs == [] then []
    else
      var now := rs[|rs| - 1];
      var left := After(Kept(rs[..|rs| - 1]), Cut(now));
      left + Entry(now, |left| < LIMIT)
  }

  /** The next call, with reading `now`, is accepted. */
  predicate Admits(rs: seq<Time>, now: Time) {
    |After(Kept(rs), Cut(now))| < LIMIT
  }

  /** Every accepted reading, never pruned. */
  function Accepts(rs: seq<Time>): seq<Time> {
    if rs == [] then []
    else
      var init, now := rs[..|rs| - 1], rs[|rs| - 1];
      Accepts(init) + Entry(now, Admits(init, now))
  }

  lemma Snoc(rs: seq<Time>, now: Time)
    ensures Kept(rs + [now]) == After(Kept(rs), Cut(now)) + Entry(now, Admits(rs, now))
    ensures Accepts(rs + [now]) == Accepts(rs) + Entry(now, Admits(rs, now))
  {
    assert (rs + [now])[..|rs|] == rs;
  }

  lemma CountSnoc(s: seq<Time>, x: Time, lo: Time, hi: Time)
    ensures CountIn(s + [x], lo, hi) == CountIn(s, lo, hi) + if lo < x <= hi then 1 else 0
  {
    assert (s + [x])[..|s|] == s;
  }

  lemma CountEntry(s: seq<Time>, x: Time, ok: bool, lo: Time, hi: Time)
    ensures CountIn(s + Entry(x, ok), lo, hi) == CountIn(s, lo, hi) + if ok && lo < x <= hi then 1 else 0
  {
    if ok {
      CountSnoc(s, x, lo, hi);
    } else {
      assert s + [] == s;
    }
  }

  /** Pruning loses nothing of a window that lies after the cut. */
  lemma {:induction false} PruneKeepsWindow(s: seq<Time>, cut: Time, lo: Time, hi: Time)
    requires forall i :: 0 <= i < |s| && lo < s[i] <= hi ==> s[i] > cut
    ensures CountIn(After(s, cut), lo, hi) == CountIn(s, lo, hi)
  {
    if s != [] {
      var init, x := s[..|s| - 1], s[|s| - 1];
      PruneKeepsWindow(init, cut, lo, hi);
      if x > cut {
        CountSnoc(After(init, cut), x, lo, hi);
      }
    }
  }

  lemma {:induction false} CountAtMostLength(s: seq<Time>, lo: Time, hi: Time)
    ensures CountIn(s, lo, hi) <= |s|
  {
    if s != [] {
      CountAtMostLength(s[..|s| - 1], lo, hi);
    }
  }

  /** Call `i` was accepted. */
  predicate AcceptedAt(rs: seq<Time>, i: nat) {
    i < |rs| && Admits(rs[..i], rs[i])
  }

  /** What call `i` filed, call `s` prunes, though call `j`, with an older reading, is less than a minute from it. */
  predicate Overtaken(rs: seq<Time>, i: nat, s: nat, j: nat) {
    i < s < j < |rs| && AcceptedAt(rs, i) && AcceptedAt(rs, j) && rs[j] < rs[i] + WINDOW <= rs[s]
  }

  ghost predicate Calm(rs: seq<Time>) {
    forall i: nat, s: nat, j: nat :: !Overtaken(rs, i, s, j)
  }

  /** Every accept in the window `(lo, hi]` is less than a minute before every later reading. */
  ghost predicate Unpruned(rs: seq<Time>, lo: Time, hi: Time) {
    forall i, s :: 0 <= i < s < |rs| && AcceptedAt(rs, i) && lo < rs[i] <= hi ==> rs[i] > Cut(rs[s])
  }

  /** What is kept was accepted. */
  lemma {:induction false} KeptWasAccepted(rs: seq<Time>, k: nat) returns (i: nat)
    requires k < |Kept(rs)|
    ensures AcceptedAt(rs, i) && rs[i] == Kept(rs)[k]
  {
    var n := |rs| - 1;
    var init, now := rs[..n], rs[n];
    var pruned := After(Kept(init), Cut(now));
    if k == |pruned| {
      i := n;
    } else {
      var m := AfterIsPart(Kept(init), Cut(now), k);
      i := KeptWasAccepted(init, m);
      assert init[..i] == rs[..i];
    }
  }

  lemma {:induction false} AfterIsPart(s: seq<Time>, cut: Time, k: nat) returns (m: nat)
    requires k < |After(s, cut)|
    ensures m < |s| && s[m] == After(s, cut)[k]
  {
    var n := |s| - 1;
    if k < |After(s[..n], cut)| {
      m := AfterIsPart(s[..n], cut, k);
    } else {
      m := n;
    }
  }

  lemma UnprunedInit(rs: seq<Time>, lo: Time, hi: Time)
    requires rs != [] && Unpruned(rs, lo, hi)
    ensures Unpruned(rs[..|rs| - 1], lo, hi)
  {
    var init := rs[..|rs| - 1];
    forall i, s | 0 <= i < s < |init| && AcceptedAt(init, i) && lo < init[i] <= hi ensures init[i] > Cut(init[s]) {
      assert init[..i] == rs[..i];
      assert AcceptedAt(rs, i);
    }
  }

  /** So the last reading prunes none of them. */
  lemma KeptAboveCut(rs: seq<Time>, init: seq<Time>, lo: Time, hi: Time)
    requires rs != [] && init == rs[..|rs| - 1] && Unpruned(rs, lo, hi)
    ensures forall k :: 0 <= k < |Kept(init)| && lo < Kept(init)[k] <= hi ==> Kept(init)[k] > Cut(rs[|rs| - 1])
  {
    var n := |rs| - 1;
    forall k | 0 <= k < |Kept(init)| && lo < Kept(init)[k] <= hi ensures Kept(init)[k] > Cut(rs[n]) {
      var i := KeptWasAccepted(init, k);
      assert init[..i] == rs[..i];
      assert AcceptedAt(rs, i) && i < n;
    }
  }

  lemma NextCountsWindow(rs: seq<Time>, init: seq<Time>, lo: Time, hi: Time)
    requires rs != [] && init == rs[..|rs| - 1] && Unpruned(rs, lo, hi)
    requires CountIn(Kept(init), lo, hi) == CountIn(Accepts(init), lo, hi)
    ensures CountIn(Kept(rs), lo, hi) == CountIn(Accepts(rs), lo, hi)
  {
    var now := rs[|rs| - 1];
    var pruned, log := After(Kept(init), Cut(now)), Accepts(init);
    KeptAboveCut(rs, init, lo, hi);
    PruneKeepsWindow(Kept(init), Cut(now), lo, hi);
    CountEntry(pruned, now, Admits(init, now), lo, hi);
    CountEntry(log, now, Admits(init, now), lo, hi);
    assert Kept(rs) == pruned + Entry(now, Admits(init, now));
    assert Accepts(rs) == log + Entry(now, Admits(init, now));
  }

  /** Then the window is counted right. */
  lemma {:induction false} KeptCountsWindow(rs: seq<Time>, lo: Time, hi: Time)
    requires Unpruned(rs, lo, hi)
    ensures CountIn(Kept(rs), lo, hi) == CountIn(Accepts(rs), lo, hi)
    decreases |rs|
  {
    if rs != [] {
      var init := rs[..|rs| - 1];
      UnprunedInit(rs, lo, hi);
      KeptCountsWindow(init, lo, hi);
      NextCountsWindow(rs, init, lo, hi);
    }
  }

  lemma CalmInit(rs: seq<Time>)
    requires rs != [] && Calm(rs)
    ensures Calm(rs[..|rs| - 1])
  {
    var init := rs[..|rs| - 1];
    forall i: nat, s: nat, j: nat ensures !Overtaken(init, i, s, j) {
      if i < s < j < |init| {
        assert init[..i] == rs[..i] && init[..j] == rs[..j];
        assert !Overtaken(rs, i, s, j);
      }
    }
  }

  /** A calm call finds all accepts of every minute it belongs to still kept. */
  lemma CalmUnpruned(rs: seq<Time>, init: seq<Time>, t: Time)
    requires rs != [] && init == rs[..|rs| - 1] && Calm(rs)
    requires Admits(init, rs[|rs| - 1]) && Cut(t) < rs[|rs| - 1] <= t
    ensures Unpruned(init, Cut(t), t)
  {
    forall i, s | 0 <= i < s < |init| && AcceptedAt(init, i) && Cut(t) < init[i] <= t ensures init[i] > Cut(init[s]) {
      assert rs[..i] == init[..i];
      assert !Overtaken(rs, i, s, |rs| - 1);
    }
  }

  lemma NextKeepsLimit(rs: seq<Time>, init: seq<Time>, t: Time)
    requires rs != [] && init == rs[..|rs| - 1] && Calm(rs) && MinuteEnding(Accepts(init), t) <= LIMIT
    ensures MinuteEnding(Accepts(rs), t) <= LIMIT
  {
    var now := rs[|rs| - 1];
    CountEntry(Accepts(init), now, Admits(init, now), Cut(t), t);
    assert Accepts(rs) == Accepts(init) + Entry(now, Admits(init, now));
    if Admits(init, now) && Cut(t) < now <= t {
      CalmUnpruned(rs, init, t);
      AcceptFitsWindow(init, now, Cut(t), t);
    }
  }

  /** Calm readings keep every half-open minute within the limit. */
  lemma {:induction false} CalmKeepsLimit(rs: seq<Time>, t: Time)
    requires Calm(rs)
    ensures MinuteEnding(Accepts(rs), t) <= LIMIT
    decreases |rs|
  {
    if rs != [] {
      var init := rs[..|rs| - 1];
      CalmInit(rs);
      CalmKeepsLimit(init, t);
      NextKeepsLimit(rs, init, t);
    }
  }

  /** An accepted call leaves room for itself in a window whose accepts are all still kept. */
  lemma AcceptFitsWindow(rs: seq<Time>, now: Time, lo: Time, hi: Time)
    requires Unpruned(rs, lo, hi) && Admits(rs, now) && Cut(now) <= lo
    ensures CountIn(Accepts(rs), lo, hi) < LIMIT
  {
    KeptCountsWindow(rs, lo, hi);
    PruneKeepsWindow(Kept(rs), Cut(now), lo, hi);
    CountAtMostLength(After(Kept(rs), Cut(now)), lo, hi);
  }

  // ---------------------------------------------------------------------------
  // Readings that lag

  /** No reading is more than `d` older than one before it. */
  ghost predicate LagsAtMost(rs: seq<Time>, d: nat) {
    forall s, j :: 0 <= s < j < |rs| ==> rs[s] - d <= rs[j]
  }

  lemma InOrderIsCalm(rs: seq<Time>)
    requires LagsAtMost(rs, 0)
    ensures Calm(rs)
  {
    forall i: nat, s: nat, j: nat ensures !Overtaken(rs, i, s, j) {
      assert i < s < j < |rs| ==> rs[s] - 0 <= rs[j];
    }
  }

  /** Whatever calls are made, with readings in order no half-open minute of the whole history exceeds the limit. */
  lemma InOrderKeepsLimit(rs: seq<Time>, t: Time)
    requires LagsAtMost(rs, 0)
    ensures MinuteEnding(Accepts(rs), t) <= LIMIT == 20 && Cut(t) == t - 60 * 1_000_000_000
  {
    InOrderIsCalm(rs);
    CalmKeepsLimit(rs, t);
  }

  /** With readings in order a call is refused exactly when the minute before it holds the limit. */
  lemma InOrderAdmits(rs: seq<Time>, now: Time)
    requires LagsAtMost(rs + [now], 0)
    ensures Admits(rs, now) <==> MinuteEnding(Accepts(rs), now) < 20
  {
    var all := rs + [now];
    forall i, s | 0 <= i < s < |rs| && AcceptedAt(rs, i) && Cut(now) < rs[i] <= now ensures rs[i] > Cut(rs[s]) {
      assert all[s] - 0 <= all[|rs|];
    }
    KeptCountsWindow(rs, Cut(now), now);
    PruneKeepsWindow(Kept(rs), Cut(now), Cut(now), now);
    forall k | 0 <= k < |Kept(rs)| ensures Kept(rs)[k] <= now {
      var i := KeptWasAccepted(rs, k);
      assert all[i] - 0 <= all[|rs|];
    }
    AfterCounts(Kept(rs), Cut(now), now);
  }

  lemma {:induction false} AfterCounts(s: seq<Time>, cut: Time, hi: Time)
    requires forall i :: 0 <= i < |s| ==> s[i] <= hi
    ensures |After(s, cut)| == CountIn(s, cut, hi)
  {
    if s != [] {
      AfterCounts(s[..|s| - 1], cut, hi);
    }
  }

  /** All calls at the instant zero. */
  ghost predicate Burst(b: seq<Time>) {
    forall i :: 0 <= i < |b| ==> b[i] == 0
  }

  lemma {:induction false} BurstAfter(b: seq<Time>, cut: Time)
    requires Burst(b)
    ensures After(b, cut) == if cut < 0 then b else []
  {
    if b != [] {
      BurstAfter(b[..|b| - 1], cut);
    }
  }

  lemma {:induction false} BurstCounts(b: seq<Time>, lo: Time, hi: Time)
    requires Burst(b) && lo < 0 <= hi
    ensures CountIn(b, lo, hi) == |b|
  {
    if b != [] {
      BurstCounts(b[..|b| - 1], lo, hi);
    }
  }

  lemma {:induction false} BurstAccepted(b: seq<Time>)
    requires Burst(b) && |b| <= LIMIT
    ensures Kept(b) == b && Accepts(b) == b
  {
    if b != [] {
      var init := b[..|b| - 1];
      BurstAccepted(init);
      BurstAfter(init, Cut(0));
    }
  }

  /** A call a minute after a full burst prunes it all. */
  lemma BurstPruned(b: seq<Time>)
    requires Burst(b) && |b| == LIMIT
    ensures Kept(b + [WINDOW]) == [WINDOW] && Accepts(b + [WINDOW]) == b + [WINDOW]
  {
    BurstAccepted(b);
    BurstAfter(b, Cut(WINDOW));
    Snoc(b, WINDOW);
  }

  lemma LateAccepted(b: seq<Time>, late: Time)
    requires |Kept(b)| < LIMIT
    ensures Accepts(b + [late]) == Accepts(b) + [late]
  {
    Snoc(b, late);
  }

  lemma BurstExceeds(b: seq<Time>, late: Time, w: int)
    requires Burst(b) && |b| == LIMIT && 0 <= late < w
    ensures WindowEnding(b + [WINDOW] + [late], late, w) > LIMIT
  {
    var lo := late - w;
    BurstCounts(b, lo, late);
    CountSnoc(b, WINDOW, lo, late);
    CountSnoc(b + [WINDOW], late, lo, late);
  }

  lemma BurstLags(b: seq<Time>, late: Time, d: nat)
    requires Burst(b) && 0 <= late && WINDOW - d <= late
    ensures LagsAtMost(b + [WINDOW] + [late], d)
  {
  }

  /** A full burst, a call that prunes it a minute later, and a call whose reading is up to `d` older. */
  lemma StaleReadingExceedsLimit(d: nat, w: int) returns (rs: seq<Time>, t: Time)
    requires w > 0 && w > WINDOW - d
    ensures LagsAtMost(rs, d) && WindowEnding(Accepts(rs), t, w) > LIMIT
  {
    var b := seq(LIMIT, _ => 0);
    t := if d <= WINDOW then WINDOW - d else 0;
    rs := b + [WINDOW] + [t];
    BurstPruned(b);
    LateAccepted(b + [WINDOW], t);
    BurstExceeds(b, t, w);
    BurstLags(b, t, d);
  }

  /** With readings that lag at most `d`, no accept of a window that much shorter is pruned before its time. */
  lemma LaggingUnpruned(rs: seq<Time>, init: seq<Time>, d: nat, lo: Time, hi: Time)
    requires rs != [] && init == rs[..|rs| - 1] && LagsAtMost(rs, d) && Cut(hi) + d <= lo && rs[|rs| - 1] <= hi
    ensures Unpruned(init, lo, hi)
  {
    forall i, s | 0 <= i < s < |init| && AcceptedAt(init, i) && lo < init[i] <= hi ensures init[i] > Cut(init[s]) {
      assert rs[s] - d <= rs[|rs| - 1];
    }
  }

  lemma LaggingFits(rs: seq<Time>, init: seq<Time>, d: nat, lo: Time, hi: Time)
    requires rs != [] && init == rs[..|rs| - 1] && LagsAtMost(rs, d) && Cut(hi) + d <= lo
    requires CountIn(Accepts(init), lo, hi) <= LIMIT
    ensures CountIn(Accepts(rs), lo, hi) <= LIMIT
  {
    var now := rs[|rs| - 1];
    CountEntry(Accepts(init), now, Admits(init, now), lo, hi);
    assert Accepts(rs) == Accepts(init) + Entry(now, Admits(init, now));
    if Admits(init, now) && lo < now <= hi {
      LaggingUnpruned(rs, init, d, lo, hi);
      AcceptFitsWindow(init, now, lo, hi);
    }
  }

  lemma {:induction false} LaggingKeepsLimit(rs: seq<Time>, d: nat, lo: Time, hi: Time)
    requires LagsAtMost(rs, d) && Cut(hi) + d <= lo
    ensures CountIn(Accepts(rs), lo, hi) <= LIMIT
    decreases |rs|
  {
    if rs != [] {
      var init := rs[..|rs| - 1];
      LaggingKeepsLimit(init, d, lo, hi);
      LaggingFits(rs, init, d, lo, hi);
    }
  }

  lemma {:induction false} EmptyWindow(s: seq<Time>, lo: Time, hi: Time)
    requires hi <= lo
    ensures CountIn(s, lo, hi) == 0
  {
    if s != [] {
      EmptyWindow(s[..|s| - 1], lo, hi);
    }
  }

  /** No half-open window of length `w` holds more than the limit, for any readings that lag at most `d`. */
  ghost predicate LimitHolds(d: nat, w: int) {
    forall rs, t :: LagsAtMost(rs, d) ==> WindowEnding(Accepts(rs), t, w) <= LIMIT
  }

  /** What lagging readings leave of the limit: exactly the windows shorter than a minute by the lag, if any. */
  lemma WindowCondition(d: nat, w: int)
    ensures LimitHolds(d, w) <==> w <= 0 || w <= WINDOW - d
  {
    if w <= 0 {
      forall rs, t | LagsAtMost(rs, d) ensures WindowEnding(Accepts(rs), t, w) <= LIMIT {
        EmptyWindow(Accepts(rs), t - w, t);
      }
    } else if w <= WINDOW - d {
      forall rs, t | LagsAtMost(rs, d) ensures WindowEnding(Accepts(rs), t, w) <= LIMIT {
        LaggingKeepsLimit(rs, d, t - w, t);
      }
    } else {
      var rs, t := StaleReadingExceedsLimit(d, w);
      assert LagsAtMost(rs, d) && WindowEnding(Accepts(rs), t, w) > LIMIT;
    }
  }

  /** The whole minute is safe for all readings that lag by at most `d` exactly when they must not lag at all. */
  lemma LagCondition(d: nat)
    ensures (forall rs :: LagsAtMost(rs, d) ==> WithinLimit(Accepts(rs))) <==> d == 0
  {
    if d == 0 {
      forall rs, t | LagsAtMost(rs, d) ensures MinuteEnding(Accepts(rs), t) <= LIMIT {
        InOrderKeepsLimit(rs, t);
      }
    } else {
      var rs, t := StaleReadingExceedsLimit(d, WINDOW);
      assert MinuteEnding(Accepts(rs), t) > LIMIT;
    }
  }

  // ---------------------------------------------------------------------------
  // The program

  /** The loop that keeps the unexpired times: it writes into the slice it is reading, and loses none of them. */
  method FilterInPlace(a: array<Time>, len: nat, cut: Time) returns (k: nat)
    requires len <= a.Length
    modifies a
    ensures k <= len && a[..k] == After(old(a[..len]), cut) && k == |After(old(a[..len]), cut)|
  {
    k := 0;
    for i := 0 to len
      invariant k <= i && a[..k] == After(old(a[..i]), cut)
      invariant a[i..len] == old(a[i..len])
    {
      assert a[i] == old(a[i]) by { assert a[i..len][0] == old(a[i..len])[0]; }
      assert old(a[..i + 1])[..i] == old(a[..i]);
      assert a[i..len][1..] == a[i + 1..len] && old(a[i..len])[1..] == old(a[i + 1..len]);
      if a[i] > cut {
        a[k] := a[i];
        k := k + 1;
      }
    }
  }

  datatype Slice = Slice(arr: array<Time>, len: nat)

  /** `append(kept, now)`: in place while there is room, otherwise in a new array. */
  method Append(s: Slice, t: Time) returns (r: Slice)
    requires s.len <= s.arr.Length
    modifies s.arr
    ensures r.len == s.len + 1 && r.len <= r.arr.Length && (r.arr == s.arr || fresh(r.arr))
    ensures r.arr[..r.len] == old(s.arr[..s.len]) + [t]
  {
    if s.len < s.arr.Length {
      s.arr[s.len] := t;
      return Slice(s.arr, s.len + 1);
    }
    var cap :| cap > s.len;
    var a := new Time[cap](i requires 0 <= i < cap reads s.arr => if i < s.len then s.arr[i] else t);
    return Slice(a, s.len + 1);
  }

  /** The slice shows exactly these times. */
  ghost predicate Shows(s: Slice, times: seq<Time>)
    reads s.arr
  {
    s.len <= s.arr.Length && s.arr[..s.len] == times
  }

  /** What a call makes of the slice of its address. */
  method Update(s: Slice, now: Time, ghost rs: seq<Time>) returns (r: Slice, ok: bool)
    requires Shows(s, Kept(rs))
    modifies s.arr
    ensures (r.arr == s.arr || fresh(r.arr)) && Shows(r, Kept(rs + [now])) && ok == Admits(rs, now)
  {
    Snoc(rs, now);
    var k := FilterInPlace(s.arr, s.len, Cut(now));
    if k >= LIMIT { return Slice(s.arr, k), false; }
    r := Append(Slice(s.arr, k), now);
    ok := true;
  }

  class Hub {
    var limit: map<string, Slice>
    ghost var past: map<string, seq<Time>>   // the readings of every call, by address, in the order of the lock
    ghost var owner: map<array<Time>, string>

    ghost predicate Valid()
      reads this, owner.Keys
    {
      && past.Keys == limit.Keys
      && forall ip :: ip in limit ==>
           limit[ip].arr in owner && owner[limit[ip].arr] == ip && Shows(limit[ip], Kept(past[ip]))
    }

    /** The readings of an address. */
    ghost function Readings(ip: string): seq<Time>
      reads this
    {
      if ip in past then past[ip] else []
    }

    constructor ()
      ensures Valid() && past == map[] && owner == map[]
    {
      limit, past, owner := map[], map[], map[];
    }

    /** The slice of an address; a missing one is nil, which has no array to share. */
    method SliceFor(ip: string) returns (s: Slice)
      requires Valid()
      ensures if ip in limit then s == limit[ip] else fresh(s.arr)
      ensures Shows(s, Kept(Readings(ip)))
    {
      if ip in limit { return limit[ip]; }
      var a := new Time[0];
      return Slice(a, 0);
    }

    /** The slices of all other addresses are intact and use other arrays. */
    ghost predicate Others(ip: string, arr: array<Time>)
      requires past.Keys == limit.Keys
      reads this, owner.Keys
    {
      forall x :: x in limit && x != ip ==>
        && limit[x].arr in owner && owner[limit[x].arr] == x && limit[x].arr != arr
        && Shows(limit[x], Kept(past[x]))
    }

    /** Filing the new slice of one address. */
    method File(ip: string, s: Slice, ghost rs: seq<Time>)
      requires past.Keys == limit.Keys && Others(ip, s.arr) && Shows(s, Kept(rs))
      modifies this
      ensures Valid() && past == old(past)[ip := rs] && owner == old(owner)[s.arr := ip]
    {
      limit, past, owner := limit[ip := s], past[ip := rs], owner[s.arr := ip];
    }

    /** The slice of an address, brought up to date. */
    method Prepare(ip: string, now: Time) returns (s: Slice, ok: bool)
      requires Valid()
      modifies owner.Keys
      ensures (s.arr in owner.Keys || fresh(s.arr)) && Shows(s, Kept(Readings(ip) + [now]))
      ensures ok == Admits(Readings(ip), now) && Others(ip, s.arr)
    {
      s := SliceFor(ip);
      s, ok := Update(s, now, Readings(ip));
    }

    /** `allowConnect`, whatever clock reading it comes with. */
    method AllowConnect(peer: string, now: Time) returns (ok: bool)
      requires Valid()
      modifies this, owner.Keys
      ensures Valid() && fresh(owner.Keys - old(owner.Keys))
      ensures var ip := if peer == "" then "unknown" else peer;
        ok == Admits(old(Readings(ip)), now) && past == old(past)[ip := old(Readings(ip)) + [now]]
    {
      var ip := if peer == "" then "unknown" else peer;
      var s;
      s, ok := Prepare(ip, now);
      File(ip, s, Readings(ip) + [now]);
    }
  }
}
