/** Strikes and bans on values: one record per client, and runs of operations on a table of them. */
module Bans {
  import opened Basics

  /** Instants are nanoseconds; zero is the zero `time.Time`, and every clock reading is later. */
  type Time = int

  datatype Config = Config(threshold: int, ttl: int, escalation: int)

  datatype Ban = Ban(bannedUntil: Time, strikes: int, windowStart: Time, bans: int)

  type Table = map<string, Ban>

  /** What `New` leaves in a configuration, with the largest ban fitting a 64-bit duration. */
  ghost predicate Sane(c: Config) {
    c.threshold >= 1 && c.ttl > 0 && c.escalation >= 0 && Doubled(c.ttl, MaxShift(c)) < 0x8000_0000_0000_0000
  }

  /** `k` doubled `n` times. */
  function Doubled(k: int, n: nat): int {
    if n == 0 then k else 2 * Doubled(k, n - 1)
  }

  function MaxShift(c: Config): nat {
    if c.escalation <= 0 then 0 else Min(c.escalation, 30)
  }

  /** `banTTLWithEscalation`: the length of the ban that is a client's `bans`-th. */
  function BanLength(c: Config, bans: int): int {
    if c.escalation <= 0 || bans <= 1 then c.ttl
    else
      var shift := Min(bans - 1, c.escalation);
      Doubled(c.ttl, if shift > 30 then 30 else shift)
  }

  /** `Strike` on one client's record. */
  function Struck(c: Config, r: Option<Ban>, now: Time): Ban {
    var e :=
      if r.None? then Ban(0, 0, now, 0)
      else if now - r.value.windowStart > c.ttl then Ban(0, 0, now, r.value.bans)
      else r.value;
    if e.strikes + 1 >= c.threshold
    then Ban(now + BanLength(c, e.bans + 1), e.strikes + 1, e.windowStart, e.bans + 1)
    else e.(strikes := e.strikes + 1)
  }

  /** `Banned` on one client's record: the record afterwards, and the answer. */
  function Checked(e: Ban, now: Time): (Ban, bool) {
    if e.bannedUntil == 0 then (e, false)
    else if now > e.bannedUntil then (e.(bannedUntil := 0, strikes := 0), false)
    else (e, true)
  }

  /** `BanUntil` on one client's record, when the instant is not in the past. */
  function BannedUntil(c: Config, r: Option<Ban>, until: Time, now: Time): Ban {
    Ban(until, c.threshold, now, (if r.None? then 0 else r.value.bans) + 1)
  }

  /** The entries `Sweep` removes. */
  predicate Expired(e: Ban, cutoff: Time) {
    if e.bannedUntil != 0 then e.bannedUntil < cutoff else e.windowStart < cutoff
  }

  function Get(t: Table, key: string): Option<Ban> {
    if key in t then Some(t[key]) else None
  }

  function SweptTable(t: Table, cutoff: Time): Table {
    map k | k in t && !Expired(t[k], cutoff) :: t[k]
  }

  // ---------------------------------------------------------------------------
  // Runs

  datatype Event =
    | Strike(key: string, at: Time)
    | Check(key: string, at: Time)
    | Impose(key: string, until: Time, at: Time)
    | Lift(key: string)
    | Sweep(cutoff: Time)

  function Apply(c: Config, t: Table, e: Event): Table {
    match e
    case Strike(key, at) => if key == "" then t else t[key := Struck(c, Get(t, key), at)]
    case Check(key, at) => if key == "" || key !in t then t else t[key := Checked(t[key], at).0]
    case Impose(key, until, at) =>
      if key == "" || until == 0 || until < at then t else t[key := BannedUntil(c, Get(t, key), until, at)]
    case Lift(key) => t - {key}
    case Sweep(cutoff) => SweptTable(t, cutoff)
  }

  function After(c: Config, t: Table, run: seq<Event>): Table
    decreases |run|
  {
    if run == [] then t else After(c, Apply(c, t, run[0]), run[1..])
  }

  /** What the checks of a run answer. */
  function Answers(c: Config, t: Table, run: seq<Event>): seq<bool>
    decreases |run|
  {
    if run == [] then [] else Answer(t, run[0]) + Answers(c, Apply(c, t, run[0]), run[1..])
  }

  function Answer(t: Table, e: Event): seq<bool> {
    if e.Check? then [e.key != "" && e.key in t && Checked(t[e.key], e.at).1] else []
  }

  predicate Concerns(e: Event, key: string) {
    e.Sweep? || e.key == key
  }

  /** The run as seen by one client: its own operations, and the sweeps. */
  function OnlyFor(run: seq<Event>, key: string): seq<Event> {
    if run == [] then []
    else if Concerns(run[0], key) then [run[0]] + OnlyFor(run[1..], key)
    else OnlyFor(run[1..], key)
  }

  lemma ApplyIsLocal(c: Config, t1: Table, t2: Table, e: Event, key: string)
    requires Get(t1, key) == Get(t2, key)
    ensures Concerns(e, key) ==> Get(Apply(c, t1, e), key) == Get(Apply(c, t2, e), key)
    ensures !Concerns(e, key) ==> Get(Apply(c, t1, e), key) == Get(t1, key)
  {
  }

  /** A client's record depends on nobody else's operations. */
  lemma {:induction false} Isolated(c: Config, t1: Table, t2: Table, run: seq<Event>, key: string)
    requires Get(t1, key) == Get(t2, key)
    ensures Get(After(c, t1, run), key) == Get(After(c, t2, OnlyFor(run, key)), key)
    decreases |run|
  {
    if run != [] {
      ApplyIsLocal(c, t1, t2, run[0], key);
      if Concerns(run[0], key) {
        assert OnlyFor(run, key)[1..] == OnlyFor(run[1..], key);
        Isolated(c, Apply(c, t1, run[0]), Apply(c, t2, run[0]), run[1..], key);
      } else {
        Isolated(c, Apply(c, t1, run[0]), t2, run[1..], key);
      }
    }
  }

  // ---------------------------------------------------------------------------
  // What every run keeps

  predicate Clocked(e: Event) {
    (e.Strike? || e.Check? || e.Impose?) ==> e.at > 0
  }

  ghost predicate ClockedRun(run: seq<Event>) {
    run == [] || (Clocked(run[0]) && ClockedRun(run[1..]))
  }

  /** A ban in force was earned, and every record belongs to a window that has started. */
  ghost predicate RecordOk(c: Config, e: Ban) {
    && e.strikes >= 0 && e.bans >= 0 && e.windowStart > 0
    && (e.bannedUntil != 0 ==> e.strikes >= c.threshold && e.bans >= 1)
  }

  ghost predicate TableOk(c: Config, t: Table) {
    forall k :: k in t ==> RecordOk(c, t[k])
  }

  lemma ApplyKeepsOk(c: Config, t: Table, e: Event)
    requires Sane(c) && TableOk(c, t) && Clocked(e)
    ensures TableOk(c, Apply(c, t, e))
  {
    if e.Strike? && e.key != "" {
      assert RecordOk(c, Struck(c, Get(t, e.key), e.at));
    }
  }

  lemma {:induction false} RunKeepsOk(c: Config, t: Table, run: seq<Event>)
    requires Sane(c) && TableOk(c, t) && ClockedRun(run)
    ensures TableOk(c, After(c, t, run))
    decreases |run|
  {
    if run != [] {
      ApplyKeepsOk(c, t, run[0]);
      RunKeepsOk(c, Apply(c, t, run[0]), run[1..]);
    }
  }

  function StrikesOn(run: seq<Event>, key: string): nat {
    if run == [] then 0
    else (if run[0].Strike? && run[0].key == key then 1 else 0) + StrikesOn(run[1..], key)
  }

  predicate Imposed(run: seq<Event>, key: string) {
    run != [] && ((run[0].Impose? && run[0].key == key) || Imposed(run[1..], key))
  }

  function StrikeCount(t: Table, key: string): int {
    if key in t then t[key].strikes else 0
  }

  lemma {:induction false} StrikesAreCounted(c: Config, t: Table, run: seq<Event>, key: string)
    requires Sane(c) && TableOk(c, t) && ClockedRun(run) && !Imposed(run, key)
    ensures StrikeCount(After(c, t, run), key) <= StrikeCount(t, key) + StrikesOn(run, key)
    decreases |run|
  {
    if run != [] {
      ApplyKeepsOk(c, t, run[0]);
      StrikesAreCounted(c, Apply(c, t, run[0]), run[1..], key);
    }
  }

  /** In any run, recycled entries and all, nobody is banned for fewer strikes of their own than the threshold. */
  lemma NoUnearnedBan(c: Config, run: seq<Event>, key: string, now: Time)
    requires Sane(c) && ClockedRun(run) && !Imposed(run, key) && StrikesOn(run, key) < c.threshold
    ensures var t := After(c, map[], run); key in t ==> !Checked(t[key], now).1
  {
    RunKeepsOk(c, map[], run);
    StrikesAreCounted(c, map[], run, key);
  }

  // ---------------------------------------------------------------------------
  // How long a ban lasts, and what ends it

  /** The client is in a ban that has not run out at `u`. */
  predicate BannedAt(t: Table, key: string, u: Time) {
    key in t && t[key].bannedUntil != 0 && u <= t[key].bannedUntil
  }

  /** What a check answers and leaves: a ban that has run out is taken off with its strikes, the bans are remembered. */
  lemma CheckMeans(e: Ban, now: Time)
    ensures Checked(e, now).1 <==> e.bannedUntil != 0 && now <= e.bannedUntil
    ensures Checked(e, now).0 ==
      if e.bannedUntil != 0 && now > e.bannedUntil then Ban(0, 0, e.windowStart, e.bans) else e
  {
  }

  /** Whoever has sat out a ban is not banned again by one strike, unless one is enough for anybody. */
  lemma RanOutMustReEarn(c: Config, e: Ban, now: Time, later: Time)
    requires Sane(c) && e.bannedUntil != 0 && now > e.bannedUntil && c.threshold >= 2
    ensures !Checked(e, now).1 && !Checked(Struck(c, Some(Checked(e, now).0), later), later).1
    ensures Struck(c, Some(Checked(e, now).0), later).bans == e.bans
  {
  }

  /**
   * A sweep drops exactly the records whose ban, or without a ban whose window's beginning, lies before the cutoff,
   * and leaves the others as they are.
   */
  lemma SweepDropsExactly(c: Config, t: Table, cutoff: Time, key: string)
    ensures var t' := Apply(c, t, Sweep(cutoff));
      && (key in t' <==>
          key in t && (if t[key].bannedUntil != 0 then t[key].bannedUntil else t[key].windowStart) >= cutoff)
      && (key in t' ==> t'[key] == t[key])
  {
  }

  /** A sweep whose cutoff is not after `now` changes no answer at `now`. */
  lemma SweepKeepsAnswers(c: Config, t: Table, cutoff: Time, key: string, now: Time)
    requires cutoff <= now
    ensures BannedAt(Apply(c, t, Sweep(cutoff)), key, now) <==> BannedAt(t, key, now)
  {
    SweepDropsExactly(c, t, cutoff, key);
  }

  /** The event neither strikes, lifts nor bans the client, and comes, if a check or a sweep, with a time up to `u`. */
  predicate Quiet(e: Event, key: string, u: Time) {
    match e
    case Strike(k, _) => k != key
    case Impose(k, _, _) => k != key
    case Lift(k) => k != key
    case Check(k, at) => k != key || at <= u
    case Sweep(cutoff) => cutoff <= u
  }

  ghost predicate QuietRun(run: seq<Event>, key: string, u: Time) {
    forall i :: 0 <= i < |run| ==> Quiet(run[i], key, u)
  }

  lemma QuietStep(c: Config, t: Table, e: Event, key: string)
    requires key in t && t[key].bannedUntil != 0 && Quiet(e, key, t[key].bannedUntil)
    ensures Get(Apply(c, t, e), key) == Some(t[key])
  {
    if e.Sweep? {
      SweepDropsExactly(c, t, e.cutoff, key);
    }
  }

  lemma {:induction false} QuietKeeps(c: Config, t: Table, run: seq<Event>, key: string)
    requires key in t && t[key].bannedUntil != 0 && QuietRun(run, key, t[key].bannedUntil)
    ensures Get(After(c, t, run), key) == Some(t[key])
    decreases |run|
  {
    if run != [] {
      QuietStep(c, t, run[0], key);
      forall i | 0 <= i < |run[1..]| ensures Quiet(run[1..][i], key, t[key].bannedUntil) {
        assert run[1..][i] == run[i + 1];
      }
      QuietKeeps(c, Apply(c, t, run[0]), run[1..], key);
    }
  }

  /**
   * In every run without a strike, a lift or a new ban of the client it stays banned exactly until its ban ends,
   * whatever happens to others and however often the table is swept.
   */
  lemma BanLasts(c: Config, t: Table, run: seq<Event>, key: string, v: Time)
    requires key in t && t[key].bannedUntil != 0 && QuietRun(run, key, t[key].bannedUntil)
    ensures BannedAt(After(c, t, run), key, v) <==> v <= t[key].bannedUntil
  {
    QuietKeeps(c, t, run, key);
  }

  /** An imposed ban holds exactly until the instant given, and counts as one more; one in the past is ignored. */
  lemma ImposedBanHolds(c: Config, t: Table, key: string, until: Time, at: Time, v: Time)
    ensures var t' := Apply(c, t, Impose(key, until, at));
      if key == "" || until == 0 || until < at then t' == t
      else
        && (BannedAt(t', key, v) <==> v <= until) && t'[key].strikes == c.threshold && t'[key].windowStart == at
        && t'[key].bans == (if key in t then t[key].bans else 0) + 1
  {
  }

  /** A lifted ban is forgotten with all that led to it. */
  lemma LiftedIsForgotten(c: Config, t: Table, key: string, v: Time)
    ensures !BannedAt(Apply(c, t, Lift(key)), key, v) && Get(Apply(c, t, Lift(key)), key) == None
  {
  }

  /** What a strike makes of a record: a new window when there is none or it is over, and one more strike. */
  lemma StrikeCounts(c: Config, t: Table, key: string, at: Time)
    ensures var t' := Apply(c, t, Strike(key, at));
      if key == "" then t' == t
      else if key !in t || at - t[key].windowStart > c.ttl then
        t'[key].windowStart == at && t'[key].strikes == 1
      else
        t'[key].windowStart == t[key].windowStart && t'[key].strikes == t[key].strikes + 1
    ensures key != "" ==>
      var e := Apply(c, t, Strike(key, at))[key]; var before := if key in t then t[key].bans else 0;
      if e.strikes >= c.threshold then e.bans == before + 1 && e.bannedUntil == at + BanLength(c, e.bans)
      else e.bans == before
  {
  }

  // ---------------------------------------------------------------------------
  // Escalation

  lemma {:induction false} DoubledGrows(k: int, m: nat, n: nat)
    requires k > 0 && m <= n
    ensures k <= Doubled(k, m) <= Doubled(k, n)
    decreases n
  {
    if m < n {
      DoubledGrows(k, m, n - 1);
    } else if n > 0 {
      DoubledGrows(k, n - 1, n - 1);
    }
  }

  /** How often the base length is doubled. */
  function Shift(c: Config, bans: int): nat {
    if c.escalation <= 0 || bans <= 1 then 0 else Min(bans - 1, MaxShift(c))
  }

  /** Each further ban lasts at least as long, never less than the base and never past the cap. */
  lemma BansEscalate(c: Config, bans: int)
    requires Sane(c)
    ensures c.ttl <= BanLength(c, bans) <= BanLength(c, bans + 1) <= Doubled(c.ttl, MaxShift(c)) < 0x8000_0000_0000_0000
    ensures 1 <= bans <= MaxShift(c) ==> BanLength(c, bans + 1) == 2 * BanLength(c, bans)
  {
    var s1, s2 := Shift(c, bans), Shift(c, bans + 1);
    assert BanLength(c, bans) == Doubled(c.ttl, s1) && BanLength(c, bans + 1) == Doubled(c.ttl, s2);
    DoubledGrows(c.ttl, s1, s2);
    DoubledGrows(c.ttl, s2, MaxShift(c));
  }

  // ---------------------------------------------------------------------------
  // What earns a ban

  /** The record of a new client after strikes at these times. */
  function StruckAt(c: Config, times: seq<Time>): Option<Ban> {
    if times == [] then None else Some(Struck(c, StruckAt(c, times[..|times| - 1]), times[|times| - 1]))
  }

  ghost predicate OneWindow(c: Config, times: seq<Time>) {
    times != [] && forall i :: 0 <= i < |times| ==> 0 < times[i] <= times[0] + c.ttl
  }

  lemma {:induction false} StrikesAddUp(c: Config, times: seq<Time>)
    requires Sane(c) && OneWindow(c, times)
    ensures var e := StruckAt(c, times).value; var n := |times|;
      && e.strikes == n && e.windowStart == times[0]
      && e.bans == (if n >= c.threshold then n - c.threshold + 1 else 0)
      && e.bannedUntil == (if n >= c.threshold then times[n - 1] + BanLength(c, e.bans) else 0)
    decreases |times|
  {
    var n := |times| - 1;
    if n > 0 {
      assert times[..n][0] == times[0];
      StrikesAddUp(c, times[..n]);
    } else {
      assert times[..n] == [];
    }
  }

  /** Within one window a client is banned from the strike that reaches the threshold on, and not before. */
  lemma ThresholdEarnsBan(c: Config, times: seq<Time>, now: Time)
    requires Sane(c) && OneWindow(c, times) && times[|times| - 1] <= now <= times[|times| - 1] + c.ttl
    ensures Checked(StruckAt(c, times).value, now).1 <==> |times| >= c.threshold
  {
    StrikesAddUp(c, times);
    BansEscalate(c, StruckAt(c, times).value.bans);
  }

  // ---------------------------------------------------------------------------
  // A strike against a client that is already banned

  /** A client is still banned after one more strike exactly when its window is open or one strike is enough. */
  lemma StrikeKeepsBan(c: Config, e: Ban, now: Time)
    requires Sane(c) && RecordOk(c, e) && now > 0 && Checked(e, now).1
    ensures Checked(Struck(c, Some(e), now), now).1 <==> (now - e.windowStart <= c.ttl || c.threshold == 1)
  {
    BansEscalate(c, e.bans + 1);
    BansEscalate(c, 1);
  }

  /** The ban is at least as long after the strike as before: nobody gets in earlier for it. */
  ghost predicate NeverShortens(c: Config, e: Ban, now: Time) {
    forall u :: u >= now && Checked(e, u).1 ==> Checked(Struck(c, Some(e), now), u).1
  }

  /**
   * A strike never lets a banned client in earlier exactly when the strike keeps the ban at all and the ban it
   * then sets, being the client's next, does not end before the one in force.
   */
  lemma StrikeShortensIff(c: Config, e: Ban, now: Time)
    requires Sane(c) && RecordOk(c, e) && now > 0
    ensures NeverShortens(c, e, now) <==> (Checked(e, now).1 ==>
      (now - e.windowStart <= c.ttl || c.threshold == 1) && e.bannedUntil <= now + BanLength(c, e.bans + 1))
  {
    var r := Struck(c, Some(e), now);
    if Checked(e, now).1 {
      StrikeKeepsBan(c, e, now);
      BansEscalate(c, e.bans + 1);
      assert Checked(r, now).1 ==> r.bannedUntil == now + BanLength(c, e.bans + 1);
      assert Checked(e, e.bannedUntil).1;
      assert Checked(r, now).1 ==> (Checked(r, e.bannedUntil).1 <==> e.bannedUntil <= r.bannedUntil);
    }
  }

  /** An imposed ban is cut short by the very next strike: it ends at 22 instead of 1000. */
  lemma StrikeCutsImposedBan() returns (run: seq<Event>)
    ensures var c := Config(2, 10, 3); var t := After(c, map[], run);
      && Sane(c) && ClockedRun(run) && "k" in t && 2 - t["k"].windowStart <= c.ttl
      && t["k"].bannedUntil == 1000 && Struck(c, Get(t, "k"), 2).bannedUntil == 22 && !NeverShortens(c, t["k"], 2)
  {
    var c := Config(2, 10, 3);
    run := [Impose("k", 1000, 1)];
    assert run[1..] == [] && After(c, map[], run) == map["k" := Ban(1000, 2, 1, 1)];
    var e := Ban(1000, 2, 1, 1);
    assert Doubled(10, 3) == 80 && Doubled(10, 1) == 20;
    assert Struck(c, Some(e), 2) == Ban(22, 3, 1, 2);
    assert Checked(e, 1000).1 && !Checked(Struck(c, Some(e), 2), 1000).1;
  }

  /** Otherwise the strike lifts the ban: two bans, the second escalated past the window that earned it. */
  lemma StrikeCanLiftBan() returns (run: seq<Event>)
    ensures var c := Config(2, 10, 3); var t := After(c, map[], run);
      && Sane(c) && ClockedRun(run) && "k" in t
      && Checked(t["k"], 25).1 && !Checked(Struck(c, Get(t, "k"), 25), 25).1
  {
    var c := Config(2, 10, 3);
    run := [Strike("k", 1), Strike("k", 2), Strike("k", 14), Strike("k", 15)];
    assert Doubled(10, 3) == 80 && Doubled(10, 1) == 20;
    var t1 := Apply(c, map[], run[0]);
    assert t1 == map["k" := Ban(0, 1, 1, 0)];
    var t2 := Apply(c, t1, run[1]);
    assert t2 == map["k" := Ban(12, 2, 1, 1)];
    var t3 := Apply(c, t2, run[2]);
    assert t3 == map["k" := Ban(0, 1, 14, 1)];
    var t4 := Apply(c, t3, run[3]);
    assert t4 == map["k" := Ban(35, 2, 14, 2)];
    assert run[1..] == [run[1], run[2], run[3]] && run[1..][1..] == [run[2], run[3]];
    assert run[1..][1..][1..] == [run[3]] && run[1..][1..][1..][1..] == [];
    assert ClockedRun(run[1..][1..][1..]) && ClockedRun(run[1..][1..]) && ClockedRun(run[1..]);
    assert After(c, t3, [run[3]]) == t4;
    assert After(c, t2, run[1..][1..]) == t4;
    assert After(c, t1, run[1..]) == t4;
  }
}
