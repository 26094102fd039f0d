/** The ban table as the program keeps it: shared entries, updated in place and recycled through a pool. */
module BanTable {
  import opened Basics
  import opened Bans

  class BanEntry {
    var bannedUntil: Time
    var strikes: int
    var windowStart: Time
    var bans: int
    ghost var home: Option<string>   // the client it serves, if any

    constructor ()
      ensures home == None && strikes == 0
    {
      bannedUntil, strikes, windowStart, bans, home := 0, 0, 0, 0, None;
    }

    ghost function Value(): Ban
      reads this
    {
      Ban(bannedUntil, strikes, windowStart, bans)
    }

    /** A recycled entry's first window: its strikes are left as they are. */
    method Renew(now: Time)
      modifies `bannedUntil, `windowStart, `bans
      ensures Value() == Ban(0, old(strikes), now, 0)
    {
      bannedUntil := 0;
      bans := 0;
      windowStart := now;
    }

    /** A known client's next window: its bans are remembered. */
    method Reopen(now: Time)
      modifies `bannedUntil, `windowStart, `strikes
      ensures Value() == Ban(0, 0, now, old(bans))
    {
      bannedUntil := 0;
      strikes := 0;
      windowStart := now;
    }

    method Fill(until: Time, strikes: int, now: Time, bans: int)
      modifies `bannedUntil, `strikes, `windowStart, `bans
      ensures Value() == Ban(until, strikes, now, bans)
    {
      this.strikes := strikes;
      windowStart := now;
      bannedUntil := until;
      this.bans := bans;
    }

    /** One more strike, and a ban if it is one too many. */
    method CountStrike(c: Config, now: Time)
      modifies `strikes, `bans, `bannedUntil
      ensures Value() == Counted(c, old(Value()), now)
    {
      strikes := strikes + 1;
      if strikes >= c.threshold {
        bans := bans + 1;
        var d := BanTTLWithEscalation(c, bans);
        bannedUntil := now + d;
      }
    }

    /** Wiped for the pool; the ban count only where the caller clears it. */
    method Wipe(clearBans: bool)
      modifies this
      ensures strikes == 0 && home == None
    {
      bannedUntil := 0;
      strikes := 0;
      windowStart := 0;
      if clearBans {
        bans := 0;
      }
      home := None;
    }
  }

  /** `banTTLWithEscalation`. */
  method BanTTLWithEscalation(c: Config, bans: int) returns (d: int)
    ensures d == BanLength(c, bans)
  {
    if c.escalation <= 0 || bans <= 1 { return c.ttl; }
    var shift := Min(bans - 1, c.escalation);
    if shift > 30 {
      shift := 30;
    }
    d := ShiftLeft(c.ttl, shift);
  }

  /** `k * (1 << shift)`. */
  method ShiftLeft(k: int, shift: nat) returns (r: int)
    ensures r == Doubled(k, shift)
  {
    var factor := 1;
    ghost var doubled := k;
    for i := 0 to shift
      invariant doubled == k * factor && doubled == Doubled(k, i)
    {
      factor, doubled := 2 * factor, 2 * doubled;
    }
    r := k * factor;
  }

  class Guard {
    const cfg: Config
    var ents: map<string, BanEntry>
    var pool: set<BanEntry>
    ghost var all: set<BanEntry>   // every entry ever handed out or pooled

    /** The table the objects stand for. */
    ghost function Model(): Table
      reads this, ents.Values
    {
      map k | k in ents :: ents[k].Value()
    }

    /** A pooled entry serves nobody and carries no strikes; `Strike` relies on that, as it does not reset them. */
    ghost predicate PoolOk()
      reads this, all
    {
      pool <= all && forall e :: e in pool ==> e.home == None && e.strikes == 0
    }

    /** A live entry serves exactly the client it is filed under. */
    ghost predicate Live()
      reads this, all
    {
      forall k :: k in ents ==> ents[k] in all && ents[k].home == Some(k)
    }

    ghost predicate Valid()
      reads this, all
    {
      PoolOk() && Live()
    }

    constructor (c: Config)
      ensures Valid() && cfg == c && Model() == map[] && fresh(all)
    {
      cfg := c;
      ents, pool, all := map[], {}, {};
    }

    /** Live entries are pairwise distinct, and none of them is also in the pool. */
    lemma NothingShared(k1: string, k2: string)
      requires Valid() && k1 in ents && k2 in ents
      ensures ents[k1] !in pool
      ensures ents[k1] == ents[k2] ==> k1 == k2
    {
    }

    /** `banEntryPool.Get`: any pooled object, or a new one. */
    method Take() returns (e: BanEntry)
      requires Valid()
      modifies `pool, `all
      ensures Valid() && e !in pool && e.home == None && e.strikes == 0
      ensures e in old(all) || fresh(e)
      ensures all == old(all) + {e} && pool <= old(pool)
    {
      if
      case true =>
        e := new BanEntry();
        all := all + {e};
      case pool != {} =>
        e :| e in pool;
        pool := pool - {e};
    }

    /** `Banned`. */
    method Banned(key: string, now: Time) returns (banned: bool)
      requires Valid()
      modifies all
      ensures Valid() && Model() == Apply(cfg, old(Model()), Check(key, now))
      ensures banned == (key != "" && key in old(Model()) && Checked(old(Model())[key], now).1)
    {
      if key == "" || key !in ents { return false; }
      var e := ents[key];
      if e.bannedUntil == 0 || now > e.bannedUntil {
        if e.bannedUntil != 0 && now > e.bannedUntil {
          e.bannedUntil := 0;
          e.strikes := 0;
        }
        return false;
      }
      return true;
    }

    /** An entry that serves nobody is filed under a client. */
    method Attach(key: string, e: BanEntry)
      requires Valid() && key !in ents && e in all && e !in pool && e.home == None
      modifies `ents, e`home
      ensures Valid() && ents == old(ents)[key := e] && Model() == old(Model())[key := old(e.Value())]
    {
      e.home := Some(key);
      ents := ents[key := e];
    }

    /** A first strike: the entry may be recycled, and its strikes are not reset here. */
    method FirstStrike(key: string, now: Time) returns (e: BanEntry)
      requires Valid() && key !in ents
      modifies `ents, `pool, `all, all
      ensures Valid() && fresh(all - old(all)) && key in ents && e == ents[key]
      ensures Model() == old(Model())[key := Ban(0, 0, now, 0)]
    {
      e := Take();
      e.Renew(now);
      assert Model() == old(Model());
      Attach(key, e);
    }

    /** The part of `Strike` that finds or makes the entry and opens its window. */
    method OpenWindow(key: string, now: Time) returns (e: BanEntry)
      requires Valid() && key != ""
      modifies `ents, `pool, `all, all
      ensures Valid() && fresh(all - old(all)) && key in ents && e == ents[key]
      ensures Model() == old(Model())[key := Windowed(cfg, Get(old(Model()), key), now)]
    {
      if key !in ents {
        e := FirstStrike(key, now);
      } else {
        e := ents[key];
        if now - e.windowStart > cfg.ttl {
          e.Reopen(now);
        }
      }
    }

    /** The part of `Strike` that counts and bans. */
    method Count(key: string, e: BanEntry, now: Time)
      requires Valid() && key in ents && e == ents[key]
      modifies e`strikes, e`bans, e`bannedUntil
      ensures Valid() && Model() == old(Model())[key := Counted(cfg, old(Model())[key], now)]
    {
      e.CountStrike(cfg, now);
    }

    /** `Strike`. */
    method Strike(key: string, now: Time)
      requires Valid()
      modifies this, all
      ensures Valid() && fresh(all - old(all)) && Model() == Apply(cfg, old(Model()), Event.Strike(key, now))
    {
      if key == "" { return; }
      var e := OpenWindow(key, now);
      Count(key, e, now);
      StruckInSteps(cfg, old(Model()), key, now);
    }

    /** An entry is wiped and put back: `BanUntil` also clears its ban count, `Unban` and `Sweep` do not. */
    method Drop(key: string, clearBans: bool)
      requires Valid() && key in ents
      modifies `ents, `pool, all
      ensures Valid() && Model() == old(Model()) - {key}
    {
      var e := ents[key];
      ents := ents - {key};
      e.Wipe(clearBans);
      pool := pool + {e};
    }

    /** `BanUntil`; the entry it takes may be the very one it has just put back. */
    method BanUntil(key: string, until: Time, now: Time)
      requires Valid()
      modifies this, all
      ensures Valid() && fresh(all - old(all)) && Model() == Apply(cfg, old(Model()), Impose(key, until, now))
    {
      if key == "" || until == 0 || until < now { return; }
      var bans := 0;
      if key in ents {
        bans := ents[key].bans;
        Drop(key, true);
      }
      File(key, until, now, bans);
    }

    method File(key: string, until: Time, now: Time, bans: int)
      requires Valid() && key !in ents
      modifies `ents, `pool, `all, all
      ensures Valid() && fresh(all - old(all))
      ensures Model() == old(Model())[key := Ban(until, cfg.threshold, now, bans + 1)]
    {
      var e := Take();
      e.Fill(until, cfg.threshold, now, bans + 1);
      assert Model() == old(Model());
      Attach(key, e);
    }

    /** `Unban`. */
    method Unban(key: string) returns (found: bool)
      requires Valid()
      modifies `ents, `pool, all
      ensures Valid()
      ensures found == (key != "" && key in old(Model()))
      ensures Model() == if key == "" then old(Model()) else Apply(cfg, old(Model()), Lift(key))
    {
      if key == "" || key !in ents { return false; }
      Drop(key, false);
      return true;
    }

    /** The ban part of `Sweep`; `before` names the table it starts from. */
    method SweepBans(cutoff: Time, ghost before: Table)
      requires Valid() && Model() == before
      modifies `ents, `pool, all
      ensures Valid() && Model() == Apply(cfg, before, Sweep(cutoff))
    {
      var todo := ents.Keys;
      SweptNone(before, cutoff);
      while todo != {}
        invariant Valid() && todo <= Model().Keys
        invariant Model() == SweptExcept(before, todo, cutoff)
        decreases |todo|
      {
        var k :| k in todo;
        SweptStep(before, todo, k, cutoff);
        var e := ents[k];
        assert e.Value() == before[k];
        if (e.bannedUntil != 0 && e.bannedUntil < cutoff) || (e.bannedUntil == 0 && e.windowStart < cutoff) {
          Drop(k, false);
        }
        todo := todo - {k};
      }
      SweptAll(before, todo, cutoff);
    }
  }

  /** The record `Strike` counts on. */
  function Windowed(c: Config, r: Option<Ban>, now: Time): Ban {
    if r.None? then Ban(0, 0, now, 0)
    else if now - r.value.windowStart > c.ttl then Ban(0, 0, now, r.value.bans)
    else r.value
  }

  function Counted(c: Config, e: Ban, now: Time): Ban {
    if e.strikes + 1 >= c.threshold
    then Ban(now + BanLength(c, e.bans + 1), e.strikes + 1, e.windowStart, e.bans + 1)
    else e.(strikes := e.strikes + 1)
  }

  lemma StruckInSteps(c: Config, t: Table, key: string, now: Time)
    requires key != ""
    ensures var t1 := t[key := Windowed(c, Get(t, key), now)];
      t1[key := Counted(c, t1[key], now)] == Apply(c, t, Event.Strike(key, now))
  {
    var w := Windowed(c, Get(t, key), now);
    assert t[key := w][key := Counted(c, w, now)] == t[key := Counted(c, w, now)];
  }

  /** The table with the clients in `todo` still to be visited. */
  function SweptExcept(t: Table, todo: set<string>, cutoff: Time): Table {
    map k | k in t && (k in todo || !Expired(t[k], cutoff)) :: t[k]
  }

  lemma SweptNone(t: Table, cutoff: Time)
    ensures SweptExcept(t, t.Keys, cutoff) == t
  {
  }

  lemma SweptAll(t: Table, todo: set<string>, cutoff: Time)
    requires todo == {}
    ensures SweptExcept(t, todo, cutoff) == SweptTable(t, cutoff)
  {
  }

  lemma SweptStep(t: Table, todo: set<string>, k: string, cutoff: Time)
    requires k in todo && k in SweptExcept(t, todo, cutoff)
    ensures k in t && SweptExcept(t, todo, cutoff)[k] == t[k]
    ensures SweptExcept(t, todo - {k}, cutoff) ==
      if Expired(t[k], cutoff) then SweptExcept(t, todo, cutoff) - {k} else SweptExcept(t, todo, cutoff)
  {
  }

  // ---------------------------------------------------------------------------
  // Runs of the program

  lemma NoEmptyKey(c: Config, t: Table, e: Event)
    requires "" !in t
    ensures "" !in Apply(c, t, e)
  {
  }

  /** One event on a guard. */
  method TakeEvent(g: Guard, e: Event) returns (answer: seq<bool>)
    requires g.Valid() && "" !in g.Model()
    modifies g, g.all
    ensures g.Valid() && "" !in g.Model() && fresh(g.all - old(g.all))
    ensures g.Model() == Apply(g.cfg, old(g.Model()), e) && answer == Answer(old(g.Model()), e)
  {
    NoEmptyKey(g.cfg, g.Model(), e);
    answer := [];
    match e
    case Strike(key, at) => g.Strike(key, at);
    case Check(key, at) =>
      var banned := g.Banned(key, at);
      answer := [banned];
    case Impose(key, until, at) => g.BanUntil(key, until, at);
    case Lift(key) => var _ := g.Unban(key);
    case Sweep(cutoff) => g.SweepBans(cutoff, g.Model());
  }

  /** The events from `i` on lead from here to where the run ends, and complete its answers. */
  ghost predicate Answering(g: Guard, run: seq<Event>, i: nat, answers: seq<bool>)
    requires i <= |run|
    reads g, g.ents.Values
  {
    && After(g.cfg, g.Model(), run[i..]) == After(g.cfg, map[], run)
    && answers + Answers(g.cfg, g.Model(), run[i..]) == Answers(g.cfg, map[], run)
  }

  lemma RunStep(c: Config, t: Table, run: seq<Event>, i: nat)
    requires i < |run|
    ensures After(c, t, run[i..]) == After(c, Apply(c, t, run[i]), run[i + 1..])
    ensures Answers(c, t, run[i..]) == Answer(t, run[i]) + Answers(c, Apply(c, t, run[i]), run[i + 1..])
  {
    assert run[i..][1..] == run[i + 1..];
  }

  /** The next event of a run. */
  method AnswerNext(g: Guard, run: seq<Event>, i: nat, answers: seq<bool>) returns (answers': seq<bool>)
    requires g.Valid() && "" !in g.Model() && i < |run| && Answering(g, run, i, answers)
    modifies g, g.all
    ensures g.Valid() && "" !in g.Model() && fresh(g.all - old(g.all)) && Answering(g, run, i + 1, answers')
  {
    RunStep(g.cfg, g.Model(), run, i);
    ghost var rest := Answers(g.cfg, Apply(g.cfg, g.Model(), run[i]), run[i + 1..]);
    var answer := TakeEvent(g, run[i]);
    assert (answers + answer) + rest == answers + (answer + rest);
    answers' := answers + answer;
  }

  /** A whole run on a new guard, recycled entries and all. */
  method RunGuard(c: Config, run: seq<Event>) returns (answers: seq<bool>, g: Guard)
    ensures g.Valid() && g.Model() == After(c, map[], run) && answers == Answers(c, map[], run)
  {
    g := new Guard(c);
    answers := [];
    assert run[0..] == run;
    for i := 0 to |run|
      invariant g.Valid() && g.cfg == c && fresh(g) && fresh(g.all) && "" !in g.Model()
      invariant Answering(g, run, i, answers)
    {
      answers := AnswerNext(g, run, i, answers);
    }
    assert answers + [] == answers;
  }
}
