/** How much work a challenge asks for, `selectEffort`, and what counts as a solution of it, `VerifySolution`. */
module Effort {
  import opened Basics
  import opened Binary
  import opened Canonical
  import PoW = ProofOfWork

  const SHA256 := "SHA-256"
  const PBKDF2 := "PBKDF2-SHA256"
  const ARGON2ID := "ARGON2ID"

  datatype Risk = Low | Elevated | High

  datatype Choice = Choice(algorithm: string, difficulty: int, params: map<string, int>)

  /** `selectEffort`; `mode` is the configured algorithm, trimmed and in lower case. */
  function SelectEffort(mode: string, configured: int, risk: Risk): Choice {
    var difficulty := if configured <= 0 then 16 else configured;
    if mode == "sha256" || mode == "sha-256" then Choice(SHA256, difficulty, map[])
    else if mode == "pbkdf2" || mode == "pbkdf2-sha256" then Choice(PBKDF2, difficulty, map["iterations" := 10000])
    else if mode == "argon2id" then
      Choice(ARGON2ID, difficulty, map["memory" := 19456, "iterations" := 2, "parallelism" := 1])
    else
      match risk
      case High => Choice(SHA256, if difficulty >= 18 then 22 else difficulty + 4, map[])
      case Elevated => Choice(SHA256, if difficulty >= 18 then 20 else difficulty + 2, map[])
      case Low => Choice(SHA256, difficulty, map[])
  }

  /** The three kinds of effort there are. */
  lemma EffortKinds(mode: string, configured: int, risk: Risk)
    ensures var c := SelectEffort(mode, configured, risk);
      && c.difficulty >= 1
      && (|| (c.algorithm == SHA256 && c.params == map[])
          || (c.algorithm == PBKDF2 && c.params.Keys == {"iterations"})
          || (c.algorithm == ARGON2ID && c.params.Keys == {"memory", "iterations", "parallelism"}))
  {
  }

  /** No name among these contains a separator. */
  lemma NamesClean(name: string)
    requires name in {SHA256, PBKDF2, ARGON2ID, "memory", "iterations", "parallelism"}
    ensures '|' !in name && '=' !in name
  {
  }

  /** Only one algorithm is ever asked for with more than one parameter, and no name is ambiguous. */
  lemma FewParamsButArgon(mode: string, configured: int, risk: Risk)
    ensures var c := SelectEffort(mode, configured, risk);
      && (|c.params| <= 1 || c.algorithm == ARGON2ID) && '|' !in c.algorithm
      && (forall k :: k in c.params ==> '=' !in k && '|' !in k)
  {
    var c := SelectEffort(mode, configured, risk);
    EffortKinds(mode, configured, risk);
    NamesClean(c.algorithm);
    forall k | k in c.params.Keys ensures '=' !in k && '|' !in k {
      NamesClean(k);
    }
    assert |c.params| == |c.params.Keys|;
  }

  /** What the adaptive mode asks for, said of the difficulty configured. */
  lemma AdaptiveEffort(mode: string, configured: int, risk: Risk)
    requires mode !in {"sha256", "sha-256", "pbkdf2", "pbkdf2-sha256", "argon2id"}
    ensures var d := if configured <= 0 then 16 else configured; var c := SelectEffort(mode, configured, risk);
      && c.algorithm == "SHA-256" && c.params == map[]
      && c.difficulty == (if risk.Low? then d else if risk.Elevated? then Min(d + 2, 20) else Min(d + 4, 22))
  {
  }

  /** More risk never means less work exactly up to a difficulty of 20; above that the fixed tiers lie below it. */
  lemma RiskRaisesEffortIff(mode: string, configured: int)
    requires mode !in {"sha256", "sha-256", "pbkdf2", "pbkdf2-sha256", "argon2id"}
    ensures
      (&& SelectEffort(mode, configured, Low).difficulty <= SelectEffort(mode, configured, Elevated).difficulty
       && SelectEffort(mode, configured, Elevated).difficulty <= SelectEffort(mode, configured, High).difficulty)
      <==> configured <= 20
  {
    AdaptiveEffort(mode, configured, Low);
    AdaptiveEffort(mode, configured, Elevated);
    AdaptiveEffort(mode, configured, High);
  }

  /** The fixed modes. */
  lemma FixedEffort(mode: string, configured: int, risk: Risk)
    ensures var d := if configured <= 0 then 16 else configured; var c := SelectEffort(mode, configured, risk);
      && (mode in {"sha256", "sha-256"} ==> c == Choice("SHA-256", d, map[]))
      && (mode in {"pbkdf2", "pbkdf2-sha256"} ==> c == Choice("PBKDF2-SHA256", d, map["iterations" := 10000]))
      && (mode == "argon2id" ==>
            c == Choice("ARGON2ID", d, map["memory" := 19456, "iterations" := 2, "parallelism" := 1]))
  {
  }

  /** `maxNumberFor`: how far a solver may have to search. */
  function MaxNumberFor(difficulty: int): nat {
    if difficulty <= 0 then 0x1_0000
    else if difficulty >= 28 then 0x1_0000_0000
    else Pow2(Min(difficulty + 3, 32))
  }

  lemma MaxNumberBounds(difficulty: int)
    ensures 1 <= MaxNumberFor(difficulty) <= 0x1_0000_0000
  {
    if 0 < difficulty < 28 {
      Pow2Monotone(difficulty + 3, 32);
      Pow2At32();
    }
  }

  lemma Pow2At32()
    ensures Pow2(32) == 0x1_0000_0000
  {
    Pow2Step(0);
    Pow2Step(8);
    Pow2Step(16);
    Pow2Step(24);
  }

  /** The range leaves eight times the expected work exactly up to a difficulty of 29. */
  lemma RangeIsAmpleIff(difficulty: nat)
    ensures MaxNumberFor(difficulty) >= 8 * Pow2(difficulty) <==> difficulty <= 29
  {
    assert Pow2(difficulty + 3) == 2 * Pow2(difficulty + 2) == 4 * Pow2(difficulty + 1) == 8 * Pow2(difficulty);
    Pow2At32();
    if difficulty >= 30 {
      Pow2Monotone(33, difficulty + 3);
    } else if difficulty >= 28 {
      Pow2Monotone(difficulty + 3, 32);
    }
  }

  /** The challenge is one `IssueChallenge` can issue: its effort is selected, its other texts contain no bar. */
  ghost predicate Issuable(ch: Challenge) {
    && '|' !in ch.challenge && '|' !in ch.salt && '|' !in ch.bind && ch.maxNumber == MaxNumberFor(ch.difficulty)
    && exists mode, configured, risk ::
         Choice(ch.algorithm, ch.difficulty, ch.params) == SelectEffort(mode, configured, risk)
  }

  lemma IssuableIsWell(ch: Challenge)
    requires Issuable(ch)
    ensures WellIssued(ch) && (|ch.params| <= 1 || ch.algorithm == ARGON2ID)
  {
    var mode, configured, risk :|
      Choice(ch.algorithm, ch.difficulty, ch.params) == SelectEffort(mode, configured, risk);
    FewParamsButArgon(mode, configured, risk);
  }

  // ---------------------------------------------------------------------------
  // Solutions

  datatype Solution = Good | Bad | UnknownAlgorithm

  /**
   * The bytes of a string, SHA-256, and the key PBKDF2 derives for a challenge, a salt, a solution and a number of
   * iterations; there is none for a salt that is empty or not hexadecimal.
   */
  datatype Hashes = Hashes(
    bytes: string -> seq<Byte>, sha: seq<Byte> -> seq<Byte>,
    derive: (string, string, nat, int) -> Option<seq<Byte>>)

  function Iterations(params: map<string, int>): int {
    if "iterations" in params && params["iterations"] > 0 then params["iterations"] else 10000
  }

  function SolutionOf(h: Hashes, ch: Challenge, sol: nat): Solution {
    if ch.algorithm == SHA256 || ch.algorithm == "" then
      if PoW.Solves(h.sha, h.bytes(ch.challenge), sol, ch.difficulty) then Good else Bad
    else if ch.algorithm == PBKDF2 then
      var key := h.derive(ch.challenge, ch.salt, sol, Iterations(ch.params));
      if key.Some? && PoW.MeetsDifficulty(key.value, ch.difficulty) then Good else Bad
    else UnknownAlgorithm
  }

  /** What solves a challenge, algorithm by algorithm; an iteration count that is missing or not positive is 10000. */
  lemma SolutionMeans(h: Hashes, ch: Challenge, sol: nat)
    ensures var r := SolutionOf(h, ch, sol);
      var k := if "iterations" in ch.params && ch.params["iterations"] > 0 then ch.params["iterations"] else 10000;
      && (ch.algorithm in {"SHA-256", ""} ==>
            var sum := h.sha(h.bytes(ch.challenge) + [58] + BigEndian(sol, 8));
            (r == Good <==> PoW.MeetsDifficulty(sum, ch.difficulty)))
      && (ch.algorithm == "PBKDF2-SHA256" ==>
            var key := h.derive(ch.challenge, ch.salt, sol, k);
            (r == Good <==> key.Some? && PoW.MeetsDifficulty(key.value, ch.difficulty)))
      && (r == UnknownAlgorithm <==> ch.algorithm !in {"SHA-256", "", "PBKDF2-SHA256"})
  {
  }

  /** `VerifySolution`. */
  method VerifySolution(h: Hashes, ch: Challenge, sol: nat) returns (r: Solution)
    ensures r == SolutionOf(h, ch, sol)
  {
    var ok := false;
    if ch.algorithm == SHA256 || ch.algorithm == "" {
      ok := PoW.CheckPoW(h.sha, h.bytes(ch.challenge), sol, ch.difficulty);
    } else if ch.algorithm == PBKDF2 {
      var key := h.derive(ch.challenge, ch.salt, sol, Iterations(ch.params));
      if key.Some? {
        ok := PoW.Meets(key.value, ch.difficulty);
      }
    } else {
      return UnknownAlgorithm;
    }
    r := if ok then Good else Bad;
  }

  /** A challenge that has a solution at all was not issued with several parameters. */
  lemma SolvedHasFewParams(h: Hashes, ch: Challenge, sol: nat)
    requires Issuable(ch) && SolutionOf(h, ch, sol) == Good
    ensures |ch.params| <= 1
  {
    IssuableIsWell(ch);
  }
}
