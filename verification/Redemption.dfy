/**
 * `VerifyPayload`, end to end: what the signature, the signing string and the single-use nonces achieve together
 * over whole runs of issuing, verifying and sweeping.
 */
module Redemption {
  import opened Basics
  import opened Canonical
  import opened NonceRuns
  import opened Effort
  import NonceStore
  import PoW = ProofOfWork

  datatype Payload = Payload(ch: Challenge, signature: string, solution: string)

  /**
   * The MAC under the server's secret, case folding, number parsing, the hashes and the shard hash; `text` names the
   * string a challenge is signed over.
   */
  datatype Env = Env(
    mac: string -> string, fold: string -> string, parse: string -> Option<nat>,
    hashes: Hashes, hash: Hash, text: Challenge -> string)

  /** `text` is the canonical signing string, which does not depend on any iteration order. */
  ghost predicate TextIsCanonical(env: Env) {
    forall ch {:trigger IsSigningString(env.fold, ch, env.text(ch))} :: IsSigningString(env.fold, ch, env.text(ch))
  }

  /** There is such a `text`, for every way of folding case. */
  lemma TextExists(env: Env)
    ensures exists text :: TextIsCanonical(env.(text := text))
  {
    var text := ch => SigningString(env.fold, ch);
    assert TextIsCanonical(env.(text := text));
  }

  /**
   * The challenges agree on the signed fields; on the parameters too if at most one was issued or the names
   * presented contain no equals sign.
   */
  ghost predicate AgreesWith(env: Env, issued: Challenge, c: Challenge) {
    && Agree(env.fold, issued.(params := map[]), c.(params := map[]))
    && (|issued.params| <= 1 || (forall k :: k in c.params ==> '=' !in k) ==> Agree(env.fold, issued, c))
  }

  /** A challenge with the text of a well-issued one agrees with it in this sense. */
  ghost predicate Faithful(env: Env) {
    forall issued, c {:trigger AgreesWith(env, issued, c)} ::
      WellIssued(issued) && env.text(issued) == env.text(c) ==> AgreesWith(env, issued, c)
  }

  /** The canonical signing string is faithful. */
  lemma CanonicalIsFaithful(env: Env)
    requires TextIsCanonical(env)
    ensures Faithful(env)
  {
    forall issued, c | WellIssued(issued) && env.text(issued) == env.text(c) ensures AgreesWith(env, issued, c) {
      assert IsSigningString(env.fold, issued, env.text(issued)) && IsSigningString(env.fold, c, env.text(c));
      SignedLikeIssued(env.fold, issued, c, env.text(c));
    }
  }

  datatype Verdict = Pass | BadPayload | BindMismatch | TooLate | BadSignature | BadSolution | BadAlgorithm | Reused

  const PROTOCOL_VERSION := 1

  /** The signature is the MAC of the payload's own signing string. */
  predicate Signed(env: Env, p: Payload) {
    env.mac(env.text(p.ch)) == p.signature
  }

  /** What the solution field amounts to. */
  function SolutionVerdict(env: Env, p: Payload): Verdict {
    var n := env.parse(p.solution);
    if n.None? || (p.ch.maxNumber > 0 && n.value > p.ch.maxNumber) then BadSolution
    else match SolutionOf(env.hashes, p.ch, n.value)
      case Good => Pass
      case Bad => BadSolution
      case UnknownAlgorithm => BadAlgorithm
  }

  /** The checks in front of the nonce. */
  function Screened(env: Env, p: Payload, bind: string, at: int): Verdict {
    if p.ch.v != PROTOCOL_VERSION then BadPayload
    else if bind != "" && p.ch.bind != "" && p.ch.bind != bind then BindMismatch
    else if at > p.ch.expires then TooLate
    else if !Signed(env, p) then BadSignature
    else SolutionVerdict(env, p)
  }

  function FromAnswer(a: Answer): Verdict {
    match a
    case Accepted => Pass
    case Expired => TooLate
    case Replay => Reused
  }

  /** The verdict of a manager whose store holds `used`. */
  function VerdictOn(env: Env, used: map<Nonce, int>, p: Payload, bind: string, at: int, now: int): Verdict {
    if Screened(env, p, bind, at) != Pass then Screened(env, p, bind, at)
    else FromAnswer(Judge(used, p.ch.challenge, p.ch.expires - TTL, now))
  }

  /** Each verdict, as a condition on the payload: the first of these that applies, in the order of the source. */
  lemma VerdictMeans(env: Env, used: map<Nonce, int>, p: Payload, bind: string, at: int, now: int)
    ensures
      var v := VerdictOn(env, used, p, bind, at, now);
      var stranger := bind != "" && p.ch.bind != "" && p.ch.bind != bind;
      var forged := env.mac(env.text(p.ch)) != p.signature;
      var n := env.parse(p.solution);
      var outside := n.None? || (p.ch.maxNumber > 0 && n.value > p.ch.maxNumber);
      var presentable := p.ch.v == 1 && !stranger && at <= p.ch.expires;
      var solved := presentable && !forged && !outside && SolutionOf(env.hashes, p.ch, n.value) == Good;
      && (v == BadPayload <==> p.ch.v != 1)
      && (v == BindMismatch <==> p.ch.v == 1 && stranger)
      && (v == BadSignature <==> presentable && forged)
      && (v == BadSolution <==>
            presentable && !forged && (outside || SolutionOf(env.hashes, p.ch, n.value) == Bad))
      && (v == BadAlgorithm <==>
            presentable && !forged && !outside && SolutionOf(env.hashes, p.ch, n.value) == UnknownAlgorithm)
      && (v == TooLate <==> p.ch.v == 1 && !stranger && (at > p.ch.expires || (solved && now > p.ch.expires)))
      && (v == Reused <==> solved && now <= p.ch.expires && p.ch.challenge in used)
      && (v == Pass <==> solved && now <= p.ch.expires && p.ch.challenge !in used)
  {
  }

  /** A payload bound to somebody else never passes, and leaves the nonces alone. */
  lemma StrangerTurnedAway(env: Env, used: map<Nonce, int>, p: Payload, bind: string, at: int, now: int)
    requires bind != "" && p.ch.bind != "" && p.ch.bind != bind
    ensures VerdictOn(env, used, p, bind, at, now) in {BadPayload, BindMismatch}
    ensures Apply(env.hash, used, EventOf(env, Verify(p, bind, at, now))) == used
  {
  }

  /** Whatever does not pass leaves the nonces alone. */
  lemma OnlyPassesConsume(env: Env, used: map<Nonce, int>, p: Payload, bind: string, at: int, now: int)
    ensures Apply(env.hash, used, EventOf(env, Verify(p, bind, at, now))) ==
      if VerdictOn(env, used, p, bind, at, now) == Pass then used[p.ch.challenge := p.ch.expires] else used
  {
  }

  /** One step of a run; a verification reads the clock twice, `at` first and `now` when it comes to the nonce. */
  datatype Step =
    | Issue(ch: Challenge)
    | Verify(p: Payload, bind: string, at: int, now: int)
    | Sweep(shard: nat, sweepNow: int)

  /** What the step does to the nonce store: a payload that fails a check leaves it alone. */
  function EventOf(env: Env, step: Step): Event {
    match step
    case Issue(_) => Other
    case Verify(p, bind, at, now) =>
      if Screened(env, p, bind, at) == Pass then Consume(p.ch.challenge, p.ch.expires - TTL, now) else Other
    case Sweep(shard, now) => SweepShard(shard, now)
  }

  class Manager {
    const env: Env
    const store: NonceStore.Store

    ghost predicate Valid()
      reads this, store, store.shards
    {
      store.Valid() && store.hash == env.hash && TextIsCanonical(env)
    }

    constructor (e: Env)
      requires TextIsCanonical(e)
      ensures Valid() && env == e && store.used == map[] && fresh(store) && fresh(store.shards)
    {
      env := e;
      store := new NonceStore.Store(e.hash);
    }

    /** `verifyChallengeSignature`; `order` is whatever order the parameter map happens to be iterated in. */
    method VerifySignature(p: Payload, order: seq<string>) returns (ok: bool)
      requires TextIsCanonical(env) && Distinct(order) && Elements(order) == p.ch.params.Keys
      ensures ok == Signed(env, p)
    {
      var s := CanonicalChallenge(env.fold, p.ch, order);
      AgreeSignAlike(env.fold, p.ch, p.ch, s, env.text(p.ch));
      ok := env.mac(s) == p.signature;
    }

    /** The part of `VerifyPayload` that concerns the solution. */
    method CheckSolution(p: Payload) returns (v: Verdict)
      ensures v == SolutionVerdict(env, p)
    {
      var n := env.parse(p.solution);
      if n.None? || (p.ch.maxNumber > 0 && n.value > p.ch.maxNumber) { return BadSolution; }
      var r := VerifySolution(env.hashes, p.ch, n.value);
      v := match r
        case Good => Pass
        case Bad => BadSolution
        case UnknownAlgorithm => BadAlgorithm;
    }

    /** `VerifyPayload` on a decoded payload. */
    method VerifyPayload(p: Payload, bind: string, order: seq<string>, at: int, now: int) returns (v: Verdict)
      requires Valid() && Distinct(order) && Elements(order) == p.ch.params.Keys
      modifies store, store.shards
      ensures Valid() && v == VerdictOn(env, old(store.used), p, bind, at, now)
      ensures store.used == Apply(env.hash, old(store.used), EventOf(env, Verify(p, bind, at, now)))
    {
      if p.ch.v != PROTOCOL_VERSION { return BadPayload; }
      if bind != "" && p.ch.bind != "" && p.ch.bind != bind { return BindMismatch; }
      if at > p.ch.expires { return TooLate; }
      var signed := VerifySignature(p, order);
      if !signed { return BadSignature; }
      v := CheckSolution(p);
      if v != Pass { return; }
      var a := store.ConsumeNonce(p.ch.challenge, p.ch.expires - TTL, now);
      v := FromAnswer(a);
    }
  }

  // ---------------------------------------------------------------------------
  // Runs

  function Events(env: Env, steps: seq<Step>): (es: seq<Event>)
    ensures |es| == |steps|
  {
    seq(|steps|, i requires 0 <= i < |steps| => EventOf(env, steps[i]))
  }

  /** Step `j` verifies a payload and passes it. */
  ghost predicate Passes(env: Env, steps: seq<Step>, j: nat) {
    j < |steps| && steps[j].Verify? && AcceptedAt(env.hash, Events(env, steps), j, steps[j].p.ch.challenge)
  }

  /** Passing is what the manager answers when its store has gone through the steps before. */
  lemma PassesIsVerdict(env: Env, steps: seq<Step>, j: nat)
    requires j < |steps| && steps[j].Verify?
    ensures var st := steps[j]; var used := After(env.hash, Events(env, steps)[..j]);
      Passes(env, steps, j) <==> VerdictOn(env, used, st.p, st.bind, st.at, st.now) == Pass
  {
    assert Events(env, steps)[j] == EventOf(env, steps[j]);
  }

  /** The MAC cannot be forged: whatever string a presented signature is good for, the server has signed it before. */
  ghost predicate Unforged(env: Env, steps: seq<Step>) {
    forall j {:trigger SignedBefore(env, steps, j)} ::
      0 <= j < |steps| && steps[j].Verify? && Signed(env, steps[j].p) ==> SignedBefore(env, steps, j)
  }

  ghost predicate SignedBefore(env: Env, steps: seq<Step>, j: nat)
    requires j < |steps| && steps[j].Verify?
  {
    exists i :: 0 <= i < j && SignsText(env, steps[i], env.text(steps[j].p.ch))
  }

  predicate SignsText(env: Env, step: Step, s: string) {
    step.Issue? && env.text(step.ch) == s
  }

  /** The server issues what `IssueChallenge` can issue, never the same random nonce twice. */
  ghost predicate IssuesFresh(steps: seq<Step>) {
    && (forall i {:trigger Issuable(steps[i].ch)} :: 0 <= i < |steps| && steps[i].Issue? ==> Issuable(steps[i].ch))
    && (forall i, k {:trigger SameNonce(steps, i, k)} ::
          0 <= i < |steps| && 0 <= k < |steps| && SameNonce(steps, i, k) ==> i == k)
  }

  predicate SameNonce(steps: seq<Step>, i: nat, k: nat)
    requires i < |steps| && k < |steps|
  {
    steps[i].Issue? && steps[k].Issue? && steps[i].ch.challenge == steps[k].ch.challenge
  }

  ghost predicate Sound(env: Env, steps: seq<Step>) {
    TextIsCanonical(env) && Unforged(env, steps) && IssuesFresh(steps) && Timely(env.hash, Events(env, steps))
  }

  /**
   * Step `j` presents the challenge issued at step `i`: every signed field is the one issued, the parameters with
   * the reservation made there.
   */
  ghost predicate Presents(env: Env, steps: seq<Step>, i: nat, j: nat) {
    && i < j < |steps| && steps[i].Issue? && steps[j].Verify?
    && AgreesWith(env, steps[i].ch, steps[j].p.ch)
  }

  /** Whatever gets as far as the nonce presents a challenge that was issued before. */
  lemma ScreenedWasIssued(env: Env, steps: seq<Step>, j: nat) returns (i: nat)
    requires TextIsCanonical(env) && Unforged(env, steps) && IssuesFresh(steps)
    requires j < |steps| && steps[j].Verify? && EventOf(env, steps[j]).Consume?
    ensures Presents(env, steps, i, j)
  {
    CanonicalIsFaithful(env);
    assert SignedBefore(env, steps, j);
    i :| 0 <= i < j && SignsText(env, steps[i], env.text(steps[j].p.ch));
    assert Issuable(steps[i].ch);
    IssuableIsWell(steps[i].ch);
    assert AgreesWith(env, steps[i].ch, steps[j].p.ch);
  }

  /** So a nonce carries the same issue time whenever it comes up. */
  lemma NoncesKeepTheirIssueTime(env: Env, steps: seq<Step>)
    requires TextIsCanonical(env) && Unforged(env, steps) && IssuesFresh(steps)
    ensures FixedIssue(Events(env, steps))
  {
    var es := Events(env, steps);
    forall j, k | 0 <= j < k < |es| && es[j].Consume? && es[k].Consume? && es[j].nonce == es[k].nonce
      ensures es[j].issued == es[k].issued
    {
      var a := ScreenedWasIssued(env, steps, j);
      var b := ScreenedWasIssued(env, steps, k);
      SameChallenge(env, steps, a, j, b, k);
    }
  }

  lemma SameChallenge(env: Env, steps: seq<Step>, a: nat, j: nat, b: nat, k: nat)
    requires IssuesFresh(steps) && Presents(env, steps, a, j) && Presents(env, steps, b, k)
    ensures steps[j].p.ch.challenge == steps[k].p.ch.challenge <==> a == b
    ensures a == b ==> steps[j].p.ch.expires == steps[k].p.ch.expires
  {
    assert steps[j].p.ch.challenge == steps[a].ch.challenge && steps[j].p.ch.expires == steps[a].ch.expires;
    assert steps[k].p.ch.challenge == steps[b].ch.challenge && steps[k].p.ch.expires == steps[b].ch.expires;
    assert SameNonce(steps, a, b) ==> a == b;
  }

  /** What was found to be solved agrees with what was issued in full: several parameters never come this far. */
  lemma SolvedAgrees(env: Env, issued: Challenge, p: Payload)
    requires Issuable(issued) && AgreesWith(env, issued, p.ch) && SolutionVerdict(env, p) == Pass
    ensures Agree(env.fold, issued, p.ch) && SolutionVerdict(env, p.(ch := issued)) == Pass
  {
    IssuableIsWell(issued);
    assert p.ch.algorithm == issued.algorithm;
  }

  /**
   * Every payload that passes presents a challenge the server issued, agrees with it in everything that is signed,
   * comes before it expires, from whom it was issued to, and solves it with a number in the range issued.
   */
  lemma PassedWasIssued(env: Env, steps: seq<Step>, j: nat) returns (i: nat)
    requires Sound(env, steps) && Passes(env, steps, j)
    ensures Presents(env, steps, i, j) && Agree(env.fold, steps[i].ch, steps[j].p.ch)
    ensures steps[j].at <= steps[i].ch.expires && steps[j].now <= steps[i].ch.expires
    ensures var bind, issued := steps[j].bind, steps[i].ch.bind; bind == "" || issued == "" || bind == issued
    ensures SolutionVerdict(env, steps[j].p.(ch := steps[i].ch)) == Pass
    ensures var n := env.parse(steps[j].p.solution);
      n.Some? && 0 <= n.value <= steps[i].ch.maxNumber && SolutionOf(env.hashes, steps[i].ch, n.value) == Good
  {
    assert Events(env, steps)[j] == EventOf(env, steps[j]);
    i := ScreenedWasIssued(env, steps, j);
    assert Issuable(steps[i].ch);
    MaxNumberBounds(steps[i].ch.difficulty);
    SolvedAgrees(env, steps[i].ch, steps[j].p);
  }

  /** For a challenge issued under SHA-256 that means: a number whose hash is below the threshold issued. */
  lemma PassedSolvesIssued(env: Env, issued: Challenge, p: Payload)
    requires issued.algorithm == SHA256 && SolutionVerdict(env, p.(ch := issued)) == Pass
    ensures var n := env.parse(p.solution);
      n.Some? && PoW.Solves(env.hashes.sha, env.hashes.bytes(issued.challenge), n.value, issued.difficulty)
  {
  }

  /** No challenge is redeemed twice, however its signed text is presented and however often the store is swept. */
  lemma RedeemedAtMostOnce(env: Env, steps: seq<Step>, i: nat, j: nat, k: nat)
    requires Sound(env, steps) && Passes(env, steps, j) && Passes(env, steps, k)
    requires Presents(env, steps, i, j) && Presents(env, steps, i, k)
    ensures j == k
  {
    NoncesKeepTheirIssueTime(env, steps);
    SameChallenge(env, steps, i, j, i, k);
    AcceptedAtMostOnce(env.hash, Events(env, steps), j, k, steps[j].p.ch.challenge);
  }

  ghost predicate RedeemedTwice(env: Env, steps: seq<Step>, i: nat, j: nat, k: nat) {
    && j < k && Passes(env, steps, j) && Passes(env, steps, k)
    && Presents(env, steps, i, j) && Presents(env, steps, i, k)
  }

  /** Whatever is accepted under the nonce of an issued challenge presents that challenge. */
  lemma AcceptedPresents(env: Env, steps: seq<Step>, i: nat, j: nat)
    requires TextIsCanonical(env) && Unforged(env, steps) && IssuesFresh(steps)
    requires i < |steps| && steps[i].Issue? && AcceptedAt(env.hash, Events(env, steps), j, steps[i].ch.challenge)
    ensures Passes(env, steps, j) && Presents(env, steps, i, j)
  {
    assert Events(env, steps)[j] == EventOf(env, steps[j]);
    var a := ScreenedWasIssued(env, steps, j);
    assert SameNonce(steps, a, i);
  }

  /**
   * Without any assumption on clock readings, exactly when an issued challenge is redeemed more than once: when some
   * sweep drops its nonce by its own reading, and a later payload is still in time by an older one.
   */
  lemma RedeemedTwiceIff(env: Env, steps: seq<Step>, i: nat)
    requires TextIsCanonical(env) && Unforged(env, steps) && IssuesFresh(steps) && i < |steps| && steps[i].Issue?
    ensures (exists j, k :: RedeemedTwice(env, steps, i, j, k)) <==>
      exists j, s, k :: ForgottenEarly(env.hash, Events(env, steps), steps[i].ch.challenge, j, s, k)
  {
    var es, n := Events(env, steps), steps[i].ch.challenge;
    NoncesKeepTheirIssueTime(env, steps);
    AcceptedTwiceIff(env.hash, es, n);
    if j, k :| RedeemedTwice(env, steps, i, j, k) {
      assert TwiceAt(env.hash, es, n, j, k);
    }
    if j, k :| TwiceAt(env.hash, es, n, j, k) {
      AcceptedPresents(env, steps, i, j);
      AcceptedPresents(env, steps, i, k);
      assert RedeemedTwice(env, steps, i, j, k);
    }
  }

  /** A payload that is in order and in time passes exactly if its nonce has not passed before. */
  lemma FirstPresentationPasses(env: Env, steps: seq<Step>, j: nat)
    requires Sound(env, steps) && j < |steps| && steps[j].Verify?
    requires Screened(env, steps[j].p, steps[j].bind, steps[j].at) == Pass && steps[j].now <= steps[j].p.ch.expires
    ensures Passes(env, steps, j) <==>
      forall k :: 0 <= k < j && Passes(env, steps, k) ==> steps[k].p.ch.challenge != steps[j].p.ch.challenge
  {
    var es, n := Events(env, steps), steps[j].p.ch.challenge;
    NoncesKeepTheirIssueTime(env, steps);
    if Passes(env, steps, j) {
      forall k | 0 <= k < j && Passes(env, steps, k) ensures steps[k].p.ch.challenge != n {
        if steps[k].p.ch.challenge == n {
          AcceptedAtMostOnce(env.hash, es, k, j, n);
        }
      }
    } else {
      var k := PresentedWasAccepted(env.hash, es, j, n);
      assert Passes(env, steps, k) && steps[k].p.ch.challenge == n;
    }
  }

  ghost function PassedSteps(env: Env, steps: seq<Step>): set<nat> {
    set j: nat | j < |steps| && Passes(env, steps, j)
  }

  ghost function IssueSteps(steps: seq<Step>): set<nat> {
    set i: nat | i < |steps| && steps[i].Issue?
  }

  /** Conservation: no run passes more payloads than challenges were issued. */
  lemma NoMorePassesThanIssues(env: Env, steps: seq<Step>)
    requires Sound(env, steps)
    ensures |PassedSteps(env, steps)| <= |IssueSteps(steps)|
  {
    PassesMatched(env, steps, PassedSteps(env, steps), IssueSteps(steps));
  }

  lemma {:induction false} PassesMatched(env: Env, steps: seq<Step>, passed: set<nat>, issued: set<nat>)
    requires Sound(env, steps) && passed <= PassedSteps(env, steps)
    requires forall i, j :: j in passed && Presents(env, steps, i, j) ==> i in issued
    ensures |passed| <= |issued|
    decreases |passed|
  {
    if j :| j in passed {
      var i := PassedWasIssued(env, steps, j);
      forall a, k | k in passed - {j} && Presents(env, steps, a, k) ensures a in issued - {i} {
        if a == i {
          RedeemedAtMostOnce(env, steps, i, j, k);
        }
      }
      PassesMatched(env, steps, passed - {j}, issued - {i});
    }
  }

  // ---------------------------------------------------------------------------
  // Runs of the program

  /** Some order in which a map with these keys may be iterated. */
  method AnyOrder(keys: set<string>) returns (order: seq<string>)
    ensures Distinct(order) && Elements(order) == keys
  {
    order := [];
    var todo := keys;
    while todo != {}
      invariant Distinct(order) && Elements(order) == keys - todo && todo <= keys
    {
      var k :| k in todo;
      assert k !in Elements(order);
      assert Elements(order + [k]) == Elements(order) + {k};
      order, todo := order + [k], todo - {k};
    }
  }

  lemma EventsPrefix(env: Env, steps: seq<Step>, j: nat)
    requires j < |steps|
    ensures After(env.hash, Events(env, steps)[..j + 1]) ==
      Apply(env.hash, After(env.hash, Events(env, steps)[..j]), EventOf(env, steps[j]))
  {
    var es := Events(env, steps);
    assert es[..j + 1][..j] == es[..j] && es[..j + 1][j] == EventOf(env, steps[j]);
  }

  /** One step on a manager. */
  method TakeStep(m: Manager, step: Step) returns (passed: bool)
    requires m.Valid() && (step.Sweep? ==> step.shard < SHARDS)
    modifies m.store, m.store.shards
    ensures m.Valid() && m.store.used == Apply(m.env.hash, old(m.store.used), EventOf(m.env, step))
    ensures passed <==>
      step.Verify? && VerdictOn(m.env, old(m.store.used), step.p, step.bind, step.at, step.now) == Pass
  {
    match step
    case Issue(_) => passed := false;
    case Sweep(shard, now) =>
      m.store.SweepOne(shard, now);
      passed := false;
    case Verify(p, bind, at, now) =>
      var order := AnyOrder(p.ch.params.Keys);
      var v := m.VerifyPayload(p, bind, order, at, now);
      passed := v == Pass;
  }

  /** The first `j` steps are taken, and what passed is what the theorems above speak of. */
  ghost predicate Taken(m: Manager, steps: seq<Step>, j: nat, passed: seq<bool>)
    reads m, m.store, m.store.shards
  {
    && m.Valid() && j <= |steps| && |passed| == j
    && m.store.used == After(m.env.hash, Events(m.env, steps)[..j])
    && forall i :: 0 <= i < j ==> (passed[i] <==> Passes(m.env, steps, i))
  }

  /** The next step of a run. */
  method TakeNext(m: Manager, steps: seq<Step>, j: nat, passed: seq<bool>) returns (passed': seq<bool>)
    requires Taken(m, steps, j, passed) && j < |steps| && (steps[j].Sweep? ==> steps[j].shard < SHARDS)
    modifies m.store, m.store.shards
    ensures Taken(m, steps, j + 1, passed')
  {
    EventsPrefix(m.env, steps, j);
    StepPasses(m.env, steps, j);
    var ok := TakeStep(m, steps[j]);
    passed' := passed + [ok];
  }

  lemma StepPasses(env: Env, steps: seq<Step>, j: nat)
    requires j < |steps|
    ensures var st := steps[j]; var used := After(env.hash, Events(env, steps)[..j]);
      Passes(env, steps, j) <==> st.Verify? && VerdictOn(env, used, st.p, st.bind, st.at, st.now) == Pass
  {
    if steps[j].Verify? {
      PassesIsVerdict(env, steps, j);
    }
  }

  /** Any run, taken step by step. */
  method RunManager(env: Env, steps: seq<Step>) returns (passed: seq<bool>)
    requires TextIsCanonical(env) && forall j :: 0 <= j < |steps| && steps[j].Sweep? ==> steps[j].shard < SHARDS
    ensures |passed| == |steps| && forall j :: 0 <= j < |steps| ==> (passed[j] <==> Passes(env, steps, j))
  {
    var m := new Manager(env);
    passed := [];
    for j := 0 to |steps|
      invariant m.env == env && fresh(m.store) && fresh(m.store.shards) && Taken(m, steps, j, passed)
    {
      passed := TakeNext(m, steps, j, passed);
    }
  }
}
