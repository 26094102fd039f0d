# RavenGuard: the engines behind the firewall

RavenGuard is a web application firewall. This project models the self-contained engines that decide what it lets
through and proves what they promise, for every input and every run:

- **Multipattern search** (`Bytes`, `Automaton`, `BreadthFirst`, `AhoCorasick`, `RawPatterns`, `Fold`). The
  Aho-Corasick matcher is built from heap nodes that are rewritten in place into a cyclic automaton. `Automaton` says
  what such an automaton computes without mentioning nodes; `BreadthFirst` says in which order a queue discovers the
  trie; `AhoCorasick` proves that the node graph refines the first because of the second; `RawPatterns` says when that
  is what was asked for; `Fold` proves agreement with the allocation-free case-insensitive search.
- **Concurrency slots** (`SlotAllocator`, `SlotRepair`, `SlotRuns`). `Acquire`, `Release` and the client part of `Sweep`
  are a transition system with one action per atomic operation and any number of threads.
- **Rate limiting** (`TokenBuckets`, `RateLimiter`). Token buckets on values, with theorems over whole runs, and the
  heap program with its two object pools, which refines them.
- **Strikes and bans** (`Bans`, `BanTable`). The same pair for the ban table, whose entries are recycled.
- **Challenges** (`Separators`, `Decimal`, `Sorting`, `Canonical`, `Binary`, `ProofOfWork`, `Effort`, `NonceRuns`,
  `NonceStore`, `Redemption`). The canonical signing string, the proof of work and the effort a challenge asks for, the
  sharded single-use nonces, and what they achieve together over runs of issuing, verifying and sweeping.
- **Body capture** (`BodyCapture`), **decoding** (`DecodeChain`), **request log** (`RequestLog`), **connect limiter**
  (`ConnectLimit`), **overlay addresses** (`AddressPool`) and **routes** (`Router`).

`Basics` holds what several modules share. Clocks, randomness, hashes, MACs and decoders are parameters. Tokens and
instants of the rate limiter are exact reals; other instants are integers.

## What the proofs found

- The matcher skips the bytes of a pattern that are not ASCII. It agrees with substring search for what is left of the
  patterns exactly when something is left of each (`Automaton.AgreementCondition`), and for the patterns as they were
  given exactly when every non-empty pattern with a byte outside ASCII contains a non-empty ASCII pattern
  (`RawPatterns.RawAgreementCondition`).
- `ContainsFold` is case-insensitive search exactly for needles that do not start in upper case
  (`Fold.FoldCondition`).
- The comment in `Acquire` says that re-publishing its counter keeps later calls consistent with a racing `Sweep`. It
  does not cover a sweep that reads zero before the acquire begins and deletes after it has returned. The client limit
  holds in every interleaving only when the global limit already implies it, and the same is true of the interleavings
  in which no step of a sweep falls between an acquire's LoadOrStore and its re-publish
  (`SlotRuns.ClientLimitCondition`). Otherwise it holds in every interleaving that keeps a sweep's read-to-delete
  interval apart from the LoadOrStore-to-Add interval of the same key (`SlotAllocator.ClientLimit`); more generally, in
  every interleaving in which no acquire makes a second counter for a key while some thread still uses the first
  (`SlotRepair.ClientLimitDespiteDeletes`). A delete that falls into the window of an acquire is repaired by its
  re-publish as the comment says (`SlotRepair.DeleteIsRepaired`, `SlotRepair.GrantPublishes`).
- An acquire can be refused although nobody holds the key, by a call that overshot the limit and has not yet taken its
  one back (`SlotRuns.OvershootRefuses`); `SlotAllocator.RefusedIff` says exactly when.
- `AllowN` and the limiter's `Sweep` read the clock before they lock. Among readings that lag at most d behind earlier
  ones, sweeping is invisible exactly when `(maxAge - 2d) * rate >= burst` (`TokenBuckets.TransparencyCondition`). The
  bound of `burst + rate * T` on what is admitted for readings in an interval of length T needs no order of readings at
  all as long as nothing is swept (`TokenBuckets.IntervalBound`), and that patience otherwise
  (`TokenBuckets.SweptIntervalBound`).
- A strike can let a banned client in earlier: it forgets the ban when the window that earned it is over, and
  otherwise replaces it by the next ban of the escalation, which may end before an imposed one. It never does so
  exactly when the window is open or one strike is enough, and the next ban does not end before the one in force
  (`Bans.StrikeShortensIff`; `Bans.StrikeCanLiftBan` and `Bans.StrikeCutsImposedBan` are runs of either kind).
- `ConsumeNonce` reads the clock before it locks the shard. A nonce with a fixed issue time is accepted more than once
  exactly when some sweep drops it by its own reading and a later call still finds it in time by an older one
  (`NonceRuns.AcceptedTwiceIff`; `NonceRuns.StaleReadingAcceptsTwice` is such a schedule). With timely readings a nonce
  is accepted twice exactly if its second token was issued later (`NonceRuns.TwiceCondition`).
- `allowConnect` reads the clock before it takes the lock. For readings that lag by at most d behind earlier ones the
  limit of 20 accepts holds exactly for windows up to a minute less d (`ConnectLimit.WindowCondition`), so for whole
  minutes only when d is zero (`ConnectLimit.LagCondition`); a violation takes a call that prunes what a later, older
  reading still counts (`ConnectLimit.CalmKeepsLimit`).
- In adaptive mode more risk means at least as much work exactly up to a configured difficulty of 20; above that the
  fixed tiers lie below it (`Effort.RiskRaisesEffortIff`). The search range is eight times the expected work, as its
  comment says, exactly up to a difficulty of 29 (`Effort.RangeIsAmpleIff`).
- `DecodeChain` can miss a text within its depth limit, because a text first met at the limit is not decoded again when
  it turns up closer to the input (`DecodeChain.DetourMisses`); `DecodeChain.CompleteIff` says exactly when it does not.
- `Capture` with the largest 64-bit cap overflows its limit and drops the body; with every smaller cap the stream
  stays whole (`BodyCapture.Capture`).
- A comma in a parameter name never makes signing strings ambiguous. An equals sign does: a well-issued challenge is
  the only one with its signing string exactly when it has at most one parameter (`Canonical.UnambiguousIff`). The
  argon2id challenge has three, but as its solutions are always rejected, every payload that passes agrees with its
  challenge in full (`Redemption.PassedWasIssued`).

## Model

| member | source | states |
|---|---|---|
| `Automaton.LongestSuffixIsSuffix` | internal/faststr/ac.go:42-68 | the state assigned to a text is a suffix of it |
| `Automaton.LongestSuffixIsLongest` | internal/faststr/ac.go:42-68 | every trie word that is a suffix of the text is a suffix of that state |
| `Automaton.StepFromState` | internal/faststr/ac.go:53-66 | the state after one more byte depends on the text only through the state before it, which is what lets an edge be copied from the fail state |
| `Automaton.NonAsciiResets` | internal/faststr/ac.go:78-80 | after a byte of 128 or more the only possible state is the root |
| `Automaton.OutMeansPatternIsSuffix` | internal/faststr/ac.go:62-64 | without an empty projection, the flag inherited along fail links says exactly that some pattern is a suffix of the state |
| `Automaton.AcceptsIffOccurs` | internal/faststr/ac.go:71-88 | scanning meets an accepting state if and only if some pattern occurs as a contiguous substring, over all byte strings |
| `Automaton.AgreementCondition` | internal/faststr/ac.go:19-88 | that agreement holds on every text exactly when no pattern projects to the empty word |
| `BreadthFirst.FailStateReady` | internal/faststr/ac.go:52-66 | when a word is taken from the queue its fail state has been expanded and the fail state of each child has been discovered |
| `BreadthFirst.FrontierComplete` | internal/faststr/ac.go:52-67 | an empty queue has visited every word but the root exactly once, shortest first |
| `BreadthFirst.FrontierBounded` | internal/faststr/ac.go:52-67 | the queue never lists more words than the trie has, so the loop ends |
| `AhoCorasick.Matcher.Walk` | internal/faststr/ac.go:25-36 | following a pattern adds exactly the prefixes of its ASCII projection and ends on the node of that projection |
| `AhoCorasick.Matcher.AddLeaf` | internal/faststr/ac.go:31-33 | a new node is a leaf of its own, every other edge, link and flag staying as it was |
| `AhoCorasick.Matcher.InsertAll` | internal/faststr/ac.go:19-37 | the plain trie holds exactly the prefixes of the projections of the non-empty patterns, and marks exactly the projections |
| `AhoCorasick.Matcher.LinkRoot` | internal/faststr/ac.go:43-51 | the root's edges are final and its children are queued |
| `AhoCorasick.Matcher.FailEdge` | internal/faststr/ac.go:58-61 | the edge read from the fail state is already the final one |
| `AhoCorasick.Matcher.LinkChild` | internal/faststr/ac.go:61-64 | a child gets the fail link of its longest proper suffix in the trie, and its flag becomes final |
| `AhoCorasick.Matcher.Expand` | internal/faststr/ac.go:52-67 | one round of the queue loop makes one more word's edges final while other nodes are still plain trie nodes |
| `AhoCorasick.Matcher.BuildFail` | internal/faststr/ac.go:42-68 | terminates, visits every word but the root exactly once, and leaves every edge, fail link and flag as the abstract automaton has them |
| `AhoCorasick.Matcher.ReachIsLongestSuffix` | internal/faststr/ac.go:42-68 | following edges along any text reaches the node of the longest suffix that is a prefix of a projected pattern, accepting exactly when a projected pattern is a suffix of it |
| `AhoCorasick.Matcher.Contains` | internal/faststr/ac.go:71-88 | answers exactly as the abstract scan, over all byte strings |
| `AhoCorasick.NewMatcher` | internal/faststr/ac.go:19-40 | the built matcher is a finished automaton for the projections of the non-empty patterns, on nodes of its own |
| `AhoCorasick.Search` | internal/faststr/ac.go:19-88 | building and scanning finds something if and only if a projected pattern occurs, provided every non-empty pattern has an ASCII byte |
| `RawPatterns.CoveredAgree` | internal/faststr/ac.go:19-40 | when every non-empty pattern with a byte outside ASCII contains a non-empty ASCII one, a projection occurs in a text if and only if a pattern as given does |
| `RawPatterns.RawAgreementCondition` | internal/faststr/ac.go:19-88 | scanning agrees with substring search of the patterns as given, on every text, exactly under that condition |
| `Fold.AppendLower` | internal/faststr/faststr.go:69-78 | keeps the length and every byte outside 65 to 90, and adds 32 to every byte within |
| `Fold.EqualFold` | internal/faststr/faststr.go:46-66 | true if and only if the lengths are equal and each pair of bytes is equal or 32 apart as an upper and a lower letter |
| `Fold.ContainsFold` | internal/faststr/faststr.go:10-34 | for a needle that does not start in upper case, true if and only if it stands somewhere in the text, each byte equal or 32 apart as an upper and a lower letter |
| `Fold.FoldCondition` | internal/faststr/faststr.go:8-34 | that is case-insensitive search on every text exactly when the needle is empty or does not start in upper case |
| `Fold.MatcherAgreesWithFold` | internal/faststr/ac.go:71-88 | for lower-case ASCII patterns, occurrence in the lowered text is a `ContainsFold` hit for some pattern |
| `Fold.SearchFolded` | internal/faststr/faststr.go:10-78 | the automaton on the lowered text and `ContainsFold` asked pattern by pattern give the same answer |
| `SlotAllocator.GlobalDelta` | internal/protect/protect.go:186-225 | every atomic operation moves the global counter by exactly the change in its own thread's claim |
| `SlotAllocator.GlobalLimit` | internal/protect/protect.go:181-225 | in every interleaving the global counter equals holders plus tentative claims and never exceeds the limit |
| `SlotAllocator.ChargeDelta` | internal/protect/protect.go:198-224 | every atomic operation moves each client counter by exactly the change in its own thread's charge |
| `SlotAllocator.ReliedOnIsKept` | internal/protect/protect.go:206-210 | with sweeps kept apart, a counter some thread relies on is neither deleted nor replaced |
| `SlotAllocator.ClientLimit` | internal/protect/protect.go:198-225 | in every interleaving that keeps sweeps and acquires of one key apart, no key has more holders than its limit |
| `SlotAllocator.NothingLeaks` | internal/protect/protect.go:181-225 | when all threads are idle again nothing is left claimed, and no counter charged |
| `SlotRuns.UninterruptedAcquire` | internal/protect/protect.go:181-212 | an acquire that nothing interrupts is granted whenever both limits leave room, with the whole new state |
| `SlotRuns.UninterruptedRelease` | internal/protect/protect.go:214-225 | a release gives both counters back and changes nothing else |
| `SlotRuns.LateDeleteBreaksLimit` | internal/protect/protect.go:355-364 | for every configuration whose client limit is below the global limit there is a run, no step of a sweep falling between an acquire's LoadOrStore and its re-publish, in which a late delete gives one key more holders than its limit |
| `SlotRuns.ClientLimitCondition` | internal/protect/protect.go:181-225 | the client limit holds in every interleaving, and in every interleaving that keeps sweeps out of those windows, exactly when the global limit does not exceed it |
| `SlotAllocator.RefusedIff` | internal/protect/protect.go:198-205 | an acquire that comes to its Add is refused exactly when granted slots and overshooting calls of the key fill its limit |
| `SlotAllocator.TurnedAwayIff` | internal/protect/protect.go:186-194 | before that, in every interleaving, exactly when holders and tentative claims fill the global limit |
| `SlotAllocator.ContentionRetries` | internal/protect/protect.go:186-194 | a compare-and-swap that fails turns nobody away, and one that succeeds claims exactly one |
| `SlotRepair.GrantPublishes` | internal/protect/protect.go:206-211 | in every state, every step into a grant leaves the counter it was charged to published for its key |
| `SlotRepair.DeleteIsRepaired` | internal/protect/protect.go:198-211 | a delete between LoadOrStore and Add, or between Add and check, leaves the state of an undisturbed acquire |
| `SlotRepair.ClientLimitDespiteDeletes` | internal/protect/protect.go:198-225 | whatever sweeps delete and whenever, no key has more holders than its limit as long as no acquire makes a second counter while some thread uses the first |
| `SlotRepair.ApartIsSingle` | internal/protect/protect.go:198-225 | keeping sweeps apart implies that |
| `SlotRepair.AnonymousTouchesNothing` | internal/protect/protect.go:195-197 | a request without a key reads and writes no client counter |
| `SlotRepair.NoAnonymousCounter` | internal/protect/protect.go:195-197 | in no run does the empty key get a counter |
| `SlotRuns.UninterruptedAnonymous` | internal/protect/protect.go:186-197 | such a request is granted as soon as the global limit leaves room |
| `SlotRuns.AnonymousRelease` | internal/protect/protect.go:214-221 | and gives back its place and nothing else |
| `SlotRuns.OvershootRefuses` | internal/protect/protect.go:198-205 | a run in which a call is refused although nobody holds the key |
| `TokenBuckets.RefillTwice` | internal/ratelimit/ratelimit.go:136-142 | refilling in two stages is refilling once, cap included |
| `TokenBuckets.AllowAnswer` | internal/ratelimit/ratelimit.go:86-134 | a request passes exactly if both the client's and, in per-path mode, the path's level cover it |
| `TokenBuckets.CallOnPath` | internal/ratelimit/ratelimit.go:86-134 | in per-path mode a call is answered and paid by the client's level and that of its own path, "/" for the empty one, a cost of zero or less counting as one |
| `TokenBuckets.OtherPathsUntouched` | internal/ratelimit/ratelimit.go:120-133 | no other path and no other client shows anything of it, at any reading |
| `TokenBuckets.CallOnClient` | internal/ratelimit/ratelimit.go:86-118 | otherwise the path does not matter |
| `TokenBuckets.SweepDropsExactly` | internal/ratelimit/ratelimit.go:150-194 | a sweep drops exactly what was last touched before its cutoff: path buckets one by one, a client's bucket once no path bucket is left |
| `TokenBuckets.AllowClientLevel` | internal/ratelimit/ratelimit.go:111-118 | the client's own level pays whatever the path bucket says, and nobody else's level moves |
| `TokenBuckets.TouchedLevel` | internal/ratelimit/ratelimit.go:136-148 | seen from any instant, touching a bucket with any reading never raises it, and draws on it what is let through |
| `TokenBuckets.IntervalBound` | internal/ratelimit/ratelimit.go:86-148 | without sweeps, for readings in any order and paths rotating freely, one client is let through by readings in an interval for at most burst plus rate times its length |
| `TokenBuckets.SweptIntervalBound` | internal/ratelimit/ratelimit.go:86-194 | the same with patient sweeps anywhere, for readings that lag at most d |
| `TokenBuckets.NotFarBelow` | internal/ratelimit/ratelimit.go:136-148 | a reading that lags at most d draws a level at most d seconds' worth below zero |
| `TokenBuckets.SweepUnobservable` | internal/ratelimit/ratelimit.go:150-194 | sweeping buckets that have had time to refill changes no level that a reading still to come can observe |
| `TokenBuckets.SweepsTransparent` | internal/ratelimit/ratelimit.go:86-194 | for readings that lag at most d, a limiter swept patiently anywhere in a run gives the same answers as one that is never swept |
| `TokenBuckets.ImpatientSweepShows` | internal/ratelimit/ratelimit.go:150-194 | sweeping sooner turns a refusal into a grant, for every such age and lag |
| `TokenBuckets.TransparencyCondition` | internal/ratelimit/ratelimit.go:86-194 | among readings that lag at most d, sweeping at a given age is transparent in every run exactly when (age - 2d) times the rate reaches the burst |
| `RateLimiter.RefillAllow` | internal/ratelimit/ratelimit.go:136-148 | the in-place update is the abstract charge |
| `RateLimiter.ClientBucket.Reset` | internal/ratelimit/ratelimit.go:101-107 | a bucket from the pool starts full and without paths whatever it held before |
| `RateLimiter.Limiter.NothingShared` | internal/ratelimit/ratelimit.go:35-56 | no object serves two clients or two paths, and none that is live lies in a pool |
| `RateLimiter.Limiter.AllowN` | internal/ratelimit/ratelimit.go:86-134 | on the table the objects stand for, `AllowN` is the abstract `Allow`, recycled objects included |
| `RateLimiter.Limiter.SweepPaths` | internal/ratelimit/ratelimit.go:159-166 | exactly the path buckets last used before the cutoff go back to the pool |
| `RateLimiter.RunLimiter` | internal/ratelimit/ratelimit.go:86-194 | a limiter taken through any run of calls and sweeps answers as the abstract run |
| `RateLimiter.RunWithAndWithoutSweeps` | internal/ratelimit/ratelimit.go:86-194 | for readings that lag at most d, a limiter swept patiently and one that is never swept give the same answers, within the bound |
| `RateLimiter.Limiter.Sweep` | internal/ratelimit/ratelimit.go:150-194 | on the table the objects stand for, `Sweep` is the abstract sweep, whatever order the maps are visited in |
| `Bans.Isolated` | internal/protect/protect.go:227-422 | a client's record after any run depends on its own operations and the sweeps only |
| `Bans.RunKeepsOk` | internal/protect/protect.go:227-422 | in every run a ban in force was earned: at least the threshold of strikes and at least one ban on record |
| `Bans.NoUnearnedBan` | internal/protect/protect.go:253-281 | in every run nobody is banned for fewer strikes of their own than the threshold, unless a ban was imposed |
| `Bans.ThresholdEarnsBan` | internal/protect/protect.go:253-281 | within one window a new client is banned exactly from the strike that reaches the threshold on |
| `Bans.StrikesAddUp` | internal/protect/protect.go:275-279 | strikes of one window accumulate, and every one from the threshold on counts as a further ban and sets the escalated end |
| `Bans.CheckMeans` | internal/protect/protect.go:227-251 | a check answers by the end of the ban, and takes a ban that has run out off with its strikes, remembering the bans |
| `Bans.RanOutMustReEarn` | internal/protect/protect.go:238-247 | whoever has sat out a ban is not banned again by one strike, unless one is enough |
| `Bans.StrikeCounts` | internal/protect/protect.go:253-281 | what a strike makes of any record: window, strikes, bans and the end of the ban |
| `Bans.ImposedBanHolds` | internal/protect/protect.go:306-333 | an imposed ban holds exactly until the instant given and counts as one more; one in the past is ignored |
| `Bans.LiftedIsForgotten` | internal/protect/protect.go:405-422 | a lifted ban is forgotten with all that led to it |
| `Bans.SweepDropsExactly` | internal/protect/protect.go:335-354 | a sweep drops exactly the records whose ban, or without one whose window's beginning, lies before the cutoff |
| `Bans.SweepKeepsAnswers` | internal/protect/protect.go:335-354 | a sweep whose cutoff is not after an instant changes no answer at that instant |
| `Bans.BanLasts` | internal/protect/protect.go:227-354 | in every run without a strike, a lift or a new ban of the client it stays banned exactly until its ban ends, however often the table is swept |
| `Bans.BansEscalate` | internal/protect/protect.go:285-295 | ban lengths never shrink, double until the cap, and stay between the base and the largest 64-bit duration |
| `Bans.StrikeKeepsBan` | internal/protect/protect.go:253-281 | at the instant of a strike a banned client is still banned exactly when its window is open or one strike is enough |
| `Bans.StrikeShortensIff` | internal/protect/protect.go:253-281 | a strike never lets a client in earlier exactly when, for a banned one, it keeps the ban and the next ban does not end before the one in force |
| `Bans.StrikeCanLiftBan` | internal/protect/protect.go:261-275 | a run in which a strike ends a ban at once |
| `Bans.StrikeCutsImposedBan` | internal/protect/protect.go:275-333 | a run in which a strike in an open window moves the end of an imposed ban from 1000 to 22 |
| `BanTable.BanTTLWithEscalation` | internal/protect/protect.go:285-295 | computes the escalated length |
| `BanTable.Guard.NothingShared` | internal/protect/protect.go:47-63 | live entries are pairwise distinct objects and none lies in the pool |
| `BanTable.Guard.Take` | internal/protect/protect.go:59-63 | whatever the pool hands out serves nobody and has no strikes |
| `BanTable.Guard.Banned` | internal/protect/protect.go:227-251 | the answer and the table afterwards are those of the plain map of records |
| `BanTable.Guard.Strike` | internal/protect/protect.go:253-281 | refines the plain map although it does not reset the strikes of a recycled entry |
| `BanTable.Guard.BanUntil` | internal/protect/protect.go:306-333 | refines the plain map although it may take back the very entry it has just pooled |
| `BanTable.Guard.SweepBans` | internal/protect/protect.go:335-354 | removes exactly the expired records, in any order |
| `BanTable.Guard.Unban` | internal/protect/protect.go:405-422 | removes the record, and reports whether there was one |
| `BanTable.RunGuard` | internal/protect/protect.go:227-422 | a guard taken through any run holds the records and gives the answers of the plain map |
| `Sorting.ExchangeSort` | internal/challenge/protocol.go:281-287 | sorts in place: same elements, no pair out of order, for any strict order |
| `Decimal.ItoaInjective` | internal/challenge/protocol.go:250-263 | different integers are written differently |
| `Canonical.CanonicalParams` | internal/challenge/protocol.go:272-298 | writes the pairs in the one increasing order of the names, whatever order the map is iterated in |
| `Canonical.OrderIrrelevant` | internal/challenge/protocol.go:272-298 | equal maps have one text |
| `Canonical.LessMeans` | internal/challenge/protocol.go:281-287 | the order of the names is by the first character in which they differ |
| `Canonical.ParamsText` | internal/challenge/protocol.go:272-298 | the text of no, one and two parameters, character by character |
| `Canonical.AgreeOnGate` | internal/challenge/protocol.go:184-191 | challenges that agree ask for interaction both or neither |
| `Canonical.SigningStringIs` | internal/challenge/protocol.go:248-270 | the whole string, field by field |
| `Canonical.CanonicalChallenge` | internal/challenge/protocol.go:248-270 | writes the nine fields, each followed by a bar, and the parameters |
| `Canonical.SigningStringInjective` | internal/challenge/protocol.go:248-298 | challenges without bars in text fields and equals signs in names that have one signing string agree on every signed field, gates up to normalisation |
| `Canonical.SignedLikeIssued` | internal/challenge/protocol.go:248-298 | any challenge with the signing string of a well-issued one agrees with it; only two or more parameters need clean names on both sides |
| `Canonical.AgreeSignAlike` | internal/challenge/protocol.go:248-298 | challenges that agree have one signing string |
| `Canonical.BarsCollide` | internal/challenge/protocol.go:248-270 | a bar inside a field can move to its neighbour: different challenges, one string |
| `Canonical.EqualsCollide` | internal/challenge/protocol.go:272-298 | every text of two or more parameters is also the text of a single one, whose name swallows all pairs but the last |
| `Canonical.UnambiguousIff` | internal/challenge/protocol.go:248-298 | a well-issued challenge is the only one with its signing string, up to gate normalisation, exactly when it has at most one parameter |
| `Canonical.SigningStringExists` | internal/challenge/protocol.go:248-298 | every challenge has a signing string |
| `ProofOfWork.LeadingZeroBits` | internal/challenge/challenge.go:312-328 | the count places the bytes, read as a big-endian integer, between two neighbouring powers of two |
| `ProofOfWork.ZerosAreThreshold` | internal/challenge/challenge.go:312-328 | for every d up to the width, at least d leading zeros means below 2^(width - d), and conversely |
| `ProofOfWork.CheckPoW` | internal/challenge/challenge.go:298-308 | accepts exactly when the hash value is below the threshold of the difficulty, for any hash and any difficulty |
| `ProofOfWork.MessageIs` | internal/challenge/challenge.go:298-306 | what is hashed: the nonce, a colon and eight bytes that read as the solution |
| `ProofOfWork.MessageInjective` | internal/challenge/challenge.go:298-306 | different pairs of nonce and solution hash different bytes, colons in nonces notwithstanding |
| `ProofOfWork.SolvePoW` | internal/challenge/challenge.go:330-337 | returns the least solution below 2^32, and fails only if there is none |
| `Binary.BigEndianValue` | internal/challenge/challenge.go:302-303 | reading the eight bytes back gives the solution |
| `Effort.FewParamsButArgon` | internal/challenge/protocol.go:193-228 | only argon2id is selected with more than one parameter, and no algorithm or parameter name contains a separator |
| `Effort.AdaptiveEffort` | internal/challenge/protocol.go:207-227 | low risk asks for the difficulty configured, elevated for two more up to 20, high for four more up to 22 |
| `Effort.FixedEffort` | internal/challenge/protocol.go:194-206 | what the fixed modes ask for |
| `Effort.RiskRaisesEffortIff` | internal/challenge/protocol.go:207-227 | more risk never means less work exactly up to a difficulty of 20 |
| `Effort.RangeIsAmpleIff` | internal/challenge/protocol.go:230-240 | the search range leaves eight times the expected work exactly up to a difficulty of 29 |
| `Effort.SolutionMeans` | internal/challenge/algo.go:15-52 | what solves a challenge, algorithm by algorithm, missing iteration counts included |
| `Effort.VerifySolution` | internal/challenge/algo.go:15-52 | accepts exactly the threshold solutions of the two algorithms it knows; argon2id has none |
| `NonceRuns.JudgeMeans` | internal/challenge/challenge.go:130-158 | a token is good for 300 seconds from its issue, once |
| `NonceRuns.StoredIffHeld` | internal/challenge/challenge.go:146-171 | after any run a nonce is stored exactly if an acceptance of it has not been swept away since |
| `NonceRuns.AcceptedAgainIsYounger` | internal/challenge/challenge.go:130-171 | with timely clock readings only a token issued later can get a nonce accepted again |
| `NonceRuns.AcceptedAtMostOnce` | internal/challenge/challenge.go:130-171 | with a fixed issue time each nonce is accepted at most once in any run, also after it was swept |
| `NonceRuns.AnswersLikeIdeal` | internal/challenge/challenge.go:130-171 | every answer is that of a store that never forgets |
| `NonceRuns.TwiceCondition` | internal/challenge/challenge.go:130-171 | two acceptances for issue times a and then b are possible exactly when a < b |
| `NonceRuns.AcceptedTwiceIff` | internal/challenge/challenge.go:130-171 | for every run with fixed issue times, a nonce is accepted more than once exactly when it is presented in time, dropped by a sweep and presented in time again by an older reading |
| `NonceRuns.StaleReadingAcceptsTwice` | internal/challenge/challenge.go:130-139 | a schedule that meets this condition, and the two acceptances |
| `NonceStore.Store.Consume` | internal/challenge/challenge.go:146-158 | the 256 shards answer and change like one unsharded map |
| `NonceStore.Store.ConsumeNonce` | internal/challenge/challenge.go:130-139 | answer and new store are those of the unsharded map |
| `NonceStore.Store.SweepOne` | internal/challenge/challenge.go:161-170 | sweeping one shard is the abstract step |
| `NonceStore.Store.Sweep` | internal/challenge/challenge.go:160-171 | removes from the unsharded map exactly what expired before `now` |
| `NonceStore.DeleteExpired` | internal/challenge/challenge.go:164-168 | deleting while ranging, in any order, leaves exactly the unexpired entries |
| `Redemption.Manager.VerifySignature` | internal/challenge/protocol.go:300-309 | true exactly if the signature is the MAC of the challenge's signing string, whatever order its parameters are iterated in |
| `Redemption.Manager.VerifyPayload` | internal/challenge/protocol.go:360-390 | the verdict of the first check that fails; a payload that fails a check in front of the nonce leaves the nonces untouched |
| `Redemption.VerdictMeans` | internal/challenge/protocol.go:360-390 | each verdict if and only if a condition on the payload, in the order of the checks |
| `Redemption.StrangerTurnedAway` | internal/challenge/protocol.go:365-367 | a payload bound to somebody else never passes and leaves the nonces alone |
| `Redemption.OnlyPassesConsume` | internal/challenge/protocol.go:360-390 | whatever does not pass leaves the nonces alone, and what passes uses up its own |
| `Redemption.CanonicalIsFaithful` | internal/challenge/protocol.go:242-298 | a challenge with the signing string of a well-issued one agrees with it on all fields but the parameters, and on these if at most one was issued or the names presented contain no equals sign |
| `Redemption.TextExists` | internal/challenge/protocol.go:242-298 | there is a function from challenges to their signing strings |
| `Redemption.PassesIsVerdict` | internal/challenge/protocol.go:360-390 | passing in a run is what the manager answers after the steps before |
| `Redemption.ScreenedWasIssued` | internal/challenge/protocol.go:145-181 | with an unforgeable MAC, whatever reaches the nonce presents a challenge issued before: the same fields, and the same parameters with the reservation just made |
| `Redemption.PassedWasIssued` | internal/challenge/protocol.go:360-390 | every payload that passes presents an issued challenge, agrees with it in everything that is signed, comes before it expires and from whom it was issued to, and solves it with a number in the range issued |
| `Redemption.PassedSolvesIssued` | internal/challenge/algo.go:15-21 | for SHA-256 that means a number whose hash is below the threshold of the issued difficulty |
| `Redemption.RedeemedTwiceIff` | internal/challenge/protocol.go:360-390 | whatever the clock readings, an issued challenge is redeemed more than once exactly when a sweep drops its nonce and a later payload is still in time by an older reading |
| `Redemption.RedeemedAtMostOnce` | internal/challenge/protocol.go:360-390 | no issued challenge is redeemed twice in any run |
| `Redemption.FirstPresentationPasses` | internal/challenge/protocol.go:360-390 | a payload in order and in time passes exactly if its nonce has not passed before |
| `Redemption.NoMorePassesThanIssues` | internal/challenge/protocol.go:145-181 | no run passes more payloads than challenges were issued |
| `Redemption.RunManager` | internal/challenge/protocol.go:360-390 | a manager taken through any run passes exactly the payloads these theorems speak of |
| `BodyCapture.Read` | internal/bodybuf/bodybuf.go:57-60 | any kind of body hands out the next bytes of its content and keeps the rest |
| `BodyCapture.ReadAll` | internal/bodybuf/bodybuf.go:70-86 | what was read and what is left make up the stream, however the reader chunks it; up to the limit unless the source fails |
| `BodyCapture.Capture` | internal/bodybuf/bodybuf.go:25-63 | returns exactly the first min(cap, length) bytes in an array no pool holds, and leaves a body over arrays no pool holds that delivers the whole stream, except with the largest 64-bit cap, when it loses it; fails only if the source does, and then delivers what was not yet read, at most cap + 1 bytes short |
| `BodyCapture.CaptureInTurn` | internal/bodybuf/bodybuf.go:25-86 | after any captures with any smaller caps the stream is whole, as the arrays stand then, and every earlier result still shows its bytes, although pooled buffers were reused |
| `DecodeChain.Budget.Add` | internal/semantic/decode.go:33-45 | success means the bytes were counted and fit; failure means the deadline or the byte limit was passed |
| `DecodeChain.Search.Walk` | internal/semantic/decode.go:68-110 | candidates only grow, by at most the size of the remaining decoding tree, stay distinct, and everything found above the depth limit is fully expanded |
| `DecodeChain.Decode` | internal/semantic/decode.go:55-121 | a result starts with the input, its candidates are distinct, each within the depth limit in decoding steps, closed under decoding above that limit, at most (4^(depth+1) - 1)/3 of them, in the order of a depth-first search; failure only for a spent budget |
| `DecodeChain.TreeSizeIs` | internal/semantic/decode.go:84-109 | the size of a four-way tree |
| `DecodeChain.UncutSearchIsComplete` | internal/semantic/decode.go:55-121 | a search that never met the depth limit has found everything that can be reached in any number of steps |
| `DecodeChain.CompleteIff` | internal/semantic/decode.go:55-121 | a result holds everything reachable within the depth limit exactly when no candidate first met at the limit, but reachable in fewer steps, has a decoding outside the result |
| `DecodeChain.DetourMisses` | internal/semantic/decode.go:55-121 | four decoders and an input for which a text two steps away is missed at a limit of two |
| `DecodeChain.DepthLimitIs` | internal/semantic/decode.go:123-128 | three levels unless the budget sets a positive limit |
| `DecodeChain.DecodersInOrder` | internal/semantic/decode.go:90-109 | URL, base64, hexadecimal and Unicode escapes are tried in this order |
| `DecodeChain.DecodeInputs` | internal/semantic/engine.go:149-163 | one result for each input that passes the prefilter, in order, all together within the shared byte limit |
| `RequestLog.Logger.Record` | internal/requestlog/requestlog.go:118-152 | ring, map and queue stay in agreement and become the recorded log: a known id keeps its place, a new one evicts only the oldest when full, a conflicting one changes nothing |
| `RequestLog.RecordMeans` | internal/requestlog/requestlog.go:118-152 | nothing for an empty id or one held for another binding; a known id is replaced in place; a new one goes to the end, the oldest leaving a full log |
| `RequestLog.Logger.Admit` | internal/requestlog/requestlog.go:133-144 | of a full ring exactly the oldest id leaves ring and map |
| `RequestLog.Logger.Recent` | internal/requestlog/requestlog.go:243-264 | the last entries of the queue, newest first, each with its event |
| `RequestLog.LogQueue` | internal/requestlog/requestlog.go:118-152 | the queue after any records, conflicts included, is the queue of the ids that were not refused |
| `RequestLog.QueueAfterBounded` | internal/requestlog/requestlog.go:133-144 | the queue that any ids make is bounded, without duplicates, and holds the latest id |
| `RequestLog.DistinctRunKeepsNewest` | internal/requestlog/requestlog.go:118-152 | a run of distinct ids leaves exactly the newest, in order of insertion |
| `RequestLog.LogBounded` | internal/requestlog/requestlog.go:118-152 | after any records, conflicts included, the ids held are distinct, within capacity, and exactly those with an event |
| `RequestLog.HeldIsLatest` | internal/requestlog/requestlog.go:127-145 | the event held for an id is the last one recorded for it |
| `RequestLog.DistinctRunHolds` | internal/requestlog/requestlog.go:118-152 | records of distinct ids are never refused, and exactly the newest are held |
| `RequestLog.RecordAllThenRecent` | internal/requestlog/requestlog.go:96-264 | a logger given any events answers with the newest of the log they make |
| `RequestLog.SlotIsRemainder` | internal/requestlog/requestlog.go:138-140 | the remainder is the ring position |
| `ConnectLimit.FilterInPlace` | internal/agentprotocol/hub.go:212-217 | the filter that writes into the slice it reads keeps exactly the unexpired times, in order |
| `ConnectLimit.KeptCountsWindow` | internal/agentprotocol/hub.go:211-223 | in a window no later reading reaches back over, the pruned slice counts as many accepts as the whole history |
| `ConnectLimit.CalmKeepsLimit` | internal/agentprotocol/hub.go:198-224 | for any readings, no half-open minute holds more than 20 accepts unless a call prunes an accept that a later accepted reading is less than a minute from |
| `ConnectLimit.InOrderKeepsLimit` | internal/agentprotocol/hub.go:198-224 | with readings in order no half-open minute of an address's whole history holds more than 20 accepts |
| `ConnectLimit.InOrderAdmits` | internal/agentprotocol/hub.go:211-223 | with readings in order a call is refused exactly when the minute before it holds 20 accepts of the whole history |
| `ConnectLimit.StaleReadingExceedsLimit` | internal/agentprotocol/hub.go:205-223 | for every lag d and every window longer than a minute less d, a schedule with more than 20 accepts in it |
| `ConnectLimit.WindowCondition` | internal/agentprotocol/hub.go:198-224 | for readings that lag at most d, the limit holds in all windows of length w exactly when w is at most a minute less d |
| `ConnectLimit.LagCondition` | internal/agentprotocol/hub.go:198-224 | the limit holds for all readings that lag by at most d exactly when d is zero |
| `ConnectLimit.Hub.AllowConnect` | internal/agentprotocol/hub.go:201-224 | whatever the reading, the in-place slice stays what the readings of its address determine, the answer is theirs too, and other addresses are untouched |
| `AddressPool.CoverIsRange` | internal/nebulapki/nebulapki.go:191-191 | a prefix covers exactly the range that starts at its network address |
| `AddressPool.LastAddr` | internal/nebulapki/nebulapki.go:202-211 | setting the host bits one by one gives network + 2^hostBits - 1 |
| `AddressPool.SetHostBits` | internal/nebulapki/nebulapki.go:207-209 | the same for the four bytes in place |
| `AddressPool.DottedInjective` | internal/nebulapki/nebulapki.go:194-194 | different addresses are written differently |
| `AddressPool.DottedIs` | internal/nebulapki/nebulapki.go:194-194 | an address is written as its four bytes, the highest first, with dots |
| `AddressPool.AllocationErrors` | internal/nebulapki/nebulapki.go:181-187 | the two errors for unsuitable pools, each exactly when it applies |
| `AddressPool.AllocateIP` | internal/nebulapki/nebulapki.go:179-200 | the lowest unused address strictly between network and broadcast among the first 2^20, and otherwise the right error |
| `AddressPool.SeriesExact` | internal/nebulapki/nebulapki.go:188-199 | for any notation that tells addresses apart, repeated allocation succeeds exactly as often as there are hosts to scan, with pairwise different results |
| `AddressPool.AllocatesEachOnce` | internal/nebulapki/nebulapki.go:176-200 | repeated allocation from an empty pool hands out the hosts in order and ends exactly after 2^hostBits - 2 of them up to 20 host bits, and after 2^20 beyond |
| `AddressPool.AllocateAll` | internal/nebulapki/nebulapki.go:176-211 | allocating until failure returns every host once, in order: exactly 2^hostBits - 2 of them up to 20 host bits, and then the pool is exhausted |
| `Router.MatchPrefixIsSegmentPrefix` | internal/router/router.go:406-415 | a prefix matches exactly the paths it covers segment by segment, a trailing slash making no difference |
| `Router.CompileAllMembers` | internal/router/router.go:149-208 | what is compiled is exactly the enabled routes with a known upstream |
| `Router.CompileRoutes` | internal/router/router.go:149-197 | the compiled list, or failure exactly when some usable route's proxy cannot be built |
| `Router.UpstreamsByIdIs` | internal/router/router.go:136-139 | of upstreams with one id the last counts |
| `Router.ServesIsMatch` | internal/router/router.go:149-180 | compiling and matching is being enabled, having a defined upstream, and naming the host and path |
| `Router.AllBuildMeans` | internal/router/router.go:164-177 | a replacement fails exactly if an enabled route with a defined upstream has a proxy that cannot be built |
| `Router.ByIdIsLast` | internal/router/router.go:215-220 | of routes with one id the table by id holds the last |
| `Router.Table.Replace` | internal/router/router.go:135-226 | on success a permutation of the compiled routes with none out of order; on failure the old table |
| `Router.Table.Lookup` | internal/router/router.go:306-323 | a match that no other match beats, and none only when nothing matches |
| `Router.LookupMeansBest` | internal/router/router.go:135-323 | said of the definitions: an enabled route with a defined upstream, for the host and path, and no other such goes before it on priority and prefix length; none only if there is none |
| `Router.ReplaceThenLookup` | internal/router/router.go:135-323 | the same of the program: a lookup after a successful replacement |

## Left out

- HTTP handlers, pages, the admin interface, configuration, storage, TLS, certificates, QUIC and WebSocket transport: plumbing around these engines.
- Live reconfiguration (`Update`, `UpdateConfig`, `ApplyLive`): the bounds are stated for a fixed configuration.
- Nil receivers and disabled guards, which return at once.
- `ContainsString`: the loop of `Contains` over another type.
- 64-bit overflow outside `Capture`: expiry times, ban times and counters are unbounded integers. `Bans.Sane` demands that the longest ban fits 64 bits.
- Rounding of floating-point tokens: the limiter is modelled over exact reals.
- MAC, hash, PBKDF2, base64, JSON and number parsing internals: parameters. `Redemption.Unforged` states what is asked of the MAC.
- What the four decoders recognise: parameters of `DecodeChain`.
- The request log's counters and persistence: independent increments and a call to a foreign store, which touch neither ring nor map.
- `BanNow`, `ClearStrikes`: `BanUntil` and `Unban` with fixed arguments. `ListBans`, `BanCount`: snapshots that change nothing. `Restore`: wraps given bytes in a reader.
- Gate selection and `RiskFromScore`: tables of constants that no engine here depends on.
- `stripPort`: the host a lookup starts from is the stripped one; trimming and lower-casing is a parameter.
- RateLimiter.Limiter.AllowN: one map instead of 256 locked shards, and pools that belong to the limiter; a call is one step. A client lives in one shard, so the shards never share a bucket.
- BanTable.Guard.Strike: one map instead of locked shards, and a pool that belongs to the guard.
- SlotAllocator.ClientLimit: its condition on a run is sufficient; that every run outside it breaks the limit is not claimed, and would be false.
- ConnectLimit.CalmKeepsLimit: its condition on a run is sufficient; a call that prunes too early does no harm while fewer than 20 others fall into the minute.
- SlotAllocator.GlobalLimit: one release for each granted acquire is built into the steps.
- AhoCorasick.Matcher.AddLeaf: the 128 edges of a node are a sequence in a field that is replaced as a whole.
- BodyCapture.Capture: closing the original body is not modelled. The slice returned shares its array with the body, so a caller who writes into it changes the body; the contract speaks of the arrays as the call leaves them.
- DecodeChain.DecodeInputs: the analysis of the candidates, which may also stop at the deadline, is not modelled.
- Redemption.Manager.VerifyPayload: starts from the decoded payload; the browser attestation it carries is not signed and not modelled.
- Router.Table.Lookup: ties on priority and prefix length are broken by the exchange sort, which is not stable; which of them is found is not stated.
