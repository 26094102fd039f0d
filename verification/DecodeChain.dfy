/** The bounded search for decodings of an input: `DecodeChain` and its budget. */
module DecodeChain {
  import opened Basics

  type Text = seq<int>

  /** The four decoders; what they recognise is not part of this model. */
  datatype Decoders = Decoders(
    url: Text -> Option<Text>, base64: Text -> Option<Text>, hex: Text -> Option<Text>, unicode: Text -> Option<Text>)

  /** `y` is one decoding step from `x`. */
  predicate Decodes(d: Decoders, x: Text, y: Text) {
    || (d.url(x) == Some(y) && y != x)
    || d.base64(x) == Some(y) || d.hex(x) == Some(y) || d.unicode(x) == Some(y)
  }

  /** `y` is `k` decoding steps from `x`. */
  ghost predicate Reach(d: Decoders, x: Text, y: Text, k: nat)
    decreases k
  {
    if k == 0 then x == y else exists z :: Reach(d, x, z, k - 1) && Decodes(d, z, y)
  }

  /** URL decoding, which the search ignores when it changes nothing. */
  function UrlOf(d: Decoders, x: Text): Option<Text> {
    if d.url(x) == Some(x) then None else d.url(x)
  }

  /** The candidates in the order in which an unhindered search from `x` at depth `d` lists them, after `out`. */
  function Listed(dec: Decoders, out: seq<Text>, x: Text, d: nat, limit: nat): seq<Text>
    requires d <= limit
    decreases limit - d, 2
  {
    if x in out then out else ListedNew(dec, out, x, d, limit)
  }

  function ListedNew(dec: Decoders, out: seq<Text>, x: Text, d: nat, limit: nat): seq<Text>
    requires d <= limit
    decreases limit - d, 1
  {
    if d == limit then out + [x] else ListedBelow(dec, out + [x], x, d, limit)
  }

  /** What the four decoders add, one after the other. */
  function ListedBelow(dec: Decoders, out: seq<Text>, x: Text, d: nat, limit: nat): seq<Text>
    requires d < limit
    decreases limit - d, 0
  {
    var two := ListedIf(dec, ListedIf(dec, out, UrlOf(dec, x), d, limit), dec.base64(x), d, limit);
    ListedIf(dec, ListedIf(dec, two, dec.hex(x), d, limit), dec.unicode(x), d, limit)
  }

  function ListedIf(dec: Decoders, out: seq<Text>, r: Option<Text>, d: nat, limit: nat): seq<Text>
    requires d < limit
    decreases limit - d - 1, 3
  {
    if r.Some? then Listed(dec, out, r.value, d + 1, limit) else out
  }

  /** How many candidates a search `k` levels deep can produce. */
  function TreeSize(k: nat): nat {
    if k == 0 then 1 else 1 + 4 * TreeSize(k - 1)
  }

  function Pow4(k: nat): nat {
    if k == 0 then 1 else 4 * Pow4(k - 1)
  }

  lemma {:induction false} TreeSizeIs(k: nat)
    ensures 3 * TreeSize(k) == Pow4(k + 1) - 1
  {
    if k > 0 {
      TreeSizeIs(k - 1);
    }
  }

  function TotalBytes(s: seq<Text>): nat {
    if s == [] then 0 else TotalBytes(s[..|s| - 1]) + |s[|s| - 1]|
  }

  lemma TotalBytesSnoc(s: seq<Text>, x: Text)
    ensures TotalBytes(s + [x]) == TotalBytes(s) + |x|
  {
    assert (s + [x])[..|s|] == s;
  }

  class Budget {
    const maxBytes: int
    const maxDepth: int
    var used: int
    ghost var late: bool   // the deadline was seen to have passed

    constructor (bytes: int, depth: int)
      ensures maxBytes == bytes && maxDepth == depth && used == 0 && !late
    {
      maxBytes, maxDepth, used, late := bytes, depth, 0, false;
    }

    /** The two reasons for giving up. */
    ghost predicate Spent()
      reads this
    {
      late || (maxBytes > 0 && used > maxBytes)
    }

    /** Whether the deadline has passed: up to the clock. */
    method Expired() returns (b: bool)
      modifies this`late
      ensures late == (b || old(late))
    {
      b := *;
      late := b || late;
    }

    /** `Budget.add`: the bytes are counted even when they turn out to be too many. */
    method Add(n: nat) returns (ok: bool)
      modifies this
      ensures used == old(used) || used == old(used) + n
      ensures ok ==> used == old(used) + n && (maxBytes > 0 ==> used <= maxBytes)
      ensures !ok ==> Spent()
    {
      var late := Expired();
      if late { return false; }
      used := used + n;
      if maxBytes > 0 && used > maxBytes { return false; }
      return true;
    }
  }

  /** `budgetMaxDepth`. */
  function DepthLimit(b: Budget?): nat {
    if b == null || b.maxDepth <= 0 then 3 else b.maxDepth
  }

  /** The candidates from `from` up to `to` that are above the depth limit have all their decodings in `seen`. */
  ghost predicate ExpandedIn(dec: Decoders, out: seq<Text>, depth: seq<nat>, seen: set<Text>, limit: nat,
                             from: nat, to: nat)
    requires |depth| == |out| && to <= |out|
  {
    forall i, y :: from <= i < to && depth[i] < limit && Decodes(dec, out[i], y) ==> y in seen
  }

  /** Once the newest candidate and everything found after it are expanded, all is. */
  lemma FamilyExpanded(dec: Decoders, out0: seq<Text>, depth0: seq<nat>, seen0: set<Text>,
                       out: seq<Text>, depth: seq<nat>, seen: set<Text>, limit: nat, from: nat)
    requires |depth0| == |out0| > from && |depth| == |out| && out0 <= out && depth0 <= depth && seen0 <= seen
    requires ExpandedIn(dec, out0, depth0, seen0, limit, from, |out0| - 1)
    requires forall y :: Decodes(dec, out0[|out0| - 1], y) ==> y in seen
    requires ExpandedIn(dec, out, depth, seen, limit, |out0|, |out|)
    ensures ExpandedIn(dec, out, depth, seen, limit, from, |out|)
  {
    forall i, y | from <= i < |out| && depth[i] < limit && Decodes(dec, out[i], y) ensures y in seen {
      if i < |out0| {
        assert out[i] == out0[i] && depth[i] == depth0[i];
      }
    }
  }

  /** Three levels, unless the budget sets its own limit. */
  lemma DepthLimitIs(b: Budget?)
    ensures b == null ==> DepthLimit(b) == 3
    ensures b != null ==> DepthLimit(b) == if b.maxDepth > 0 then b.maxDepth else 3
  {
  }

  class Search {
    const dec: Decoders
    const input: Text
    var seen: set<Text>
    var out: seq<Text>
    ghost var depth: seq<nat>   // how deep each candidate was found

    constructor (d: Decoders, i: Text)
      ensures dec == d && input == i && seen == {} && out == [] && depth == []
    {
      dec, input, seen, out, depth := d, i, {}, [], [];
    }

    /** Candidate `i` was found at a depth within the limit, and that deep from the input. */
    ghost predicate Found(limit: nat, i: nat)
      requires |depth| == |out| && i < |out|
      reads this
    {
      depth[i] <= limit && Reach(dec, input, out[i], depth[i])
    }

    /** The candidates are distinct, all marked as seen, and all found within the limit. */
    ghost predicate Valid(limit: nat)
      reads this
    {
      && |depth| == |out|
      && (forall x :: x in seen <==> x in out)
      && (forall i, j :: 0 <= i < j < |out| ==> out[i] != out[j])
      && (forall i :: 0 <= i < |out| ==> Found(limit, i))
    }

    /** Every candidate from `from` on that is above the depth limit has all its decodings among the candidates. */
    ghost predicate Expanded(limit: nat, from: nat)
      requires |depth| == |out|
      reads this
    {
      ExpandedIn(dec, out, depth, seen, limit, from, |out|)
    }

    /** Mark, count and append one candidate. */
    method Visit(x: Text, d: nat, limit: nat, budget: Budget?) returns (ok: bool)
      requires Valid(limit) && x !in seen && d <= limit && Reach(dec, input, x, d)
      modifies this, budget
      ensures ok ==> Valid(limit) && out == old(out) + [x] && depth == old(depth) + [d] && seen == old(seen) + {x}
      ensures !ok ==> budget != null && budget.Spent()
      ensures ok && budget != null ==> budget.used == old(budget.used) + |x|
      ensures ok && budget != null && budget.maxBytes > 0 ==> budget.used <= budget.maxBytes
    {
      seen := seen + {x};
      if budget != null {
        ok := budget.Add(|x|);
        if !ok { return; }
      }
      ok := true;
      out, depth := out + [x], depth + [d];
      forall i | 0 <= i < |out| ensures Found(limit, i) {
        if i < |old(out)| {
          assert old(Found(limit, i));
        }
      }
    }

    /** What a successful walk does: the candidates only grow, by at most `room`, and the budget pays for them. */
    twostate predicate Grew(limit: nat, room: nat, budget: Budget?)
      reads this, budget
    {
      && Valid(limit) && old(out) <= out && old(depth) <= depth && old(seen) <= seen
      && |out| <= |old(out)| + room
      && (budget != null ==>
            && budget.used - TotalBytes(out) == old(budget.used) - TotalBytes(old(out))
            && (budget.maxBytes > 0 && old(budget.used) <= budget.maxBytes ==> budget.used <= budget.maxBytes))
    }

    /**
     * `walk`. The source's further test that the depth has not passed the limit can never fire, because it
     * recurses only from above the limit. `from` marks the candidates whose expansion is already complete.
     */
    method Walk(x: Text, d: nat, limit: nat, budget: Budget?, ghost from: nat) returns (ok: bool)
      requires Valid(limit) && limit == DepthLimit(budget) && d <= limit && Reach(dec, input, x, d)
      requires from <= |out| && Expanded(limit, from)
      modifies this, budget
      ensures !ok ==> budget != null && budget.Spent()
      ensures ok ==> Grew(limit, TreeSize(limit - d), budget) && x in seen && Expanded(limit, from)
      ensures ok && x !in old(seen) ==> |out| > |old(out)| && out[|old(out)|] == x && depth[|old(out)|] == d
      ensures ok ==> out == Listed(dec, old(out), x, d, limit)
      decreases limit - d, 2
    {
      if budget != null {
        var late := budget.Expired();
        if late { return false; }
      }
      if x in seen { return true; }
      ok := WalkNew(x, d, limit, budget, from);
    }

    /** `walk` from a text that has not been seen. */
    method WalkNew(x: Text, d: nat, limit: nat, budget: Budget?, ghost from: nat) returns (ok: bool)
      requires Valid(limit) && limit == DepthLimit(budget) && d <= limit && Reach(dec, input, x, d)
      requires from <= |out| && Expanded(limit, from) && x !in seen
      modifies this, budget
      ensures !ok ==> budget != null && budget.Spent()
      ensures ok ==> Grew(limit, TreeSize(limit - d), budget) && x in seen && Expanded(limit, from)
      ensures ok ==> |out| > |old(out)| && out[|old(out)|] == x && depth[|old(out)|] == d
      ensures ok ==> out == ListedNew(dec, old(out), x, d, limit)
      decreases limit - d, 1
    {
      ok := Visit(x, d, limit, budget);
      TotalBytesSnoc(old(out), x);
      if !ok { return; }
      assert Grew(limit, 1, budget);
      if d >= limit { return; }
      ok := WalkChildren(x, d, limit, budget, from);
    }

    /** Everything that `x` decodes to, in this way, has been seen. */
    ghost predicate Followed(r: Option<Text>)
      reads this
    {
      r.Some? ==> r.value in seen
    }

    /** Two decoders, one after the other. */
    method TryBoth(r1: Option<Text>, r2: Option<Text>, x: Text, d: nat, limit: nat, budget: Budget?, ghost from: nat)
      returns (ok: bool)
      requires Valid(limit) && limit == DepthLimit(budget) && d < limit && Reach(dec, input, x, d)
      requires (r1.Some? ==> Decodes(dec, x, r1.value)) && (r2.Some? ==> Decodes(dec, x, r2.value))
      requires from <= |out| && Expanded(limit, from)
      modifies this, budget
      ensures !ok ==> budget != null && budget.Spent()
      ensures ok ==> Grew(limit, 2 * TreeSize(limit - d - 1), budget) && Expanded(limit, from)
      ensures ok ==> Followed(r1) && Followed(r2)
      ensures ok ==> out == ListedIf(dec, ListedIf(dec, old(out), r1, d, limit), r2, d, limit)
      decreases limit - d - 1, 4
    {
      ok := Try(r1, x, d, limit, budget, from);
      if !ok { return; }
      ok := Try(r2, x, d, limit, budget, from);
    }

    /** The recursive part of `walk`, after `x` has been appended. */
    method WalkChildren(x: Text, d: nat, limit: nat, budget: Budget?, ghost from: nat) returns (ok: bool)
      requires Valid(limit) && limit == DepthLimit(budget) && d < limit && Reach(dec, input, x, d)
      requires |out| > from && out[|out| - 1] == x && depth[|out| - 1] == d
      requires ExpandedIn(dec, out, depth, seen, limit, from, |out| - 1)
      modifies this, budget
      ensures !ok ==> budget != null && budget.Spent()
      ensures ok ==> Grew(limit, 4 * TreeSize(limit - d - 1), budget) && Expanded(limit, from)
      ensures ok ==> out == ListedBelow(dec, old(out), x, d, limit)
      decreases limit - d, 0
    {
      ghost var n := |out|;
      ok := TryBoth(UrlOf(dec, x), dec.base64(x), x, d, limit, budget, n);
      if !ok { return; }
      ok := TryBoth(dec.hex(x), dec.unicode(x), x, d, limit, budget, n);
      if !ok { return; }
      FamilyExpanded(dec, old(out), old(depth), old(seen), out, depth, seen, limit, from);
    }

    /** One decoder and, if it succeeded, the walk of what it returned. */
    method Try(r: Option<Text>, x: Text, d: nat, limit: nat, budget: Budget?, ghost from: nat) returns (ok: bool)
      requires Valid(limit) && limit == DepthLimit(budget) && d < limit && Reach(dec, input, x, d)
      requires r.Some? ==> Decodes(dec, x, r.value)
      requires from <= |out| && Expanded(limit, from)
      modifies this, budget
      ensures !ok ==> budget != null && budget.Spent()
      ensures ok ==> Grew(limit, TreeSize(limit - d - 1), budget) && Expanded(limit, from)
      ensures ok ==> Followed(r) && out == ListedIf(dec, old(out), r, d, limit)
      decreases limit - d - 1, 3
    {
      if r.None? { return true; }
      assert Reach(dec, input, r.value, d + 1);
      ok := Walk(r.value, d + 1, limit, budget, from);
    }
  }

  /** What a successful search returns, with the depth at which each candidate was found. */
  ghost predicate Candidates(dec: Decoders, input: Text, res: seq<Text>, depth: seq<nat>, limit: nat) {
    && |depth| == |res| && res != [] && res[0] == input
    && (forall i, j :: 0 <= i < j < |res| ==> res[i] != res[j])
    && (forall i :: 0 <= i < |res| ==> depth[i] <= limit && Reach(dec, input, res[i], depth[i]))
    && (forall i, y :: 0 <= i < |res| && depth[i] < limit && Decodes(dec, res[i], y) ==> y in res)
  }

  /** The search itself. */
  method Collect(dec: Decoders, input: Text, limit: nat, budget: Budget?)
    returns (ok: bool, res: seq<Text>, ghost depth: seq<nat>)
    requires limit == DepthLimit(budget)
    modifies budget
    ensures !ok ==> budget != null && budget.Spent()
    ensures ok ==> Candidates(dec, input, res, depth, limit) && |res| <= TreeSize(limit)
    ensures ok ==> res == Listed(dec, [], input, 0, limit)
    ensures ok && budget != null ==> budget.used == old(budget.used) + TotalBytes(res)
    ensures ok && budget != null && budget.maxBytes > 0 && old(budget.used) <= budget.maxBytes ==>
      budget.used <= budget.maxBytes
  {
    var s := new Search(dec, input);
    ok := s.Walk(input, 0, limit, budget, 0);
    if !ok { return false, [], []; }
    res, depth := s.out, s.depth;
    forall i | 0 <= i < |res| ensures depth[i] <= limit && Reach(dec, input, res[i], depth[i]) {
      assert s.Found(limit, i);
    }
  }

  /** `DecodeChain`. */
  method Decode(dec: Decoders, input: Text, budget: Budget?) returns (ok: bool, res: seq<Text>, ghost depth: seq<nat>)
    modifies budget
    ensures !ok ==> input != [] && budget != null && budget.Spent()
    ensures ok && input == [] ==> res == []
    ensures ok && input != [] ==> Candidates(dec, input, res, depth, DepthLimit(budget))
    ensures ok && input != [] ==> res == Listed(dec, [], input, 0, DepthLimit(budget))
    ensures ok ==> 3 * |res| <= Pow4(DepthLimit(budget) + 1) - 1
    ensures ok && budget != null ==> budget.used == old(budget.used) + TotalBytes(res)
    ensures ok && budget != null && budget.maxBytes > 0 && old(budget.used) <= budget.maxBytes ==>
      budget.used <= budget.maxBytes
  {
    TreeSizeIs(DepthLimit(budget));
    depth := [];
    if input == [] { return true, [], []; }
    ok, res, depth := Collect(dec, input, DepthLimit(budget), budget);
  }

  /** A search that was nowhere cut off by the depth limit has found everything that can be reached at all. */
  lemma {:induction false} UncutSearchIsComplete(dec: Decoders, input: Text, res: seq<Text>, depth: seq<nat>,
                                                 limit: nat, y: Text, k: nat)
    requires Candidates(dec, input, res, depth, limit) && forall i :: 0 <= i < |depth| ==> depth[i] < limit
    requires Reach(dec, input, y, k)
    ensures y in res
    decreases k
  {
    if k > 0 {
      var z :| Reach(dec, input, z, k - 1) && Decodes(dec, z, y);
      UncutSearchIsComplete(dec, input, res, depth, limit, z, k - 1);
      var i :| 0 <= i < |res| && res[i] == z;
    }
  }

  /** Everything that can be reached within the depth limit is among the candidates. */
  ghost predicate Complete(dec: Decoders, input: Text, res: seq<Text>, limit: nat) {
    forall y, k: nat :: k <= limit && Reach(dec, input, y, k) ==> y in res
  }

  /** Candidate `i`, first met at the depth limit and so not expanded, can also be reached in `k` steps, fewer. */
  ghost predicate MetTooLate(dec: Decoders, input: Text, res: seq<Text>, depth: seq<nat>, limit: nat, i: nat, k: nat)
    requires |depth| == |res|
  {
    i < |res| && depth[i] == limit && k < limit && Reach(dec, input, res[i], k)
  }

  /** No such candidate has a decoding that was not found otherwise. */
  ghost predicate NoneLost(dec: Decoders, input: Text, res: seq<Text>, depth: seq<nat>, limit: nat)
    requires |depth| == |res|
  {
    forall i: nat, k: nat, y :: MetTooLate(dec, input, res, depth, limit, i, k) && Decodes(dec, res[i], y) ==> y in res
  }

  lemma {:induction false} NoneLostIsComplete(dec: Decoders, input: Text, res: seq<Text>, depth: seq<nat>, limit: nat,
                                              y: Text, k: nat)
    requires Candidates(dec, input, res, depth, limit) && NoneLost(dec, input, res, depth, limit)
    requires k <= limit && Reach(dec, input, y, k)
    ensures y in res
    decreases k
  {
    if k > 0 {
      var z :| Reach(dec, input, z, k - 1) && Decodes(dec, z, y);
      NoneLostIsComplete(dec, input, res, depth, limit, z, k - 1);
      var i :| 0 <= i < |res| && res[i] == z;
      assert depth[i] == limit ==> MetTooLate(dec, input, res, depth, limit, i, k - 1);
    }
  }

  /** Exactly when a search finds everything within its depth limit. */
  lemma CompleteIff(dec: Decoders, input: Text, res: seq<Text>, depth: seq<nat>, limit: nat)
    requires Candidates(dec, input, res, depth, limit)
    ensures Complete(dec, input, res, limit) <==> NoneLost(dec, input, res, depth, limit)
  {
    if NoneLost(dec, input, res, depth, limit) {
      forall y, k: nat | k <= limit && Reach(dec, input, y, k) ensures y in res {
        NoneLostIsComplete(dec, input, res, depth, limit, y, k);
      }
    }
    if Complete(dec, input, res, limit) {
      forall i: nat, k: nat, y | MetTooLate(dec, input, res, depth, limit, i, k) && Decodes(dec, res[i], y)
        ensures y in res
      {
        assert Reach(dec, input, y, k + 1);
      }
    }
  }

  /** Two ways lead to `[2]`; the search takes the longer one first, and never comes to decode it. */
  const Detour := Decoders(
    x => if x == [0] then Some([1]) else if x == [1] then Some([2]) else None,
    x => if x == [0] then Some([2]) else None,
    x => if x == [2] then Some([3]) else None,
    x => None)

  /** With a depth limit of two it misses a text that is two steps away. */
  lemma DetourMisses()
    ensures Listed(Detour, [], [0], 0, 2) == [[0], [1], [2]]
    ensures Reach(Detour, [0], [3], 2) && !Complete(Detour, [0], Listed(Detour, [], [0], 0, 2), 2)
  {
    assert Listed(Detour, [[0], [1]], [2], 2, 2) == [[0], [1], [2]];
    assert ListedBelow(Detour, [[0], [1]], [1], 1, 2) == [[0], [1], [2]];
    assert Listed(Detour, [[0]], [1], 1, 2) == [[0], [1], [2]];
    ReachFurther(Detour, [0], [0], 0, [2]);
    ReachFurther(Detour, [0], [2], 1, [3]);
  }

  /** Each decoder turns `[0]` into something of its own. */
  const Fan := Decoders(
    x => if x == [0] then Some([1]) else None, x => if x == [0] then Some([2]) else None,
    x => if x == [0] then Some([3]) else None, x => if x == [0] then Some([4]) else None)

  /** They are tried in this order: URL, base64, hexadecimal, Unicode escapes. */
  lemma DecodersInOrder()
    ensures Listed(Fan, [], [0], 0, 1) == [[0], [1], [2], [3], [4]]
  {
    assert Listed(Fan, [[0]], [1], 1, 1) == [[0], [1]];
    assert Listed(Fan, [[0], [1]], [2], 1, 1) == [[0], [1], [2]];
    assert Listed(Fan, [[0], [1], [2]], [3], 1, 1) == [[0], [1], [2], [3]];
    assert Listed(Fan, [[0], [1], [2], [3]], [4], 1, 1) == [[0], [1], [2], [3], [4]];
  }

  lemma ReachFurther(d: Decoders, x: Text, z: Text, k: nat, y: Text)
    requires Reach(d, x, z, k) && Decodes(d, z, y)
    ensures Reach(d, x, y, k + 1)
  {
  }

  function TotalOf(results: seq<seq<Text>>): nat {
    if results == [] then 0 else TotalOf(results[..|results| - 1]) + TotalBytes(results[|results| - 1])
  }

  /** The result for one input. */
  function ResultOf(dec: Decoders, input: Text, limit: nat): seq<Text> {
    if input == [] then [] else Listed(dec, [], input, 0, limit)
  }

  /** The results for the inputs that pass the prefilter, in order. */
  function ResultsOf(dec: Decoders, inputs: seq<Text>, skips: Text -> bool, limit: nat): seq<seq<Text>> {
    if inputs == [] then []
    else
      var n := |inputs| - 1;
      var init := ResultsOf(dec, inputs[..n], skips, limit);
      if skips(inputs[n]) then init else init + [ResultOf(dec, inputs[n], limit)]
  }

  /** One more input adds its result, unless it is skipped. */
  lemma ResultsOfMore(dec: Decoders, inputs: seq<Text>, x: Text, skips: Text -> bool, limit: nat)
    ensures ResultsOf(dec, inputs + [x], skips, limit) ==
      ResultsOf(dec, inputs, skips, limit) + (if skips(x) then [] else [ResultOf(dec, x, limit)])
  {
    assert (inputs + [x])[..|inputs|] == inputs;
  }

  /** The inputs of one request share one budget; `skips` is the prefilter. */
  method DecodeInputs(dec: Decoders, inputs: seq<Text>, skips: Text -> bool, budget: Budget)
    returns (ok: bool, results: seq<seq<Text>>)
    modifies budget
    ensures !ok ==> budget.Spent()
    ensures ok ==> results == ResultsOf(dec, inputs, skips, DepthLimit(budget))
    ensures ok ==> budget.used == old(budget.used) + TotalOf(results)
    ensures ok && budget.maxBytes > 0 && old(budget.used) == 0 ==> TotalOf(results) <= budget.maxBytes
  {
    results := [];
    for i := 0 to |inputs|
      invariant results == ResultsOf(dec, inputs[..i], skips, DepthLimit(budget))
      invariant budget.used == old(budget.used) + TotalOf(results)
      invariant budget.maxBytes > 0 && old(budget.used) == 0 ==> budget.used <= budget.maxBytes
    {
      assert inputs[..i + 1][..i] == inputs[..i];
      var late := budget.Expired();
      if late { return false, results; }
      if !skips(inputs[i]) {
        var found, res, _ := Decode(dec, inputs[i], budget);
        if !found { return false, results; }
        assert (results + [res])[..|results|] == results;
        results := results + [res];
      }
    }
    assert inputs[..|inputs|] == inputs;
    ok := true;
  }
}
