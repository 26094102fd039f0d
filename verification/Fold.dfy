/** ASCII case folding: `ContainsFold`, `equalFoldASCII` and `AppendLowerASCII`. */
module Fold {
  import opened Bytes
  import AhoCorasick

  predicate IsUpper(c: Byte) {
    65 <= c <= 90
  }

  function LowerByte(c: Byte): Byte {
    if IsUpper(c) then c + 32 else c
  }

  function Lower(s: Text): (r: Text)
    ensures |r| == |s|
  {
    seq(|s|, i requires 0 <= i < |s| => LowerByte(s[i]))
  }

  /** The same byte, or the upper and the lower form of one letter, 'A' being 65 and 'a' 97. */
  predicate SameLetter(a: Byte, b: Byte) {
    a == b || (65 <= a <= 90 && b == a + 32) || (65 <= b <= 90 && a == b + 32)
  }

  /** The texts differ in case only. */
  ghost predicate SameSpelling(a: Text, b: Text) {
    |a| == |b| && forall i :: 0 <= i < |a| ==> SameLetter(a[i], b[i])
  }

  /** `p` stands in `t` at `i`, in whatever case. */
  ghost predicate SpelledAt(p: Text, t: Text, i: int) {
    0 <= i <= |t| - |p| && forall k :: 0 <= k < |p| ==> SameLetter(t[i + k], p[k])
  }

  /** Lowering both sides is comparing without regard to case. */
  lemma LowerMeansSpelling(a: Text, b: Text)
    ensures Lower(a) == Lower(b) <==> SameSpelling(a, b)
  {
    if |a| == |b| {
      forall i | 0 <= i < |a| ensures Lower(a)[i] == Lower(b)[i] <==> SameLetter(a[i], b[i]) {
      }
      if Lower(a) == Lower(b) {
        forall i | 0 <= i < |a| ensures SameLetter(a[i], b[i]) {
          assert Lower(a)[i] == Lower(b)[i];
        }
      }
    }
  }

  lemma SpelledIsOccurrence(p: Text, t: Text)
    ensures Occurs(Lower(p), Lower(t)) <==> exists i :: SpelledAt(p, t, i)
  {
    forall i | 0 <= i <= |t| - |p| ensures OccursAt(Lower(p), Lower(t), i) <==> SpelledAt(p, t, i) {
      var slice := t[i..i + |p|];
      LowerOfSlice(t, i, |p|);
      LowerMeansSpelling(slice, p);
      assert forall k :: 0 <= k < |p| ==> slice[k] == t[i + k];
    }
    if i :| OccursAt(Lower(p), Lower(t), i) {
      assert SpelledAt(p, t, i);
    }
    if i :| SpelledAt(p, t, i) {
      assert OccursAt(Lower(p), Lower(t), i);
    }
  }

  /** `AppendLowerASCII`: the buffer followed by the text with A to Z lowered, and nothing else. */
  method AppendLower(dst: Text, s: Text) returns (r: Text)
    ensures r == dst + Lower(s)
    ensures |r| == |dst| + |s| && r[..|dst|] == dst
    ensures forall i :: 0 <= i < |s| ==> r[|dst| + i] == if 65 <= s[i] <= 90 then s[i] + 32 else s[i]
  {
    r := dst;
    for i := 0 to |s|
      invariant r == dst + Lower(s)[..i]
    {
      var c := s[i];
      if IsUpper(c) {
        c := c + 32;
      }
      r := r + [c];
    }
  }

  /** `equalFoldASCII`: both sides are folded. */
  method EqualFold(a: Text, b: Text) returns (eq: bool)
    ensures eq <==> Lower(a) == Lower(b)
    ensures eq <==> |a| == |b| && forall i :: 0 <= i < |a| ==>
      a[i] == b[i] || (65 <= a[i] <= 90 && b[i] == a[i] + 32) || (65 <= b[i] <= 90 && a[i] == b[i] + 32)
  {
    LowerMeansSpelling(a, b);
    if |a| != |b| { return false; }
    for i := 0 to |a|
      invariant forall j :: 0 <= j < i ==> LowerByte(a[j]) == LowerByte(b[j])
    {
      var ca, cb := a[i], b[i];
      if ca != cb {
        if IsUpper(ca) { ca := ca + 32; }
        if IsUpper(cb) { cb := cb + 32; }
        if ca != cb {
          assert Lower(a)[i] != Lower(b)[i];
          return false;
        }
      }
    }
    return true;
  }

  /** A case-insensitive occurrence that also passes the first-byte filter. */
  ghost predicate FoldHitAt(s: Text, sub: Text, i: int) {
    && sub != [] && 0 <= i <= |s| - |sub|
    && (s[i] == sub[0] || s[i] == FirstUpper(sub))
    && Lower(s[i..i + |sub|]) == Lower(sub)
  }

  function FirstUpper(sub: Text): Byte
    requires sub != []
  {
    if 97 <= sub[0] <= 122 then sub[0] - 32 else sub[0]
  }

  ghost predicate FoldHit(s: Text, sub: Text) {
    sub == [] || exists i :: FoldHitAt(s, sub, i)
  }

  /** `ContainsFold`, for any needle. */
  method ContainsFold(s: Text, sub: Text) returns (found: bool)
    ensures found <==> FoldHit(s, sub)
    ensures (sub == [] || !(65 <= sub[0] <= 90)) ==> (found <==> Occurs(Lower(sub), Lower(s)))
    ensures (sub == [] || !(65 <= sub[0] <= 90)) ==> (found <==> exists i :: SpelledAt(sub, s, i))
  {
    FoldHitIsOccurrence(s, sub);
    SpelledIsOccurrence(sub, s);
    var n := |sub|;
    if n == 0 { return true; }
    if n > |s| { return false; }
    var first, firstUpper := sub[0], sub[0];
    if 97 <= first <= 122 {
      firstUpper := first - 32;
    }
    var limit := |s| - n;
    var i := 0;
    while i <= limit
      invariant 0 <= i <= limit + 1
      invariant forall j :: 0 <= j < i ==> !FoldHitAt(s, sub, j)
    {
      if s[i] == first || s[i] == firstUpper {
        var eq := EqualFold(s[i..i + n], sub);
        if eq {
          assert FoldHitAt(s, sub, i);
          return true;
        }
      }
      i := i + 1;
    }
    return false;
  }

  lemma LowerOfSlice(s: Text, i: int, n: int)
    requires 0 <= i && 0 <= n && i + n <= |s|
    ensures Lower(s[i..i + n]) == Lower(s)[i..i + n]
  {
  }

  /** With a needle that does not start in upper case the first-byte filter loses nothing. */
  lemma FoldHitIsOccurrence(s: Text, sub: Text)
    ensures (sub == [] || !IsUpper(sub[0])) ==> (FoldHit(s, sub) <==> Occurs(Lower(sub), Lower(s)))
  {
    if sub == [] {
      assert OccursAt(Lower(sub), Lower(s), 0);
    } else if !IsUpper(sub[0]) {
      forall i | 0 <= i <= |s| - |sub|
        ensures FoldHitAt(s, sub, i) <==> OccursAt(Lower(sub), Lower(s), i)
      {
        LowerOfSlice(s, i, |sub|);
        if Lower(s[i..i + |sub|]) == Lower(sub) {
          assert Lower(s[i..i + |sub|])[0] == LowerByte(s[i]);
          assert Lower(sub)[0] == LowerByte(sub[0]);
        }
      }
      if i :| FoldHitAt(s, sub, i) {
        assert OccursAt(Lower(sub), Lower(s), i);
      }
      if i :| OccursAt(Lower(sub), Lower(s), i) {
        assert FoldHitAt(s, sub, i);
      }
    }
  }

  /**
   * `ContainsFold` is case-insensitive search on every text exactly when the needle is empty or does
   * not start in upper case; an upper-case start already misses the needle's own lower-case form.
   */
  lemma FoldCondition(sub: Text)
    ensures (forall s :: FoldHit(s, sub) <==> Occurs(Lower(sub), Lower(s))) <==> (sub == [] || !(65 <= sub[0] <= 90))
  {
    if sub == [] || !IsUpper(sub[0]) {
      forall s ensures FoldHit(s, sub) <==> Occurs(Lower(sub), Lower(s)) {
        FoldHitIsOccurrence(s, sub);
      }
    } else {
      var s := Lower(sub);
      LowerIdempotent(sub);
      assert OccursAt(Lower(sub), Lower(s), 0);
      forall i ensures !FoldHitAt(s, sub, i) {
        assert s[0] == LowerByte(sub[0]);
      }
      assert !FoldHit(s, sub) && Occurs(Lower(sub), Lower(s));
    }
  }

  lemma LowerIdempotent(s: Text)
    ensures Lower(Lower(s)) == Lower(s)
  {
  }

  /** A non-empty lower-case ASCII pattern. */
  ghost predicate LowerPattern(p: Text) {
    p != [] && IsAscii(p) && Lower(p) == p
  }

  ghost predicate SomeFoldHit(patterns: seq<Text>, s: Text) {
    exists i :: 0 <= i < |patterns| && FoldHit(s, patterns[i])
  }

  method ContainsAnyFold(patterns: seq<Text>, s: Text) returns (found: bool)
    ensures found <==> SomeFoldHit(patterns, s)
  {
    for i := 0 to |patterns|
      invariant forall j :: 0 <= j < i ==> !FoldHit(s, patterns[j])
    {
      var hit := ContainsFold(s, patterns[i]);
      if hit { return true; }
    }
    return false;
  }

  /** The automaton on the lowercased text agrees with `ContainsFold` asked pattern by pattern. */
  lemma MatcherAgreesWithFold(patterns: seq<Text>, s: Text)
    requires forall i :: 0 <= i < |patterns| ==> LowerPattern(patterns[i])
    ensures AhoCorasick.Projectable(patterns)
    ensures AhoCorasick.SomePatternOccurs(patterns, Lower(s)) <==> SomeFoldHit(patterns, s)
  {
    forall i | 0 <= i < |patterns|
      ensures patterns[i] != [] && AsciiOf(patterns[i]) == patterns[i] == Lower(patterns[i])
      ensures FoldHit(s, patterns[i]) <==> Occurs(patterns[i], Lower(s))
    {
      assert LowerPattern(patterns[i]);
      assert !IsUpper(patterns[i][0]) by {
        assert Lower(patterns[i])[0] == LowerByte(patterns[i][0]);
      }
      FoldHitIsOccurrence(s, patterns[i]);
    }
  }

  /** Both searches, run side by side. */
  method SearchFolded(patterns: seq<Text>, s: Text) returns (automaton: bool, oneByOne: bool)
    requires IsBytes(s)
    requires forall i :: 0 <= i < |patterns| ==> LowerPattern(patterns[i])
    ensures automaton == oneByOne
    ensures automaton <==> SomeFoldHit(patterns, s)
  {
    var lowered := AppendLower([], s);
    assert lowered == Lower(s);
    forall i | 0 <= i < |patterns| ensures IsBytes(patterns[i]) {
      assert LowerPattern(patterns[i]);
    }
    automaton := AhoCorasick.Search(patterns, lowered);
    MatcherAgreesWithFold(patterns, s);
    oneByOne := ContainsAnyFold(patterns, s);
  }
}
