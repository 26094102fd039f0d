/** Byte strings and the two ways a byte string can sit inside another. */
module Bytes {

  type Byte = int
  type Text = seq<Byte>

  /** The texts the program works on; the definitions below hold of any integers. */
  ghost predicate IsBytes(t: Text) {
    forall i :: 0 <= i < |t| ==> 0 <= t[i] < 256
  }

  /** `p` occurs in `t` as a contiguous substring. */
  ghost predicate Occurs(p: Text, t: Text) {
    exists i :: OccursAt(p, t, i)
  }

  ghost predicate OccursAt(p: Text, t: Text, i: int) {
    0 <= i <= |t| - |p| && t[i..i + |p|] == p
  }

  predicate IsSuffix(p: Text, t: Text) {
    |p| <= |t| && t[|t| - |p|..] == p
  }

  ghost predicate IsAscii(t: Text) {
    forall i :: 0 <= i < |t| ==> 0 <= t[i] < 128
  }

  /** The ASCII projection: the bytes below 128, in order. */
  function AsciiOf(t: Text): (r: Text)
    ensures IsBytes(t) ==> IsAscii(r)
    ensures |r| <= |t|
    ensures IsAscii(t) ==> r == t
  {
    if t == [] then []
    else
      var init := AsciiOf(t[..|t| - 1]);
      assert t == t[..|t| - 1] + [t[|t| - 1]];
      if t[|t| - 1] < 128 then init + [t[|t| - 1]] else init
  }

  lemma SuffixTrans(a: Text, b: Text, c: Text)
    requires IsSuffix(a, b) && IsSuffix(b, c)
    ensures IsSuffix(a, c)
  {
    assert c[|c| - |a|..] == c[|c| - |b|..][|b| - |a|..];
  }

  /** Two suffixes of one text are nested by length. */
  lemma SuffixesNest(a: Text, b: Text, t: Text)
    requires IsSuffix(a, t) && IsSuffix(b, t) && |a| <= |b|
    ensures IsSuffix(a, b)
  {
    assert t[|t| - |a|..] == t[|t| - |b|..][|b| - |a|..];
  }

  lemma SuffixSnoc(a: Text, t: Text, c: Byte)
    ensures IsSuffix(a, t) <==> IsSuffix(a + [c], t + [c])
  {
    if |a| <= |t| {
      assert (t + [c])[|t| + 1 - (|a| + 1)..] == t[|t| - |a|..] + [c];
      if IsSuffix(a + [c], t + [c]) {
        assert a == (a + [c])[..|a|];
      }
    }
  }

  /** A non-empty suffix of `t + [c]` ends in `c`, after a suffix of `t`. */
  lemma SuffixOfSnoc(a: Text, t: Text, c: Byte)
    requires a != [] && IsSuffix(a, t + [c])
    ensures a[|a| - 1] == c && IsSuffix(a[..|a| - 1], t)
  {
    assert a == a[..|a| - 1] + [a[|a| - 1]];
    assert (t + [c])[|t| + 1 - |a|..][|a| - 1] == c;
    SuffixSnoc(a[..|a| - 1], t, c);
  }

  /** An occurrence is a suffix of some prefix. */
  lemma OccursIsSuffixOfPrefix(p: Text, t: Text)
    ensures Occurs(p, t) <==> exists j :: 0 <= j <= |t| && IsSuffix(p, t[..j])
  {
    if Occurs(p, t) {
      var i :| OccursAt(p, t, i);
      assert t[..i + |p|][i..] == t[i..i + |p|];
      assert IsSuffix(p, t[..i + |p|]);
    }
    if j :| 0 <= j <= |t| && IsSuffix(p, t[..j]) {
      assert t[..j][j - |p|..] == t[j - |p|..j];
      assert OccursAt(p, t, j - |p|);
    }
  }

  lemma AsciiOfStep(p: Text, i: nat)
    requires i < |p|
    ensures AsciiOf(p[..i + 1]) == if p[i] < 128 then AsciiOf(p[..i]) + [p[i]] else AsciiOf(p[..i])
  {
    assert p[..i + 1][..i] == p[..i];
  }

  lemma {:induction false} AsciiOfConcat(a: Text, b: Text)
    ensures AsciiOf(a + b) == AsciiOf(a) + AsciiOf(b)
    decreases |b|
  {
    if b == [] {
      assert a + b == a;
    } else {
      var init := b[..|b| - 1];
      AsciiOfConcat(a, init);
      assert (a + b)[..|a + b| - 1] == a + init;
    }
  }

  lemma OccursTrans(a: Text, b: Text, c: Text)
    requires Occurs(a, b) && Occurs(b, c)
    ensures Occurs(a, c)
  {
    var i :| OccursAt(a, b, i);
    var j :| OccursAt(b, c, j);
    forall k | 0 <= k < |a| ensures c[i + j + k] == a[k] {
      assert c[j..j + |b|][i + k] == b[i + k] && b[i..i + |a|][k] == a[k];
    }
    assert OccursAt(a, c, i + j);
  }

  lemma OccursInItself(p: Text)
    ensures Occurs(p, p)
  {
    assert p[0..|p|] == p;
    assert OccursAt(p, p, 0);
  }

  /** What occurs in an ASCII text is ASCII. */
  lemma OccursInAscii(p: Text, t: Text)
    requires Occurs(p, t) && IsAscii(t)
    ensures IsAscii(p)
  {
    var i :| OccursAt(p, t, i);
    forall k | 0 <= k < |p| ensures 0 <= p[k] < 128 {
      assert p[k] == t[i + k];
    }
  }

  lemma Embedded(a: Text, q: Text, b: Text)
    ensures Occurs(q, a + q + b)
  {
    assert (a + q + b)[|a|..|a| + |q|] == q;
    assert OccursAt(q, a + q + b, |a|);
  }

  /** The projection keeps every ASCII stretch in one piece. */
  lemma AsciiSurvives(q: Text, p: Text)
    requires IsAscii(q) && Occurs(q, p)
    ensures Occurs(q, AsciiOf(p))
  {
    var i :| OccursAt(q, p, i);
    var before, after := p[..i], p[i + |q|..];
    assert p == before + q + after;
    AsciiOfConcat(before + q, after);
    AsciiOfConcat(before, q);
    Embedded(AsciiOf(before), q, AsciiOf(after));
  }
}
