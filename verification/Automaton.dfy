/**
 * What an Aho-Corasick automaton over a prefix-closed set of words must compute,
 * stated without reference to nodes, fail links or a queue.
 */
module Automaton {
  import opened Bytes

  /** Asking for a word's parent one step at a time keeps the verifier from walking up forever. */
  ghost predicate ParentIn(words: set<Text>, w: Text) {
    w != [] ==> w[..|w| - 1] in words
  }

  ghost predicate PrefixClosed(words: set<Text>) {
    [] in words && forall w {:trigger ParentIn(words, w)} :: w in words ==> ParentIn(words, w)
  }

  /** The longest suffix of `t` that is one of `words`; the two lemmas below say so. */
  ghost function LongestSuffix(words: set<Text>, t: Text): (s: Text)
    requires [] in words
    ensures s in words && |s| <= |t|
  {
    if t in words then t else LongestSuffix(words, t[1..])
  }

  lemma {:induction false} LongestSuffixIsSuffix(words: set<Text>, t: Text)
    requires [] in words
    ensures IsSuffix(LongestSuffix(words, t), t)
  {
    if t !in words {
      LongestSuffixIsSuffix(words, t[1..]);
      SuffixTrans(LongestSuffix(words, t[1..]), t[1..], t);
    }
  }

  lemma {:induction false} LongestSuffixIsLongest(words: set<Text>, t: Text, q: Text)
    requires [] in words && q in words && IsSuffix(q, t)
    ensures IsSuffix(q, LongestSuffix(words, t))
  {
    if t !in words {
      ProperSuffixOfTail(q, t);
      LongestSuffixIsLongest(words, t[1..], q);
    }
  }

  lemma StepInside(words: set<Text>, t: Text, c: Byte)
    requires [] in words
    ensures IsSuffix(LongestSuffix(words, LongestSuffix(words, t) + [c]), LongestSuffix(words, t + [c]))
  {
    var s := LongestSuffix(words, t);
    var v := LongestSuffix(words, s + [c]);
    LongestSuffixIsSuffix(words, t);
    SuffixSnoc(s, t, c);
    LongestSuffixIsSuffix(words, s + [c]);
    SuffixTrans(v, s + [c], t + [c]);
    LongestSuffixIsLongest(words, t + [c], v);
  }

  lemma StepCovers(words: set<Text>, t: Text, c: Byte)
    requires PrefixClosed(words)
    ensures IsSuffix(LongestSuffix(words, t + [c]), LongestSuffix(words, LongestSuffix(words, t) + [c]))
  {
    var u := LongestSuffix(words, t + [c]);
    LongestSuffixIsSuffix(words, t + [c]);
    if u != [] {
      SuffixOfSnoc(u, t, c);
      assert ParentIn(words, u);
      assert u == u[..|u| - 1] + [c];
      CoversFromState(words, t, u[..|u| - 1], c);
    }
  }

  /** A word that ends the text one byte on ends the state one byte on. */
  lemma CoversFromState(words: set<Text>, t: Text, init: Text, c: Byte)
    requires [] in words && init in words && init + [c] in words && IsSuffix(init, t)
    ensures IsSuffix(init + [c], LongestSuffix(words, LongestSuffix(words, t) + [c]))
  {
    var s := LongestSuffix(words, t);
    LongestSuffixIsLongest(words, t, init);
    SuffixSnoc(init, s, c);
    LongestSuffixIsLongest(words, s + [c], init + [c]);
  }

  /** The state after one more byte depends on the text only through the state before it. */
  lemma StepFromState(words: set<Text>, t: Text, c: Byte)
    requires PrefixClosed(words)
    ensures LongestSuffix(words, t + [c]) == LongestSuffix(words, LongestSuffix(words, t) + [c])
  {
    StepInside(words, t, c);
    StepCovers(words, t, c);
  }

  /** A byte outside ASCII sends every state back to the root. */
  lemma NonAsciiResets(words: set<Text>, t: Text, c: Byte)
    requires [] in words && (forall w :: w in words ==> IsAscii(w)) && c >= 128
    ensures LongestSuffix(words, t + [c]) == []
  {
    var u := LongestSuffix(words, t + [c]);
    LongestSuffixIsSuffix(words, t + [c]);
    if u != [] {
      SuffixOfSnoc(u, t, c);
      assert false;
    }
  }

  /** The accepting flag of a state: its own, or inherited along fail links that stop above depth one. */
  ghost predicate Out(words: set<Text>, accept: set<Text>, w: Text)
    requires [] in words
    decreases |w|
  {
    w in accept || (|w| > 1 && Out(words, accept, LongestSuffix(words, w[1..])))
  }

  /** Without an empty pattern the flag says that some pattern is a suffix of the state. */
  lemma {:induction false} OutMeansPatternIsSuffix(words: set<Text>, accept: set<Text>, w: Text)
    requires [] in words && accept <= words && [] !in accept
    ensures Out(words, accept, w) <==> exists p :: p in accept && IsSuffix(p, w)
    decreases |w|
  {
    assert IsSuffix(w, w);
    if |w| > 1 {
      var f := LongestSuffix(words, w[1..]);
      OutMeansPatternIsSuffix(words, accept, f);
      if p :| p in accept && IsSuffix(p, f) {
        LongestSuffixIsSuffix(words, w[1..]);
        SuffixTrans(p, f, w[1..]);
        SuffixTrans(p, w[1..], w);
      }
      if p :| p in accept && IsSuffix(p, w) && p != w {
        ProperSuffixOfTail(p, w);
        LongestSuffixIsLongest(words, w[1..], p);
      }
    } else {
      forall p | p in accept && IsSuffix(p, w) ensures p == w {
        assert |p| == 1;
      }
    }
  }

  lemma ProperSuffixOfTail(p: Text, w: Text)
    requires IsSuffix(p, w) && p != w
    ensures w != [] && IsSuffix(p, w[1..])
  {
    assert |p| < |w|;
    SuffixesNest(p, w[1..], w);
  }

  /** The scan stops on some ASCII byte whose state is accepting. */
  ghost predicate Accepts(words: set<Text>, accept: set<Text>, text: Text)
    requires [] in words
  {
    exists i :: 0 <= i < |text| && AcceptsAt(words, accept, text, i)
  }

  ghost predicate AcceptsAt(words: set<Text>, accept: set<Text>, text: Text, i: nat)
    requires [] in words && i < |text|
  {
    text[i] < 128 && Out(words, accept, LongestSuffix(words, text[..i + 1]))
  }

  ghost predicate AnyOccurs(accept: set<Text>, text: Text) {
    exists p :: p in accept && Occurs(p, text)
  }

  lemma AcceptedOccurs(words: set<Text>, accept: set<Text>, text: Text, i: nat)
    requires [] in words && accept <= words && [] !in accept && i < |text| && AcceptsAt(words, accept, text, i)
    ensures AnyOccurs(accept, text)
  {
    var s := LongestSuffix(words, text[..i + 1]);
    OutMeansPatternIsSuffix(words, accept, s);
    var p :| p in accept && IsSuffix(p, s);
    LongestSuffixIsSuffix(words, text[..i + 1]);
    SuffixTrans(p, s, text[..i + 1]);
    OccursIsSuffixOfPrefix(p, text);
  }

  /** Where an occurrence ends the scan is in an accepting state. */
  lemma AcceptedAtEnd(words: set<Text>, accept: set<Text>, text: Text, p: Text, j: nat)
    requires [] in words && accept <= words && [] !in accept && IsAscii(p)
    requires p in accept && 0 < j <= |text| && IsSuffix(p, text[..j])
    ensures AcceptsAt(words, accept, text, j - 1)
  {
    var s := LongestSuffix(words, text[..j]);
    LongestSuffixIsLongest(words, text[..j], p);
    OutMeansPatternIsSuffix(words, accept, s);
    assert text[..j][j - |p|..][|p| - 1] == text[j - 1];
  }

  /** Scanning agrees with naive substring search, over every byte string. */
  lemma AcceptsIffOccurs(words: set<Text>, accept: set<Text>, text: Text)
    requires [] in words && accept <= words && [] !in accept
    requires forall w :: w in words ==> IsAscii(w)
    ensures Accepts(words, accept, text) <==> AnyOccurs(accept, text)
  {
    if i :| 0 <= i < |text| && AcceptsAt(words, accept, text, i) {
      AcceptedOccurs(words, accept, text, i);
    }
    if p :| p in accept && Occurs(p, text) {
      OccursIsSuffixOfPrefix(p, text);
      var j :| 0 <= j <= |text| && IsSuffix(p, text[..j]);
      AcceptedAtEnd(words, accept, text, p, j);
    }
  }

  /** Agreement with naive search on every text holds exactly when no pattern projects to nothing. */
  lemma AgreementCondition(words: set<Text>, accept: set<Text>)
    requires [] in words && accept <= words
    requires forall w :: w in words ==> IsAscii(w)
    ensures (forall text :: Accepts(words, accept, text) <==> AnyOccurs(accept, text)) <==> [] !in accept
  {
    if [] !in accept {
      forall text ensures Accepts(words, accept, text) <==> AnyOccurs(accept, text) {
        AcceptsIffOccurs(words, accept, text);
      }
    } else {
      assert OccursAt([], [], 0);
      assert AnyOccurs(accept, []) && !Accepts(words, accept, []);
    }
  }

  lemma SnocInjective(v: Text, x: Byte, w: Text, c: Byte)
    ensures v + [x] == w + [c] <==> v == w && x == c
  {
    if v + [x] == w + [c] {
      assert v == (v + [x])[..|v|] && w == (w + [c])[..|w|];
      assert x == (v + [x])[|v|];
    }
  }

  /** A word added below an existing one is a leaf. */
  lemma NewLeaf(words: set<Text>, w: Text, c: Byte)
    requires PrefixClosed(words) && w in words && w + [c] !in words
    ensures PrefixClosed(words + {w + [c]})
    ensures forall x :: w + [c] + [x] !in words + {w + [c]}
  {
    var v := w + [c];
    assert ParentIn(words + {v}, v) by { assert v[..|v| - 1] == w; }
    forall u | u in words ensures ParentIn(words + {v}, u) {
      assert ParentIn(words, u);
    }
    forall x ensures v + [x] !in words + {v} {
      assert (v + [x])[..|v|] == v;
      assert v + [x] in words ==> ParentIn(words, v + [x]);
    }
  }
}
