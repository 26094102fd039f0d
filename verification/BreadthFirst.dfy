/** The order in which a breadth-first queue discovers the words of a prefix-closed set. */
module BreadthFirst {
  import opened Basics
  import opened Bytes
  import opened Automaton

  function Parent(w: Text): Text
    requires w != []
  {
    w[..|w| - 1]
  }

  ghost predicate ByLength(s: seq<Text>) {
    forall i, j :: 0 <= i < j < |s| ==> |s[i]| <= |s[j]|
  }

  ghost function Done(order: seq<Text>, k: nat): set<Text>
    requires k <= |order|
  {
    {[]} + set v | v in order[..k]
  }

  ghost function Seen(order: seq<Text>): set<Text> {
    Done(order, |order|)
  }

  /** `v` has been discovered once the first `k` words are expanded and word `k` up to byte `c`. */
  ghost predicate Discovered(order: seq<Text>, k: nat, c: int, v: Text)
    requires v != [] && k <= |order|
  {
    Parent(v) in Done(order, k) || (k < |order| && Parent(v) == order[k] && v[|v| - 1] < c)
  }

  /** `order` lists the discovered words once each, shortest first. */
  ghost predicate Frontier(words: set<Text>, order: seq<Text>, k: nat, c: int) {
    && k <= |order|
    && Distinct(order) && ByLength(order)
    && (forall i :: 0 <= i < |order| ==> order[i] in words && order[i] != [])
    && (forall v :: v in words && v != [] ==> (v in order <==> Discovered(order, k, c, v)))
  }

  /** Every word but the root, exactly once and shortest first. */
  ghost predicate Visits(words: set<Text>, order: seq<Text>) {
    && Distinct(order) && ByLength(order)
    && forall v :: v in order <==> v in words && v != []
  }

  /** A queue of distinct words cannot outgrow the set. */
  lemma {:induction false} DistinctBounded(words: set<Text>, s: seq<Text>)
    requires Distinct(s) && forall i :: 0 <= i < |s| ==> s[i] in words
    ensures |s| <= |words|
  {
    if s != [] {
      var x := s[|s| - 1];
      DistinctBounded(words - {x}, s[..|s| - 1]);
    }
  }

  lemma FrontierBounded(words: set<Text>, order: seq<Text>, k: nat, c: int)
    requires Frontier(words, order, k, c)
    ensures k <= |order| <= |words|
  {
    DistinctBounded(words, order);
  }

  /** Words shorter than the one being expanded have all been expanded. */
  lemma {:induction false} ShorterIsDone(words: set<Text>, order: seq<Text>, k: nat, c: int, v: Text)
    requires PrefixClosed(words) && Frontier(words, order, k, c)
    requires v in words && k < |order| && |v| < |order[k]|
    ensures v in Done(order, k)
    decreases |v|
  {
    if v != [] {
      assert ParentIn(words, v);
      ShorterIsDone(words, order, k, c, Parent(v));
      assert Discovered(order, k, c, v);
      var i :| 0 <= i < |order| && order[i] == v;
    }
  }

  /** Words no longer than the one being expanded have all been discovered. */
  lemma NoLongerIsSeen(words: set<Text>, order: seq<Text>, k: nat, c: int, v: Text)
    requires PrefixClosed(words) && Frontier(words, order, k, c)
    requires v in words && k < |order| && |v| <= |order[k]|
    ensures v in Seen(order)
  {
    if v != [] {
      assert ParentIn(words, v);
      ShorterIsDone(words, order, k, c, Parent(v));
      assert Discovered(order, k, c, v);
    }
  }

  /** Discovering the child of word `k` along byte `c`. */
  lemma FrontierPush(words: set<Text>, order: seq<Text>, k: nat, c: Byte)
    requires PrefixClosed(words) && Frontier(words, order, k, c) && k < |order|
    requires order[k] + [c] in words
    ensures Frontier(words, order + [order[k] + [c]], k, c + 1)
  {
    var v := order[k] + [c];
    assert Parent(v) == order[k];
    assert v !in order by { assert !Discovered(order, k, c, v); }
    forall i | 0 <= i < |order| ensures |order[i]| <= |v| {
      DiscoveredIsShort(words, order, k, c, i);
    }
    forall x | x in words && x != [] ensures x in order + [v] <==> Discovered(order + [v], k, c + 1, x) {
      PushDiscovers(words, order, k, c, x);
    }
  }

  lemma PushDiscovers(words: set<Text>, order: seq<Text>, k: nat, c: Byte, x: Text)
    requires Frontier(words, order, k, c) && k < |order| && x in words && x != []
    ensures x in order + [order[k] + [c]] <==> Discovered(order + [order[k] + [c]], k, c + 1, x)
  {
    var order' := order + [order[k] + [c]];
    assert order'[..k] == order[..k];
    assert x == Parent(x) + [x[|x| - 1]];
    assert x in order <==> Discovered(order, k, c, x);
  }

  lemma DiscoveredIsShort(words: set<Text>, order: seq<Text>, k: nat, c: int, i: nat)
    requires Frontier(words, order, k, c) && k < |order| && i < |order|
    ensures |order[i]| <= |order[k]| + 1
  {
    assert order[i] in order;
    assert Discovered(order, k, c, order[i]);
  }

  /** No child along byte `c`: nothing is discovered. */
  lemma FrontierSkip(words: set<Text>, order: seq<Text>, k: nat, c: Byte)
    requires Frontier(words, order, k, c) && k < |order|
    requires order[k] + [c] !in words
    ensures Frontier(words, order, k, c + 1)
  {
    forall x | x in words && x != [] ensures x in order <==> Discovered(order, k, c + 1, x) {
      assert x == Parent(x) + [x[|x| - 1]];
      assert x in order <==> Discovered(order, k, c, x);
    }
  }

  /** Once every byte of word `k` is handled, the word is done. */
  lemma FrontierAdvance(words: set<Text>, order: seq<Text>, k: nat)
    requires Frontier(words, order, k, 128) && k < |order|
    requires forall w :: w in words ==> IsAscii(w)
    ensures Frontier(words, order, k + 1, 0)
    ensures Done(order, k + 1) == Done(order, k) + {order[k]}
  {
    DoneNext(order, k);
    forall x | x in words && x != [] ensures x in order <==> Discovered(order, k + 1, 0, x) {
      AdvanceDiscovers(words, order, k, x);
    }
  }

  lemma DoneNext(order: seq<Text>, k: nat)
    requires k < |order|
    ensures Done(order, k + 1) == Done(order, k) + {order[k]}
  {
    assert order[..k + 1] == order[..k] + [order[k]];
  }

  lemma AdvanceDiscovers(words: set<Text>, order: seq<Text>, k: nat, x: Text)
    requires Frontier(words, order, k, 128) && k < |order| && x in words && x != [] && IsAscii(x)
    ensures x in order <==> Discovered(order, k + 1, 0, x)
  {
    DoneNext(order, k);
    assert x in order <==> Discovered(order, k, 128, x);
    assert 0 <= x[|x| - 1] < 128;
  }

  /** An exhausted queue has discovered the whole set. */
  lemma FrontierComplete(words: set<Text>, order: seq<Text>)
    requires PrefixClosed(words) && Frontier(words, order, |order|, 0)
    ensures Visits(words, order) && Seen(order) == words
  {
    forall v | v in words ensures v in Seen(order) {
      ReachedFromRoot(words, order, v);
    }
    forall v ensures v in order <==> v in words && v != [] {
      if v in words && v != [] {
        assert v in Seen(order);
      }
    }
  }

  lemma {:induction false} ReachedFromRoot(words: set<Text>, order: seq<Text>, v: Text)
    requires PrefixClosed(words) && Frontier(words, order, |order|, 0) && v in words
    ensures v in Seen(order)
    decreases |v|
  {
    if v != [] {
      assert ParentIn(words, v);
      ReachedFromRoot(words, order, Parent(v));
      assert Discovered(order, |order|, 0, v);
    }
  }

  /** While the root is expanded: the one-byte words below byte `c`. */
  ghost predicate RootFrontier(words: set<Text>, order: seq<Text>, c: int) {
    && Distinct(order)
    && (forall i :: 0 <= i < |order| ==> order[i] in words && |order[i]| == 1)
    && (forall v :: v in words && |v| == 1 ==> (v in order <==> v[0] < c))
  }

  lemma RootChildUnseen(words: set<Text>, order: seq<Text>, c: Byte)
    requires RootFrontier(words, order, c)
    ensures [c] !in Seen(order)
  {
  }

  lemma RootPush(words: set<Text>, order: seq<Text>, c: Byte)
    requires RootFrontier(words, order, c) && [c] in words
    ensures RootFrontier(words, order + [[c]], c + 1)
  {
    assert [c] !in order;
    forall v | v in words && |v| == 1 ensures v in order + [[c]] <==> v[0] < c + 1 {
      assert v == [v[0]];
    }
  }

  lemma RootSkip(words: set<Text>, order: seq<Text>, c: Byte)
    requires RootFrontier(words, order, c) && [c] !in words
    ensures RootFrontier(words, order, c + 1)
  {
    forall v | v in words && |v| == 1 ensures v[0] != c {
      assert v == [v[0]];
    }
  }

  /** With the root expanded, its children are the first frontier. */
  lemma RootDone(words: set<Text>, order: seq<Text>)
    requires RootFrontier(words, order, 128) && forall w :: w in words ==> IsAscii(w)
    ensures Frontier(words, order, 0, 0) && Done(order, 0) == {[]}
  {
    forall v | v in words && v != [] ensures v in order <==> Discovered(order, 0, 0, v) {
      assert Parent(v) == [] <==> |v| == 1;
      assert v in order ==> |v| == 1;
      assert Discovered(order, 0, 0, v) ==> Parent(v) in Done(order, 0);
    }
  }

  /** Breadth-first order makes the fail state final before it is read. */
  lemma FailStateReady(words: set<Text>, order: seq<Text>, k: nat, c: int)
    requires PrefixClosed(words) && Frontier(words, order, k, c) && k < |order|
    ensures var w := order[k];
      && w in words && w != [] && w !in Done(order, k) && w in Seen(order)
      && LongestSuffix(words, w[1..]) in Done(order, k)
      && LongestSuffix(words, w[1..] + [c]) in Seen(order)
  {
    var w := order[k];
    ShorterIsDone(words, order, k, c, LongestSuffix(words, w[1..]));
    NoLongerIsSeen(words, order, k, c, LongestSuffix(words, w[1..] + [c]));
    assert w !in order[..k];
  }

  /** The next child of word `k` has not been discovered yet. */
  lemma NextChildUnseen(words: set<Text>, order: seq<Text>, k: nat, c: int)
    requires Frontier(words, order, k, c) && k < |order|
    ensures order[k] + [c] !in Seen(order)
  {
    var v := order[k] + [c];
    assert Parent(v) == order[k];
    assert order[k] !in Done(order, k);
    assert !Discovered(order, k, c, v);
  }

  /** Discovering one more word. */
  lemma SeenPush(order: seq<Text>, v: Text, k: nat)
    requires k <= |order|
    ensures Seen(order + [v]) == Seen(order) + {v} && Done(order + [v], k) == Done(order, k)
  {
    assert (order + [v])[..k] == order[..k];
    assert (order + [v])[..|order| + 1] == order + [v] && order[..|order|] == order;
  }
}
