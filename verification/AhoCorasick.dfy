/** The heap automaton: `NewMatcher`, `buildFail` and `Contains`. */
module AhoCorasick {
  import opened Bytes
  import opened Automaton
  import opened BreadthFirst

  class Node {
    var next: seq<Node?>
    var fail: Node?
    var out: bool
    ghost const word: Text

    constructor (ghost w: Text)
      ensures word == w && next == seq(128, _ => null) && fail == null && !out
    {
      word := w;
      next := seq(128, _ => null);
      fail := null;
      out := false;
    }
  }

  /** The words `NewMatcher` marks: the ASCII projections of the non-empty patterns. */
  ghost function Projected(patterns: seq<Text>): set<Text> {
    set p | p in patterns && p != [] :: AsciiOf(p)
  }

  /** The root and every prefix of a marked word. */
  ghost function PrefixesOf(accept: set<Text>): set<Text> {
    {[]} + set p, w | p in accept && w in Prefixes(p) :: w
  }

  ghost function Prefixes(w: Text): set<Text> {
    set n | 0 <= n <= |w| :: w[..n]
  }

  lemma PrefixesSnoc(w: Text, c: Byte)
    ensures Prefixes(w + [c]) == Prefixes(w) + {w + [c]}
  {
    var v := w + [c];
    assert v[..|v|] == v;
    forall n | 0 <= n <= |w| ensures v[..n] == w[..n] {
    }
    forall x ensures x in Prefixes(v) <==> x in Prefixes(w) + {v} {
      if x in Prefixes(w) {
        var n :| 0 <= n <= |w| && x == w[..n];
        assert x == v[..n];
      }
    }
  }

  lemma PrefixesOfAdd(accept: set<Text>, w: Text)
    ensures PrefixesOf(accept + {w}) == PrefixesOf(accept) + Prefixes(w)
  {
  }

  lemma ProjectedStep(patterns: seq<Text>, i: nat)
    requires i < |patterns|
    ensures Projected(patterns[..i + 1]) ==
      if patterns[i] == [] then Projected(patterns[..i]) else Projected(patterns[..i]) + {AsciiOf(patterns[i])}
  {
    assert patterns[..i + 1] == patterns[..i] + [patterns[i]];
    ProjectedSnoc(patterns[..i], patterns[i]);
  }

  lemma ProjectedSnoc(ps: seq<Text>, p: Text)
    ensures Projected(ps + [p]) == if p == [] then Projected(ps) else Projected(ps) + {AsciiOf(p)}
  {
    forall x ensures x in Projected(ps + [p]) <==> x in Projected(ps) || (p != [] && x == AsciiOf(p)) {
      if x in Projected(ps) {
        var q :| q in ps && q != [] && x == AsciiOf(q);
        assert q in ps + [p];
      }
      if p != [] && x == AsciiOf(p) {
        assert p in ps + [p];
      }
    }
  }

  class Matcher {
    var root: Node
    ghost var nodes: map<Text, Node>
    ghost var accept: set<Text>
    ghost var repr: set<Node>

    /** Every word of the trie has its own node. */
    ghost predicate Shape()
      reads this, repr
    {
      && PrefixClosed(nodes.Keys)
      && root == nodes[[]]
      && accept <= nodes.Keys
      && (forall w :: w in nodes ==> IsAscii(w))
      && (forall w :: w in nodes ==> nodes[w] in repr && nodes[w].word == w && |nodes[w].next| == 128)
    }

    /** The child of `w` along `c` in the plain trie. */
    ghost function Child(w: Text, c: int): Node?
      requires 0 <= c < 128
      reads this
    {
      if w + [c] in nodes then nodes[w + [c]] else null
    }

    /** The automaton edge of `w` along `c`. */
    ghost function Target(w: Text, c: int): Node?
      requires [] in nodes && 0 <= c < 128
      reads this
    {
      nodes[LongestSuffix(nodes.Keys, w + [c])]
    }

    /** Edges are automaton edges for `done` words and the first `k` bytes of `w`, trie edges elsewhere. */
    ghost predicate Edges(done: set<Text>, w: Text, k: int)
      requires Shape()
      reads this, repr
    {
      forall v, c :: v in nodes && 0 <= c < 128 ==>
        nodes[v].next[c] == if v in done || (v == w && c < k) then Target(v, c) else Child(v, c)
    }

    /** Fail links and accepting flags are final for `seen` words; other flags mark exactly the patterns. */
    ghost predicate Links(seen: set<Text>)
      requires Shape()
      reads this, repr
    {
      && (forall v :: v in nodes && v in seen ==> nodes[v].out == Out(nodes.Keys, accept, v))
      && (forall v :: v in nodes && v in seen && v != [] ==> nodes[v].fail == nodes[LongestSuffix(nodes.Keys, v[1..])])
      && (forall v :: v in nodes && v !in seen ==> nodes[v].out == (v in accept))
    }

    ghost predicate Valid()
      reads this, repr
    {
      Shape() && Edges(nodes.Keys, [], 0) && Links(nodes.Keys)
    }

    /** The trie before linking. */
    ghost predicate Plain()
      reads this, repr
    {
      Shape() && Edges({}, [], 0) && Links({}) && nodes.Keys == PrefixesOf(accept)
    }

    /** A matcher holding only its root. */
    constructor ()
      ensures Plain() && fresh(repr) && accept == {}
    {
      var r := new Node([]);
      root, nodes, accept, repr := r, map[[] := r], {}, {r};
      new;
      assert nodes.Keys == PrefixesOf({});
    }

    method InsertAll(patterns: seq<Text>)
      requires Plain() && accept == {}
      requires forall i :: 0 <= i < |patterns| ==> IsBytes(patterns[i])
      modifies `nodes, `accept, `repr, repr
      ensures Plain() && accept == Projected(patterns) && fresh(repr - old(repr))
    {
      assert patterns[..|patterns|] == patterns;
      for i := 0 to |patterns|
        invariant Plain() && fresh(repr - old(repr))
        invariant accept == Projected(patterns[..i])
      {
        InsertNext(patterns, i);
      }
    }

    /** The body of the pattern loop of `NewMatcher`. */
    method InsertNext(patterns: seq<Text>, i: nat)
      requires i < |patterns| && IsBytes(patterns[i])
      requires Plain() && accept == Projected(patterns[..i])
      modifies `nodes, `accept, `repr, repr
      ensures Plain() && fresh(repr - old(repr)) && accept == Projected(patterns[..i + 1])
    {
      ProjectedStep(patterns, i);
      if patterns[i] != [] {
        Insert(patterns[i]);
      }
    }

    method Insert(p: Text)
      requires IsBytes(p) && Plain()
      modifies `nodes, `accept, `repr, repr
      ensures Plain() && fresh(repr - old(repr)) && accept == old(accept) + {AsciiOf(p)}
    {
      var n := Walk(p);
      PrefixesOfAdd(accept, AsciiOf(p));
      MarkAccepting(n, AsciiOf(p));
    }

    /** The trie, possibly in the middle of an insertion that has reached `n`. */
    ghost predicate AtWord(n: Node, w: Text)
      reads this, repr
    {
      Shape() && Edges({}, [], 0) && Links({}) && w in nodes && n == nodes[w]
    }

    /** The insertion of a word has reached `n`, and has added nothing but its prefixes. */
    ghost predicate Inserted(n: Node, w: Text, before: set<Text>)
      reads this, repr
    {
      AtWord(n, w) && nodes.Keys == before + Prefixes(w)
    }

    /** Follow `p` from the root, growing the trie. */
    method Walk(p: Text) returns (n: Node)
      requires Plain() && IsBytes(p)
      modifies `nodes, `repr, repr
      ensures AtWord(n, AsciiOf(p)) && fresh(repr - old(repr))
      ensures nodes.Keys == old(nodes.Keys) + Prefixes(AsciiOf(p))
    {
      ghost var before := nodes.Keys;
      assert p[..|p|] == p && p[..0] == [];
      n := root;
      assert Inserted(n, [], before);
      for i := 0 to |p|
        invariant Inserted(n, AsciiOf(p[..i]), before) && fresh(repr - old(repr))
      {
        n := WalkStep(p, i, n, before);
      }
    }

    /** The body of the byte loop of `NewMatcher`. */
    method WalkStep(p: Text, i: nat, n: Node, ghost before: set<Text>) returns (m: Node)
      requires IsBytes(p) && i < |p| && Inserted(n, AsciiOf(p[..i]), before)
      modifies `nodes, `repr, n`next
      ensures Inserted(m, AsciiOf(p[..i + 1]), before) && fresh(repr - old(repr))
    {
      var c := p[i];
      AsciiOfStep(p, i);
      if c >= 128 { return n; }
      PrefixesSnoc(AsciiOf(p[..i]), c);
      m := Descend(n, c, AsciiOf(p[..i]));
    }

    method MarkAccepting(n: Node, ghost w: Text)
      requires AtWord(n, w)
      modifies `accept, n`out
      ensures Shape() && Edges({}, [], 0) && Links({}) && accept == old(accept) + {w}
    {
      n.out := true;
      accept := accept + {w};
    }

    /** Follow the edge of `n` along `c`, creating it if it is missing. */
    method Descend(n: Node, c: int, ghost w: Text) returns (m: Node)
      requires AtWord(n, w) && 0 <= c < 128
      modifies `nodes, `repr, n`next
      ensures AtWord(m, w + [c])
      ensures fresh(repr - old(repr)) && old(repr) <= repr
      ensures nodes.Keys == old(nodes.Keys) + {w + [c]}
    {
      if n.next[c] == null {
        AddLeaf(n, c, w);
      }
      m := n.next[c];
    }

    method AddLeaf(n: Node, c: int, ghost w: Text)
      requires Shape() && Edges({}, [], 0) && Links({})
      requires 0 <= c < 128 && w in nodes && n == nodes[w] && w + [c] !in nodes
      modifies `nodes, `repr, n`next
      ensures Shape() && Edges({}, [], 0) && Links({})
      ensures fresh(repr - old(repr)) && old(repr) <= repr
      ensures nodes.Keys == old(nodes.Keys) + {w + [c]} && nodes[w] == n
    {
      ghost var v := w + [c];
      NewLeaf(nodes.Keys, w, c);
      var m := new Node(v);
      n.next := n.next[c := m];
      nodes, repr := nodes[v := m], repr + {m};
      assert nodes.Keys == old(nodes.Keys) + {v};
      forall u, x | u in nodes && 0 <= x < 128 ensures nodes[u].next[x] == Child(u, x) {
        SnocInjective(u, x, w, c);
      }
    }

    /** First loop of `buildFail`: the root becomes total and its children are queued. */
    method LinkRoot() returns (q: seq<Node>, ghost order: seq<Text>)
      requires Shape() && Edges({}, [], 0) && Links({})
      modifies repr
      ensures unchanged(this) && Waiting(q, order, 0)
    {
      q, order := [], [];
      for c := 0 to 128
        invariant unchanged(this) && RootWorking(q, order, c)
      {
        q, order := ExpandRootEdge(c, q, order);
      }
      RootDone(nodes.Keys, order);
    }

    /** The root is being expanded: its edges below byte `c` are final and those children are queued. */
    ghost predicate RootWorking(q: seq<Node>, order: seq<Text>, c: int)
      reads this, repr
    {
      && Shape() && RootFrontier(nodes.Keys, order, c) && Queue(q, order, 0)
      && Edges({}, [], c) && Links(Seen(order))
    }

    method ExpandRootEdge(c: int, q: seq<Node>, ghost order: seq<Text>)
      returns (q': seq<Node>, ghost order': seq<Text>)
      requires RootWorking(q, order, c) && 0 <= c < 128
      modifies repr
      ensures unchanged(this) && RootWorking(q', order', c + 1)
    {
      RootChildUnseen(nodes.Keys, order, c);
      var n := LinkRootEdge(c, Seen(order));
      if n != null {
        RootPush(nodes.Keys, order, c);
        SeenPush(order, [c], 0);
        QueuePush(q, order, 0, n, [c]);
        q', order' := q + [n], order + [[c]];
      } else {
        RootSkip(nodes.Keys, order, c);
        q', order' := q, order;
      }
    }

    method LinkRootEdge(c: int, ghost seen: set<Text>) returns (n: Node?)
      requires Shape() && 0 <= c < 128
      requires Edges({}, [], c) && Links(seen) && [c] !in seen
      modifies repr
      ensures Shape() && unchanged(this)
      ensures n == if [c] in nodes then nodes[[c]] else null
      ensures Edges({}, [], c + 1)
      ensures Links(if n == null then seen else seen + {[c]})
    {
      n := root.next[c];
      assert [] + [c] == [c];
      if n != null {
        LinkToRoot(n, c, seen);
      } else {
        CloseRootEdge(c, seen);
      }
    }

    method LinkToRoot(n: Node, c: int, ghost seen: set<Text>)
      requires Shape() && 0 <= c < 128 && [c] in nodes && n == nodes[[c]]
      requires Edges({}, [], c) && Links(seen) && [c] !in seen
      modifies n`fail
      ensures Shape() && Edges({}, [], c + 1) && Links(seen + {[c]})
    {
      assert [] + [c] == [c];
      n.fail := root;
    }

    method CloseRootEdge(c: int, ghost seen: set<Text>)
      requires Shape() && 0 <= c < 128 && [c] !in nodes && Edges({}, [], c) && Links(seen)
      modifies root`next
      ensures Shape() && Edges({}, [], c + 1) && Links(seen)
    {
      assert [] + [c] == [c];
      assert LongestSuffix(nodes.Keys, [c]) == [];
      root.next := root.next[c := root];
    }

    /** Edge `c` of `w` becomes the edge of its fail state. */
    method CloseEdge(r: Node, c: int, ghost w: Text, ghost done: set<Text>, ghost seen: set<Text>)
      requires Shape() && 0 <= c < 128 && w in nodes && r == nodes[w] && w !in done
      requires Edges(done, w, c) && Links(seen)
      requires r.fail != null && |r.fail.next| == 128 && r.fail.next[c] == Target(w, c)
      modifies r`next
      ensures Shape() && Edges(done, w, c + 1) && Links(seen)
    {
      r.next := r.next[c := r.fail.next[c]];
    }

    /** The child of `w` along `c` gets its fail link, and inherits the flag found there. */
    method LinkChild(r: Node, u: Node, c: int, ghost w: Text, ghost done: set<Text>, ghost seen: set<Text>)
      requires Shape() && 0 <= c < 128 && w in nodes && w != [] && r == nodes[w] && w !in done
      requires w + [c] in nodes && u == nodes[w + [c]] && w + [c] !in seen
      requires Edges(done, w, c) && Links(seen)
      requires LongestSuffix(nodes.Keys, w[1..] + [c]) in seen
      requires r.fail != null && |r.fail.next| == 128
      requires r.fail.next[c] == nodes[LongestSuffix(nodes.Keys, w[1..] + [c])]
      modifies u`fail, u`out
      ensures Shape() && Edges(done, w, c + 1) && Links(seen + {w + [c]})
    {
      ghost var v := w + [c];
      assert v[1..] == w[1..] + [c];
      assert Target(w, c) == Child(w, c);
      u.fail := r.fail.next[c];
      if u.fail.out {
        u.out := true;
      }
      assert u.out == Out(nodes.Keys, accept, v);
    }

    /** `r` is being expanded: it is word `k`, its edges below byte `c` are final, `q` holds what follows it. */
    ghost predicate Working(r: Node, q: seq<Node>, order: seq<Text>, k: nat, c: int)
      reads this, repr
    {
      && Shape() && k < |order| && order[k] in nodes && r == nodes[order[k]]
      && Frontier(nodes.Keys, order, k, c) && Queue(q, order, k + 1)
      && Edges(Done(order, k), order[k], c) && Links(Seen(order))
    }

    /** The fail state of the word being expanded already has its final edges. */
    lemma FailEdge(r: Node, q: seq<Node>, order: seq<Text>, k: nat, c: int)
      requires Working(r, q, order, k, c) && 0 <= c < 128
      ensures order[k] != [] && order[k] !in Done(order, k)
      ensures LongestSuffix(nodes.Keys, order[k][1..] + [c]) in Seen(order)
      ensures r.fail != null && |r.fail.next| == 128
      ensures r.fail.next[c] == nodes[LongestSuffix(nodes.Keys, order[k][1..] + [c])]
    {
      var w := order[k];
      var f := LongestSuffix(nodes.Keys, w[1..]);
      FailStateReady(nodes.Keys, order, k, c);
      StepFromState(nodes.Keys, w[1..], c);
      assert r.fail == nodes[f] && r.fail.next[c] == Target(f, c);
    }

    /** One pass of the inner loop of `buildFail`. */
    method ExpandEdge(r: Node, c: int, q: seq<Node>, ghost order: seq<Text>, ghost k: nat)
      returns (q': seq<Node>, ghost order': seq<Text>)
      requires Working(r, q, order, k, c) && 0 <= c < 128
      modifies repr
      ensures unchanged(this) && Working(r, q', order', k, c + 1)
    {
      FailEdge(r, q, order, k, c);
      var u := r.next[c];
      if u == null {
        MissingChild(r, c, q, order, k);
        q', order' := q, order;
      } else {
        q', order' := PresentChild(r, u, c, q, order, k);
      }
    }

    method MissingChild(r: Node, c: int, ghost q: seq<Node>, ghost order: seq<Text>, ghost k: nat)
      requires Working(r, q, order, k, c) && 0 <= c < 128
      requires order[k] + [c] !in nodes && order[k] != [] && order[k] !in Done(order, k)
      requires r.fail != null && |r.fail.next| == 128
      requires r.fail.next[c] == nodes[LongestSuffix(nodes.Keys, order[k][1..] + [c])]
      modifies r`next
      ensures Working(r, q, order, k, c + 1)
    {
      assert (order[k] + [c])[1..] == order[k][1..] + [c];
      FrontierSkip(nodes.Keys, order, k, c);
      CloseEdge(r, c, order[k], Done(order, k), Seen(order));
    }

    method PresentChild(r: Node, u: Node, c: int, q: seq<Node>, ghost order: seq<Text>, ghost k: nat)
      returns (q': seq<Node>, ghost order': seq<Text>)
      requires Working(r, q, order, k, c) && 0 <= c < 128
      requires order[k] + [c] in nodes && u == nodes[order[k] + [c]]
      requires order[k] != [] && order[k] !in Done(order, k)
      requires LongestSuffix(nodes.Keys, order[k][1..] + [c]) in Seen(order)
      requires r.fail != null && |r.fail.next| == 128
      requires r.fail.next[c] == nodes[LongestSuffix(nodes.Keys, order[k][1..] + [c])]
      modifies u`fail, u`out
      ensures Working(r, q', order', k, c + 1)
    {
      ghost var v := order[k] + [c];
      NextChildUnseen(nodes.Keys, order, k, c);
      FrontierPush(nodes.Keys, order, k, c);
      SeenPush(order, v, k);
      LinkChild(r, u, c, order[k], Done(order, k), Seen(order));
      QueuePush(q, order, k + 1, u, v);
      q', order' := q + [u], order + [v];
    }

    /** Between two iterations of the queue loop: `k` words are expanded and `q` holds the others discovered. */
    ghost predicate Waiting(q: seq<Node>, order: seq<Text>, k: nat)
      reads this, repr
    {
      && Shape() && Frontier(nodes.Keys, order, k, 0) && Queue(q, order, k)
      && Edges(Done(order, k), [], 0) && Links(Seen(order))
    }

    /** One iteration of the queue loop of `buildFail`. */
    method Expand(q: seq<Node>, ghost order: seq<Text>, ghost k: nat)
      returns (q': seq<Node>, ghost order': seq<Text>)
      requires Waiting(q, order, k) && |q| > 0
      modifies repr
      ensures unchanged(this) && Waiting(q', order', k + 1)
    {
      var r := q[0];
      q', order' := q[1..], order;
      for c := 0 to 128
        invariant unchanged(this) && Working(r, q', order', k, c)
      {
        q', order' := ExpandEdge(r, c, q', order', k);
      }
      FrontierAdvance(nodes.Keys, order', k);
    }

    /** `buildFail`: every word but the root is expanded exactly once, and the automaton is complete. */
    method BuildFail() returns (ghost visited: seq<Text>)
      requires Plain()
      modifies repr
      ensures Valid() && unchanged(this)
      ensures Visits(nodes.Keys, visited)
    {
      var q: seq<Node>;
      q, visited := LinkRoot();
      ghost var k := 0;
      while |q| > 0
        invariant unchanged(this) && Waiting(q, visited, k)
        decreases |nodes.Keys| - k
      {
        q, visited := Expand(q, visited, k);
        k := k + 1;
        FrontierBounded(nodes.Keys, visited, k, 0);
      }
      FrontierComplete(nodes.Keys, visited);
    }

    /** The node a scan of `t` stands on: one edge per ASCII byte, back to the root on any other. */
    ghost function Reach(t: Text): Node?
      requires Shape() && IsBytes(t)
      reads this, repr
    {
      if t == [] || t[|t| - 1] >= 128 then root
      else
        var n := Reach(t[..|t| - 1]);
        if n in repr && |n.next| == 128 then n.next[t[|t| - 1]] else null
    }

    lemma {:induction false} ReachIsState(t: Text)
      requires Valid() && IsBytes(t)
      ensures Reach(t) == nodes[LongestSuffix(nodes.Keys, t)]
      decreases |t|
    {
      if t != [] {
        var init, c := t[..|t| - 1], t[|t| - 1];
        assert t == init + [c];
        if c >= 128 {
          NonAsciiResets(nodes.Keys, init, c);
        } else {
          ReachIsState(init);
          EdgeAdvances(init, c);
        }
      }
    }

    /**
     * In the finished automaton a scan of any text stands on the longest suffix of the text that is
     * a trie word, and that node is accepting exactly when a pattern is a suffix of that word.
     */
    lemma ReachIsLongestSuffix(t: Text)
      requires Valid() && IsBytes(t)
      ensures Reach(t) == nodes[LongestSuffix(nodes.Keys, t)]
      ensures [] !in accept ==>
        (nodes[LongestSuffix(nodes.Keys, t)].out <==>
         exists p :: p in accept && IsSuffix(p, LongestSuffix(nodes.Keys, t)))
    {
      ReachIsState(t);
      if [] !in accept {
        OutMeansPatternIsSuffix(nodes.Keys, accept, LongestSuffix(nodes.Keys, t));
      }
    }

    /** Following an edge computes the longest suffix one byte further. */
    lemma EdgeAdvances(t: Text, c: int)
      requires Valid() && 0 <= c < 128
      ensures nodes[LongestSuffix(nodes.Keys, t)].next[c] == nodes[LongestSuffix(nodes.Keys, t + [c])]
    {
      StepFromState(nodes.Keys, t, c);
    }

    lemma AcceptsMeansOccurs(haystack: Text)
      requires Valid()
      ensures [] !in accept ==> (Accepts(nodes.Keys, accept, haystack) <==> AnyOccurs(accept, haystack))
    {
      if [] !in accept {
        AcceptsIffOccurs(nodes.Keys, accept, haystack);
      }
    }

    /** One byte of the scan, on either side of the ASCII boundary. */
    lemma ScanStep(haystack: Text, i: nat)
      requires Valid() && IsBytes(haystack) && i < |haystack|
      ensures haystack[i] >= 128 ==>
        LongestSuffix(nodes.Keys, haystack[..i + 1]) == [] && !AcceptsAt(nodes.Keys, accept, haystack, i)
      ensures haystack[i] < 128 ==>
        var n := nodes[LongestSuffix(nodes.Keys, haystack[..i])].next[haystack[i]];
        && n == nodes[LongestSuffix(nodes.Keys, haystack[..i + 1])]
        && n.out == AcceptsAt(nodes.Keys, accept, haystack, i)
    {
      assert haystack[..i + 1] == haystack[..i] + [haystack[i]];
      if haystack[i] >= 128 {
        NonAsciiResets(nodes.Keys, haystack[..i], haystack[i]);
      } else {
        EdgeAdvances(haystack[..i], haystack[i]);
      }
    }

    /** A scan that has found nothing in the first `i` bytes stands on `n`. */
    ghost predicate Scanning(n: Node, haystack: Text, i: nat)
      reads this, repr
    {
      && Valid() && IsBytes(haystack) && i <= |haystack|
      && n == nodes[LongestSuffix(nodes.Keys, haystack[..i])]
      && forall j :: 0 <= j < i ==> !AcceptsAt(nodes.Keys, accept, haystack, j)
    }

    /** The body of the scanning loop. */
    method ScanByte(n: Node, haystack: Text, i: nat) returns (m: Node, hit: bool)
      requires Scanning(n, haystack, i) && i < |haystack|
      ensures if hit then AcceptsAt(nodes.Keys, accept, haystack, i) else Scanning(m, haystack, i + 1)
    {
      ScanStep(haystack, i);
      var c := haystack[i];
      if c >= 128 { return root, false; }
      m := n.next[c];
      hit := m.out;
    }

    /** `Contains`: scan from the root, resetting on bytes outside ASCII. */
    method Contains(haystack: Text) returns (found: bool)
      requires Valid() && IsBytes(haystack)
      ensures found == Accepts(nodes.Keys, accept, haystack)
    {
      if |haystack| == 0 { return false; }
      var n := root;
      assert haystack[..0] == [];
      for i := 0 to |haystack|
        invariant Scanning(n, haystack, i)
      {
        var hit;
        n, hit := ScanByte(n, haystack, i);
        if hit { return true; }
      }
      return false;
    }

    /** The queue holds the nodes of the discovered words from position `k` on. */
    ghost predicate Queue(q: seq<Node>, order: seq<Text>, k: nat)
      reads this
    {
      && k <= |order| && |q| == |order| - k
      && forall i :: k <= i < |order| ==> order[i] in nodes && q[i - k] == nodes[order[i]]
    }

    lemma QueuePush(q: seq<Node>, order: seq<Text>, k: nat, u: Node, v: Text)
      requires Queue(q, order, k) && v in nodes && u == nodes[v]
      ensures Queue(q + [u], order + [v], k)
    {
      var q', order' := q + [u], order + [v];
      forall i | k <= i < |order'| ensures order'[i] in nodes && q'[i - k] == nodes[order'[i]] {
        assert i < |order| ==> order'[i] == order[i];
      }
    }
  }

  /** `NewMatcher`: insert every non-empty pattern, then link. */
  method NewMatcher(patterns: seq<Text>) returns (m: Matcher)
    requires forall i :: 0 <= i < |patterns| ==> IsBytes(patterns[i])
    ensures m.Valid() && fresh(m) && fresh(m.repr)
    ensures m.accept == Projected(patterns) && m.nodes.Keys == PrefixesOf(m.accept)
  {
    m := new Matcher();
    m.InsertAll(patterns);
    var _ := m.BuildFail();
  }

  /** No non-empty pattern consists only of bytes outside ASCII. */
  predicate Projectable(patterns: seq<Text>) {
    forall i :: 0 <= i < |patterns| ==> patterns[i] == [] || AsciiOf(patterns[i]) != []
  }

  /** Some non-empty pattern's ASCII projection occurs in the haystack. */
  ghost predicate SomePatternOccurs(patterns: seq<Text>, haystack: Text) {
    exists i :: 0 <= i < |patterns| && patterns[i] != [] && Occurs(AsciiOf(patterns[i]), haystack)
  }

  lemma AnyOccursOfProjected(patterns: seq<Text>, haystack: Text)
    ensures AnyOccurs(Projected(patterns), haystack) <==> SomePatternOccurs(patterns, haystack)
    ensures Projectable(patterns) <==> [] !in Projected(patterns)
  {
    if AnyOccurs(Projected(patterns), haystack) {
      var w :| w in Projected(patterns) && Occurs(w, haystack);
      var p :| p in patterns && p != [] && w == AsciiOf(p);
      var i :| 0 <= i < |patterns| && patterns[i] == p;
    }
    if i :| 0 <= i < |patterns| && patterns[i] != [] && Occurs(AsciiOf(patterns[i]), haystack) {
      assert patterns[i] in patterns && AsciiOf(patterns[i]) in Projected(patterns);
    }
    if [] in Projected(patterns) {
      var p :| p in patterns && p != [] && AsciiOf(p) == [];
      var i :| 0 <= i < |patterns| && patterns[i] == p;
    }
    if i :| 0 <= i < |patterns| && patterns[i] != [] && AsciiOf(patterns[i]) == [] {
      assert patterns[i] in patterns;
    }
  }

  /** What a matcher built from the patterns answers. */
  ghost predicate Scans(patterns: seq<Text>, haystack: Text) {
    var accept := Projected(patterns);
    Accepts(PrefixesOf(accept), accept, haystack)
  }

  lemma ProjectedIsAscii(patterns: seq<Text>)
    requires forall i :: 0 <= i < |patterns| ==> IsBytes(patterns[i])
    ensures Projected(patterns) <= PrefixesOf(Projected(patterns))
    ensures forall w :: w in PrefixesOf(Projected(patterns)) ==> IsAscii(w)
  {
    var accept := Projected(patterns);
    forall p | p in accept ensures p in PrefixesOf(accept) {
      assert p[..|p|] == p;
      assert p in Prefixes(p);
    }
  }

  lemma ScansWhenProjectable(patterns: seq<Text>, haystack: Text)
    requires Projectable(patterns) && forall i :: 0 <= i < |patterns| ==> IsBytes(patterns[i])
    ensures Scans(patterns, haystack) <==> SomePatternOccurs(patterns, haystack)
  {
    var accept := Projected(patterns);
    ProjectedIsAscii(patterns);
    AnyOccursOfProjected(patterns, haystack);
    AcceptsIffOccurs(PrefixesOf(accept), accept, haystack);
  }

  /** Build and scan: the multipattern search as callers use it. */
  method Search(patterns: seq<Text>, haystack: Text) returns (found: bool)
    requires IsBytes(haystack) && forall i :: 0 <= i < |patterns| ==> IsBytes(patterns[i])
    ensures found <==> Scans(patterns, haystack)
    ensures Projectable(patterns) ==> (found <==> SomePatternOccurs(patterns, haystack))
  {
    var m := NewMatcher(patterns);
    m.AcceptsMeansOccurs(haystack);
    found := m.Contains(haystack);
    AnyOccursOfProjected(patterns, haystack);
  }
}
