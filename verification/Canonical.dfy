/** The string a challenge is signed over: `canonicalParams` and `canonicalChallenge`. */
module Canonical {
  import opened Basics
  import opened Decimal
  import Sorting
  import opened Separators

  /** Byte-wise string order. */
  predicate Less(a: string, b: string) {
    b != [] && (a == [] || a[0] < b[0] || (a[0] == b[0] && Less(a[1..], b[1..])))
  }

  lemma {:induction false} LessIrreflexive(a: string)
    ensures !Less(a, a)
  {
    if a != [] {
      LessIrreflexive(a[1..]);
    }
  }

  lemma {:induction false} LessTransitive(a: string, b: string, c: string)
    requires Less(a, b) && Less(b, c)
    ensures Less(a, c)
  {
    if a != [] && a[0] == b[0] && b[0] == c[0] {
      LessTransitive(a[1..], b[1..], c[1..]);
    }
  }

  lemma {:induction false} LessTotal(a: string, b: string)
    ensures a == b || Less(a, b) || Less(b, a)
  {
    if a != [] && b != [] && a[0] == b[0] {
      LessTotal(a[1..], b[1..]);
      assert a == [a[0]] + a[1..] && b == [b[0]] + b[1..];
    }
  }

  lemma LessIsOrder()
    ensures Sorting.StrictOrder(Less)
  {
    forall x ensures !Less(x, x) {
      LessIrreflexive(x);
    }
    forall x, y, z | Less(x, y) && Less(y, z) ensures Less(x, z) {
      LessTransitive(x, y, z);
    }
  }

  ghost function Elements(s: seq<string>): set<string> {
    set x | x in s
  }

  /** Strictly increasing. */
  ghost predicate Increasing(s: seq<string>) {
    forall i, j :: 0 <= i < j < |s| ==> Less(s[i], s[j])
  }

  /** There is only one increasing listing of a set. */
  lemma {:induction false} ListingUnique(s: seq<string>, t: seq<string>)
    requires Increasing(s) && Increasing(t) && Elements(s) == Elements(t)
    ensures s == t
  {
    if s == [] || t == [] {
      NoElements(s);
      NoElements(t);
    } else {
      HeadsAgree(s, t);
      TailElements(s);
      TailElements(t);
      ListingUnique(s[1..], t[1..]);
      assert s == [s[0]] + s[1..] && t == [t[0]] + t[1..];
    }
  }

  lemma NoElements(s: seq<string>)
    ensures Elements(s) == {} <==> s == []
  {
    if s != [] {
      assert s[0] in Elements(s);
    }
  }

  lemma HeadsAgree(s: seq<string>, t: seq<string>)
    requires Increasing(s) && Increasing(t) && Elements(s) == Elements(t) && s != [] && t != []
    ensures s[0] == t[0]
  {
    assert s[0] in Elements(t) && t[0] in Elements(s);
    var i :| 0 <= i < |t| && t[i] == s[0];
    var j :| 0 <= j < |s| && s[j] == t[0];
    if s[0] != t[0] {
      assert Less(t[0], s[0]) && Less(s[0], t[0]);
      LessTransitive(s[0], t[0], s[0]);
      LessIrreflexive(s[0]);
    }
  }

  lemma TailElements(s: seq<string>)
    requires Increasing(s) && s != []
    ensures Elements(s[1..]) == Elements(s) - {s[0]}
  {
    forall x | x in s[1..] ensures x != s[0] {
      var i :| 0 <= i < |s[1..]| && s[1..][i] == x;
      LessIrreflexive(x);
    }
    assert s == [s[0]] + s[1..];
  }

  /** The increasing listing of a finite set. */
  ghost predicate Lists(s: seq<string>, keys: set<string>) {
    Increasing(s) && Elements(s) == keys
  }

  /** The text of the parameters, names in the given order. */
  function Pairs(p: map<string, int>, keys: seq<string>): string
    requires forall k :: k in keys ==> k in p
    decreases |keys|, 0
  {
    if keys == [] then ""
    else Pair(p, keys[0]) + Tail(p, keys[1..])
  }

  function Pair(p: map<string, int>, k: string): string
    requires k in p
  {
    k + "=" + Itoa(p[k])
  }

  /** What follows a pair: nothing, or a comma and the remaining pairs. */
  function Tail(p: map<string, int>, keys: seq<string>): string
    requires forall k :: k in keys ==> k in p
    decreases |keys|, 1
  {
    if keys == [] then "" else "," + Pairs(p, keys)
  }

  /** `s` is the canonical text of `p`. */
  ghost predicate IsCanonical(p: map<string, int>, s: string) {
    exists keys :: Lists(keys, p.Keys) && (forall k :: k in keys ==> k in p) && s == Pairs(p, keys)
  }

  /** The sort leaves the increasing listing, whatever order the map was iterated in. */
  lemma OrderedIsListing(sorted: seq<string>, order: seq<string>, keys: set<string>)
    requires Distinct(order) && Elements(order) == keys && multiset(sorted) == multiset(order)
    requires Sorting.Ordered(sorted, Less)
    ensures Lists(sorted, keys)
  {
    forall x ensures x in sorted <==> x in order {
      assert x in multiset(sorted) <==> x in multiset(order);
    }
    forall i, j | 0 <= i < j < |sorted| ensures Less(sorted[i], sorted[j]) {
      LessTotal(sorted[i], sorted[j]);
      if sorted[i] == sorted[j] {
        TwiceInMultiset(sorted, i, j);
        OnceInMultiset(order, sorted[i]);
      }
    }
  }

  lemma TwiceInMultiset(s: seq<string>, i: int, j: int)
    requires 0 <= i < j < |s| && s[i] == s[j]
    ensures multiset(s)[s[i]] >= 2
  {
    assert s == s[..j] + [s[j]] + s[j + 1..];
    assert s[..j][i] == s[i];
    assert s[i] in multiset(s[..j]);
  }

  lemma {:induction false} OnceInMultiset(s: seq<string>, x: string)
    requires Distinct(s)
    ensures multiset(s)[x] <= 1
  {
    if s != [] {
      var n := |s| - 1;
      OnceInMultiset(s[..n], x);
      assert s == s[..n] + [s[n]];
      if s[n] == x {
        assert x !in s[..n];
        assert x !in multiset(s[..n]);
      }
    }
  }

  /** `canonicalParams`; `order` is whatever order the map happens to be iterated in. */
  method CanonicalParams(p: map<string, int>, order: seq<string>) returns (s: string)
    requires Distinct(order) && Elements(order) == p.Keys
    ensures IsCanonical(p, s)
  {
    if |p| == 0 {
      assert Lists([], p.Keys);
      return "";
    }
    var keys := new string[|order|](i requires 0 <= i < |order| => order[i]);
    assert keys[..] == order;
    LessIsOrder();
    Sorting.ExchangeSort(keys, Less);
    OrderedIsListing(keys[..], order, p.Keys);
    s := WritePairs(p, keys[..]);
  }

  /** What one pass of the builder loop writes. */
  function Piece(p: map<string, int>, keys: seq<string>, i: int): string
    requires 0 <= i < |keys| && keys[i] in p
  {
    (if i > 0 then "," else "") + Pair(p, keys[i])
  }

  /** The builder loop. */
  method WritePairs(p: map<string, int>, keys: seq<string>) returns (s: string)
    requires forall k :: k in keys ==> k in p
    ensures s == Pairs(p, keys)
  {
    s := "";
    for i := 0 to |keys|
      invariant s + Rest(p, keys, i) == Pairs(p, keys)
    {
      RestStep(p, keys, i);
      Regroup(s, Piece(p, keys, i), Rest(p, keys, i + 1));
      s := s + Piece(p, keys, i);
    }
  }

  lemma Regroup(a: string, b: string, c: string)
    ensures (a + b) + c == a + (b + c)
  {
  }

  /** What the loop still has to write. */
  ghost function Rest(p: map<string, int>, keys: seq<string>, i: int): string
    requires 0 <= i <= |keys| && forall k :: k in keys ==> k in p
  {
    if i == 0 then Pairs(p, keys) else Tail(p, keys[i..])
  }

  lemma RestStep(p: map<string, int>, keys: seq<string>, i: int)
    requires 0 <= i < |keys| && forall k :: k in keys ==> k in p
    ensures Rest(p, keys, i) == Piece(p, keys, i) + Rest(p, keys, i + 1)
  {
    assert keys[i..][1..] == keys[i + 1..] && keys[0..] == keys;
    if i > 0 {
      assert Pairs(p, keys[i..]) == Pair(p, keys[i]) + Tail(p, keys[i + 1..]);
      Regroup(",", Pair(p, keys[i]), Tail(p, keys[i + 1..]));
    } else {
      Regroup("", Pair(p, keys[i]), Tail(p, keys[i + 1..]));
    }
  }

  /** The text does not depend on the iteration order. */
  lemma OrderIrrelevant(p: map<string, int>, s1: string, s2: string)
    requires IsCanonical(p, s1) && IsCanonical(p, s2)
    ensures s1 == s2
  {
    var k1 :| Lists(k1, p.Keys) && (forall k :: k in k1 ==> k in p) && s1 == Pairs(p, k1);
    var k2 :| Lists(k2, p.Keys) && (forall k :: k in k2 ==> k in p) && s2 == Pairs(p, k2);
    ListingUnique(k1, k2);
  }

  // ---------------------------------------------------------------------------
  // Injectivity

  ghost predicate NoEquals(keys: seq<string>) {
    forall k :: k in keys ==> '=' !in k
  }

  /** The parameter text determines names, order and values. */
  lemma {:induction false} PairsInjective(p: map<string, int>, ks: seq<string>, q: map<string, int>, ls: seq<string>)
    requires (forall k :: k in ks ==> k in p) && (forall k :: k in ls ==> k in q)
    requires NoEquals(ks) && NoEquals(ls) && Pairs(p, ks) == Pairs(q, ls)
    ensures ks == ls && forall k :: k in ks ==> p[k] == q[k]
    decreases |ks|
  {
    if ks != [] && ls != [] {
      PairsHead(p, ks, q, ls);
      if ks[1..] != [] && ls[1..] != [] {
        assert Tail(p, ks[1..])[1..] == Pairs(p, ks[1..]) && Tail(q, ls[1..])[1..] == Pairs(q, ls[1..]);
        PairsInjective(p, ks[1..], q, ls[1..]);
      }
      assert ks == [ks[0]] + ks[1..] && ls == [ls[0]] + ls[1..];
    }
  }

  lemma PairsHead(p: map<string, int>, ks: seq<string>, q: map<string, int>, ls: seq<string>)
    requires (forall k :: k in ks ==> k in p) && (forall k :: k in ls ==> k in q)
    requires ks != [] && ls != [] && NoEquals(ks) && NoEquals(ls) && Pairs(p, ks) == Pairs(q, ls)
    ensures ks[0] == ls[0] && p[ks[0]] == q[ls[0]] && Tail(p, ks[1..]) == Tail(q, ls[1..])
  {
    var k, l := ks[0], ls[0];
    var v, w := Itoa(p[k]), Itoa(q[l]);
    var t, u := Tail(p, ks[1..]), Tail(q, ls[1..]);
    assert Pairs(p, ks) == k + ['='] + (v + t);
    assert Pairs(q, ls) == l + ['='] + (w + u);
    SplitAt('=', k, v + t, l, w + u);
    ItoaAlphabet(p[k], ',');
    ItoaAlphabet(q[l], ',');
    SplitAtOrEnd(',', v, t, w, u);
    ItoaInjective(p[k], q[l]);
  }

  // ---------------------------------------------------------------------------
  // The whole challenge

  datatype Challenge = Challenge(
    v: int, algorithm: string, challenge: string, salt: string, difficulty: int, maxNumber: nat,
    expires: int, bind: string, gate: string, params: map<string, int>)

  /** `NormalizeGate`; `fold` stands for trimming white space and lowering case. */
  function NormalizeGate(fold: string -> string, gate: string): string {
    if fold(gate) == "interactive" then "interactive" else "invisible"
  }

  /** The fields in front of the parameters. */
  function Fields(fold: string -> string, ch: Challenge): seq<string> {
    [Itoa(ch.v), ch.algorithm, ch.challenge, ch.salt, Itoa(ch.difficulty), Digits(ch.maxNumber),
     Itoa(ch.expires), ch.bind, NormalizeGate(fold, ch.gate)]
  }

  /** Every field followed by a bar. */
  function Barred(fields: seq<string>): string {
    if fields == [] then "" else fields[0] + "|" + Barred(fields[1..])
  }

  /** `s` is the string the challenge is signed over. */
  ghost predicate IsSigningString(fold: string -> string, ch: Challenge, s: string) {
    exists params :: IsCanonical(ch.params, params) && s == Barred(Fields(fold, ch)) + params
  }

  /** `canonicalChallenge`; `order` is whatever order the parameter map happens to be iterated in. */
  method CanonicalChallenge(fold: string -> string, ch: Challenge, order: seq<string>) returns (s: string)
    requires Distinct(order) && Elements(order) == ch.params.Keys
    ensures IsSigningString(fold, ch, s)
  {
    s := "";
    var fields := Fields(fold, ch);
    for i := 0 to |fields|
      invariant s + Barred(fields[i..]) == Barred(fields)
    {
      assert fields[i..][1..] == fields[i + 1..];
      Regroup(s, fields[i] + "|", Barred(fields[i + 1..]));
      s := s + (fields[i] + "|");
    }
    assert fields[|fields|..] == [];
    assert s == Barred(fields);
    var params := CanonicalParams(ch.params, order);
    s := s + params;
  }

  /** No bar in the free-text fields, no equals sign in the parameter names. */
  ghost predicate Clean(ch: Challenge) {
    && '|' !in ch.algorithm && '|' !in ch.challenge && '|' !in ch.salt && '|' !in ch.bind
    && forall k :: k in ch.params ==> '=' !in k
  }

  /** The challenges agree on everything that is signed. */
  ghost predicate Agree(fold: string -> string, c1: Challenge, c2: Challenge) {
    c1.(gate := "") == c2.(gate := "") && NormalizeGate(fold, c1.gate) == NormalizeGate(fold, c2.gate)
  }

  lemma {:induction false} BarredInjective(f: seq<string>, t: string, g: seq<string>, u: string)
    requires |f| == |g| && Barred(f) + t == Barred(g) + u
    requires forall i :: 0 <= i < |f| ==> '|' !in f[i] && '|' !in g[i]
    ensures f == g && t == u
    decreases |f|
  {
    if f != [] {
      Regroup(f[0] + "|", Barred(f[1..]), t);
      Regroup(g[0] + "|", Barred(g[1..]), u);
      SplitAt('|', f[0], Barred(f[1..]) + t, g[0], Barred(g[1..]) + u);
      BarredInjective(f[1..], t, g[1..], u);
      assert f == [f[0]] + f[1..] && g == [g[0]] + g[1..];
    } else {
      assert Barred(f) + t == t && Barred(g) + u == u;
    }
  }

  lemma FieldsClean(fold: string -> string, ch: Challenge)
    requires Clean(ch)
    ensures forall i :: 0 <= i < |Fields(fold, ch)| ==> '|' !in Fields(fold, ch)[i]
  {
    ItoaAlphabet(ch.v, '|');
    ItoaAlphabet(ch.difficulty, '|');
    ItoaAlphabet(ch.maxNumber, '|');
    ItoaAlphabet(ch.expires, '|');
  }

  /** Equal parameter texts come from equal parameters. */
  lemma ParamsInjective(p: map<string, int>, q: map<string, int>, s: string)
    requires IsCanonical(p, s) && IsCanonical(q, s)
    requires (forall k :: k in p ==> '=' !in k) && (forall k :: k in q ==> '=' !in k)
    ensures p == q
  {
    var ks :| Lists(ks, p.Keys) && (forall k :: k in ks ==> k in p) && s == Pairs(p, ks);
    var ls :| Lists(ls, q.Keys) && (forall k :: k in ls ==> k in q) && s == Pairs(q, ls);
    PairsInjective(p, ks, q, ls);
    ListedMapsEqual(p, q, ks);
  }

  lemma ListedMapsEqual(p: map<string, int>, q: map<string, int>, ks: seq<string>)
    requires Elements(ks) == p.Keys == q.Keys && forall k :: k in ks ==> k in p && k in q && p[k] == q[k]
    ensures p == q
  {
    forall k | k in p ensures p[k] == q[k] {
      assert k in Elements(ks);
    }
  }

  /** Two clean challenges with the same signing string agree on everything that is signed. */
  lemma SigningStringInjective(fold: string -> string, c1: Challenge, c2: Challenge, s: string)
    requires Clean(c1) && Clean(c2) && IsSigningString(fold, c1, s) && IsSigningString(fold, c2, s)
    ensures Agree(fold, c1, c2)
  {
    var p1 :| IsCanonical(c1.params, p1) && s == Barred(Fields(fold, c1)) + p1;
    var p2 :| IsCanonical(c2.params, p2) && s == Barred(Fields(fold, c2)) + p2;
    FieldsClean(fold, c1);
    FieldsClean(fold, c2);
    BarredInjective(Fields(fold, c1), p1, Fields(fold, c2), p2);
    FieldsDetermine(fold, c1, c2);
    ParamsInjective(c1.params, c2.params, p1);
  }

  lemma FieldsDetermine(fold: string -> string, c1: Challenge, c2: Challenge)
    requires Fields(fold, c1) == Fields(fold, c2)
    ensures Agree(fold, c1.(params := map[]), c2.(params := map[]))
  {
    var f, g := Fields(fold, c1), Fields(fold, c2);
    assert f[0] == g[0] && f[1] == g[1] && f[2] == g[2] && f[3] == g[3] && f[4] == g[4];
    assert f[5] == g[5] && f[6] == g[6] && f[7] == g[7] && f[8] == g[8];
    ItoaInjective(c1.v, c2.v);
    ItoaInjective(c1.difficulty, c2.difficulty);
    ItoaInjective(c1.maxNumber, c2.maxNumber);
    ItoaInjective(c1.expires, c2.expires);
  }

  // ---------------------------------------------------------------------------
  // When only one of the two challenges is known to be clean

  function CountOf(c: char, s: string): nat {
    multiset(s)[c]
  }

  /** Each field brings at least one bar, and only one if it is clean. */
  lemma {:induction false} BarsInBarred(f: seq<string>)
    ensures CountOf('|', Barred(f)) >= |f|
    ensures CountOf('|', Barred(f)) == |f| <==> forall i :: 0 <= i < |f| ==> '|' !in f[i]
  {
    if f != [] {
      BarsInBarred(f[1..]);
      CountsAdd('|', f[0] + "|", Barred(f[1..]));
      CountsAdd('|', f[0], "|");
      Absent('|', f[0]);
      assert f == [f[0]] + f[1..];
    }
  }

  lemma CountsAdd(c: char, a: string, b: string)
    ensures CountOf(c, a + b) == CountOf(c, a) + CountOf(c, b)
  {
  }

  lemma Absent(c: char, s: string)
    ensures CountOf(c, s) == 0 <==> c !in s
  {
    assert c in s <==> c in multiset(s);
  }

  /** Where a character comes from: the first name, the notation, and the rest. */
  lemma CountInHead(c: char, p: map<string, int>, ks: seq<string>)
    requires ks != [] && (forall k :: k in ks ==> k in p) && !IsDigit(c) && c != '-' && c != ','
    ensures CountOf(c, Pairs(p, ks)) == CountOf(c, ks[0]) + (if c == '=' then 1 else 0) + CountOf(c, Pairs(p, ks[1..]))
  {
    var v := Itoa(p[ks[0]]);
    CountsAdd(c, Pair(p, ks[0]), Tail(p, ks[1..]));
    CountsAdd(c, ks[0] + "=", v);
    CountsAdd(c, ks[0], "=");
    ItoaAlphabet(p[ks[0]], c);
    Absent(c, v);
    if ks[1..] != [] {
      CountsAdd(c, ",", Pairs(p, ks[1..]));
    }
  }

  /** How often a character occurs in the names. */
  function CountInNames(c: char, ks: seq<string>): nat {
    if ks == [] then 0 else CountOf(c, ks[0]) + CountInNames(c, ks[1..])
  }

  lemma {:induction false} NamesWithout(c: char, ks: seq<string>)
    ensures CountInNames(c, ks) == 0 <==> forall k :: k in ks ==> c !in k
  {
    if ks != [] {
      NamesWithout(c, ks[1..]);
      Absent(c, ks[0]);
      assert ks == [ks[0]] + ks[1..];
    }
  }

  lemma {:induction false} CountInAllPairs(c: char, p: map<string, int>, ks: seq<string>)
    requires (forall k :: k in ks ==> k in p) && !IsDigit(c) && c != '-' && c != ','
    ensures CountOf(c, Pairs(p, ks)) == CountInNames(c, ks) + if c == '=' then |ks| else 0
    decreases |ks|
  {
    if ks != [] {
      CountInHead(c, p, ks);
      CountInAllPairs(c, p, ks[1..]);
    }
  }

  /** A character that is in no name is in the text only where the notation puts it, and conversely. */
  lemma CountInPairs(c: char, p: map<string, int>, ks: seq<string>)
    requires (forall k :: k in ks ==> k in p) && !IsDigit(c) && c != '-' && c != ','
    ensures CountOf(c, Pairs(p, ks)) >= if c == '=' then |ks| else 0
    ensures CountOf(c, Pairs(p, ks)) == (if c == '=' then |ks| else 0) <==> forall k :: k in ks ==> c !in k
  {
    CountInAllPairs(c, p, ks);
    NamesWithout(c, ks);
  }

  /** No bar in the free-text fields or the parameter names, and no equals sign in the names. */
  ghost predicate WellIssued(ch: Challenge) {
    Clean(ch) && forall k :: k in ch.params ==> '|' !in k
  }

  /** A challenge with the same signing string as a well-issued one has no stray bar anywhere. */
  lemma SameFields(fold: string -> string, c1: Challenge, p1: string, c2: Challenge, p2: string)
    requires WellIssued(c1) && IsCanonical(c1.params, p1)
    requires Barred(Fields(fold, c1)) + p1 == Barred(Fields(fold, c2)) + p2
    ensures Fields(fold, c1) == Fields(fold, c2) && p1 == p2
  {
    var f, g := Fields(fold, c1), Fields(fold, c2);
    var ks :| Lists(ks, c1.params.Keys) && (forall k :: k in ks ==> k in c1.params) && p1 == Pairs(c1.params, ks);
    FieldsClean(fold, c1);
    BarsInBarred(f);
    BarsInBarred(g);
    CountInPairs('|', c1.params, ks);
    CountsAdd('|', Barred(f), p1);
    CountsAdd('|', Barred(g), p2);
    BarredInjective(f, p1, g, p2);
  }

  /** With at most one parameter, its text alone tells that there is no other. */
  lemma FewParams(p: map<string, int>, q: map<string, int>, s: string)
    requires IsCanonical(p, s) && IsCanonical(q, s) && (forall k :: k in p ==> '=' !in k)
    requires |p| <= 1 || forall k :: k in q ==> '=' !in k
    ensures p == q
  {
    if |p| <= 1 {
      var ks :| Lists(ks, p.Keys) && (forall k :: k in ks ==> k in p) && s == Pairs(p, ks);
      var ls :| Lists(ls, q.Keys) && (forall k :: k in ls ==> k in q) && s == Pairs(q, ls);
      ListingShort(ks, p.Keys);
      CountInPairs('=', p, ks);
      CountInPairs('=', q, ls);
      assert NoEquals(ls) by {
        if |ls| == 0 {
          assert ls == [];
        } else {
          assert CountOf('=', Pairs(q, ls)) == |ls|;
        }
      }
      forall k | k in q ensures '=' !in k {
        assert k in Elements(ls);
      }
    }
    ParamsInjective(p, q, s);
  }

  lemma ListingShort(ks: seq<string>, keys: set<string>)
    requires Lists(ks, keys) && |keys| <= 1
    ensures |ks| <= 1
  {
    if |ks| >= 2 {
      assert ks[0] in Elements(ks) && ks[1] in Elements(ks) && Less(ks[0], ks[1]);
      LessIrreflexive(ks[0]);
      assert {ks[0], ks[1]} <= keys;
      TwoOf(keys, ks[0], ks[1]);
    }
  }

  lemma TwoOf(keys: set<string>, a: string, b: string)
    requires a in keys && b in keys && a != b
    ensures |keys| >= 2
  {
    assert |keys| == |keys - {a}| + 1 && |keys - {a}| == |keys - {a} - {b}| + 1;
  }

  /**
   * Any challenge at all with the signing string of a well-issued one agrees with it on everything that is
   * signed; only two or more parameters need clean names on the other side too.
   */
  lemma SignedLikeIssued(fold: string -> string, issued: Challenge, c: Challenge, s: string)
    requires WellIssued(issued) && IsSigningString(fold, issued, s) && IsSigningString(fold, c, s)
    ensures Agree(fold, issued.(params := map[]), c.(params := map[]))
    ensures |issued.params| <= 1 || (forall k :: k in c.params ==> '=' !in k) ==> Agree(fold, issued, c)
  {
    var p1 :| IsCanonical(issued.params, p1) && s == Barred(Fields(fold, issued)) + p1;
    var p2 :| IsCanonical(c.params, p2) && s == Barred(Fields(fold, c)) + p2;
    SameFields(fold, issued, p1, c, p2);
    FieldsDetermine(fold, issued, c);
    if |issued.params| <= 1 || forall k :: k in c.params ==> '=' !in k {
      FewParams(issued.params, c.params, p1);
    }
  }

  /** Conversely, challenges that agree have the same signing string. */
  lemma AgreeSignAlike(fold: string -> string, c1: Challenge, c2: Challenge, s1: string, s2: string)
    requires Agree(fold, c1, c2) && IsSigningString(fold, c1, s1) && IsSigningString(fold, c2, s2)
    ensures s1 == s2
  {
    var p1 :| IsCanonical(c1.params, p1) && s1 == Barred(Fields(fold, c1)) + p1;
    var p2 :| IsCanonical(c2.params, p2) && s2 == Barred(Fields(fold, c2)) + p2;
    OrderIrrelevant(c1.params, p1, p2);
  }

  /** A bar in a free-text field can move to its neighbour without changing the string. */
  lemma BarsCollide(fold: string -> string, ch: Challenge, a: string, b: string, c: string, s: string)
    requires IsSigningString(fold, ch.(algorithm := a + "|" + b, challenge := c), s)
    ensures IsSigningString(fold, ch.(algorithm := a, challenge := b + "|" + c), s)
    ensures !Agree(fold, ch.(algorithm := a + "|" + b, challenge := c), ch.(algorithm := a, challenge := b + "|" + c))
  {
    var c1, c2 := ch.(algorithm := a + "|" + b, challenge := c), ch.(algorithm := a, challenge := b + "|" + c);
    BarMoves(Fields(fold, c1), Fields(fold, c2), a, b, c);
    var params :| IsCanonical(ch.params, params) && s == Barred(Fields(fold, c1)) + params;
    assert s == Barred(Fields(fold, c2)) + params;
    assert |a + "|" + b| > |a|;
  }

  lemma BarMoves(f: seq<string>, g: seq<string>, a: string, b: string, c: string)
    requires |f| >= 3 && |g| >= 3 && f[0] == g[0] && f[3..] == g[3..]
    requires f[1] == a + "|" + b && f[2] == c && g[1] == a && g[2] == b + "|" + c
    ensures Barred(f) == Barred(g)
  {
    BarredThree(f);
    BarredThree(g);
    var rest := Barred(f[3..]);
    assert (a + "|" + b) + "|" + (c + "|" + rest) == a + "|" + ((b + "|" + c) + "|" + rest);
  }

  lemma BarredThree(f: seq<string>)
    requires |f| >= 3
    ensures Barred(f) == f[0] + "|" + (f[1] + "|" + (f[2] + "|" + Barred(f[3..])))
  {
    assert f[1..][1..] == f[2..] && f[2..][1..] == f[3..];
    assert Barred(f[2..]) == f[2] + "|" + Barred(f[3..]);
    assert Barred(f[1..]) == f[1] + "|" + Barred(f[2..]);
  }

  /** What ends a parameter text. */
  function Ending(v: int): string {
    "=" + Itoa(v)
  }

  lemma PairsStep(p: map<string, int>, ks: seq<string>)
    requires |ks| >= 2 && forall k :: k in ks ==> k in p
    ensures Pairs(p, ks) == Pair(p, ks[0]) + ("," + Pairs(p, ks[1..]))
  {
  }

  lemma PairsOne(p: map<string, int>, k: string)
    requires k in p
    ensures Pairs(p, [k]) == k + Ending(p[k])
  {
    assert [k][1..] == [] && Tail(p, []) == "";
    Regroup(k, "=", Itoa(p[k]));
  }

  lemma Swallow(pair: string, name: string, ending: string)
    ensures pair + ("," + (name + ending)) == (pair + "," + name) + ending
  {
  }

  /** The text up to the last equals sign. */
  lemma {:induction false} FrontAndLast(p: map<string, int>, ks: seq<string>) returns (name: string)
    requires ks != [] && forall k :: k in ks ==> k in p
    ensures Pairs(p, ks) == name + Ending(p[ks[|ks| - 1]])
    decreases |ks|
  {
    if |ks| == 1 {
      name := ks[0];
      PairsOne(p, ks[0]);
      assert ks == [ks[0]];
    } else {
      var tail := ks[1..];
      var rest := FrontAndLast(p, tail);
      assert tail[|tail| - 1] == ks[|ks| - 1];
      name := Pair(p, ks[0]) + "," + rest;
      PairsStep(p, ks);
      Swallow(Pair(p, ks[0]), rest, Ending(p[ks[|ks| - 1]]));
    }
  }

  /** A single parameter's text. */
  lemma OnePair(name: string, v: int)
    ensures IsCanonical(map[name := v], name + Ending(v))
  {
    var q := map[name := v];
    assert Lists([name], q.Keys);
    PairsOne(q, name);
  }

  lemma {:induction false} ListingLong(ks: seq<string>, keys: set<string>)
    requires Lists(ks, keys) && |keys| >= 2
    ensures ks != []
  {
    NoElements(ks);
  }

  /** Every text of two or more parameters is also the text of one, whose name swallows all the pairs but the last. */
  lemma EqualsCollide(p: map<string, int>, s: string) returns (q: map<string, int>)
    requires IsCanonical(p, s) && |p| >= 2
    ensures IsCanonical(q, s) && |q| == 1 && q != p
  {
    var ks :| Lists(ks, p.Keys) && (forall k :: k in ks ==> k in p) && s == Pairs(p, ks);
    ListingLong(ks, p.Keys);
    var name := FrontAndLast(p, ks);
    var v := p[ks[|ks| - 1]];
    OnePair(name, v);
    q := map[name := v];
  }

  /** A well-issued challenge is the only one with its signing string exactly when it has at most one parameter. */
  lemma UnambiguousIff(fold: string -> string, ch: Challenge, s: string)
    requires WellIssued(ch) && IsSigningString(fold, ch, s)
    ensures (forall c :: IsSigningString(fold, c, s) ==> Agree(fold, ch, c)) <==> |ch.params| <= 1
  {
    if |ch.params| <= 1 {
      forall c | IsSigningString(fold, c, s) ensures Agree(fold, ch, c) {
        SignedLikeIssued(fold, ch, c, s);
      }
    } else {
      var p :| IsCanonical(ch.params, p) && s == Barred(Fields(fold, ch)) + p;
      var q := EqualsCollide(ch.params, p);
      var c := ch.(params := q);
      assert Fields(fold, c) == Fields(fold, ch);
      assert IsSigningString(fold, c, s) && !Agree(fold, ch, c);
    }
  }

  // ---------------------------------------------------------------------------
  // The texts, character by character

  /** The order of the names: by the first character in which they differ, a shorter one before its extensions. */
  lemma {:induction false} LessMeans(a: string, b: string)
    ensures Less(a, b) <==>
      exists i :: 0 <= i <= |a| && i < |b| && a[..i] == b[..i] && (i == |a| || a[i] < b[i])
    decreases |a|
  {
    if a == [] || b == [] || a[0] != b[0] {
      if Less(a, b) {
        assert a[..0] == b[..0];
      }
    } else {
      var p, q := a[1..], b[1..];
      LessMeans(p, q);
      if i :| 0 <= i <= |p| && i < |q| && p[..i] == q[..i] && (i == |p| || p[i] < q[i]) {
        assert a[..i + 1] == [a[0]] + p[..i] && b[..i + 1] == [b[0]] + q[..i];
      }
      if i :| 0 <= i <= |a| && i < |b| && a[..i] == b[..i] && (i == |a| || a[i] < b[i]) {
        assert i > 0;
        assert p[..i - 1] == a[..i][1..] && q[..i - 1] == b[..i][1..];
      }
    }
  }

  /** The parameters: nothing, one pair, or pairs in order with commas between them. */
  lemma ParamsText(k: string, v: int, l: string, w: int)
    ensures IsCanonical(map[], "")
    ensures IsCanonical(map[k := v], k + "=" + Itoa(v))
    ensures Less(k, l) ==>
      IsCanonical(map[k := v, l := w], k + "=" + Itoa(v) + "," + (l + "=" + Itoa(w)))
  {
    var none: map<string, int> := map[];
    assert Lists([], none.Keys) && Pairs(none, []) == "";
    var p := map[k := v];
    assert Lists([k], p.Keys) && [k][1..] == [] && Pairs(p, [k]) == Pair(p, k) + "";
    if Less(k, l) {
      LessIrreflexive(k);
      var q := map[k := v, l := w];
      var ks := [k, l];
      assert ks[1..] == [l] && [l][1..] == [] && Lists(ks, q.Keys);
      assert Pairs(q, [l]) == Pair(q, l) + "";
      Regroup(Pair(q, k), ",", Pair(q, l));
      assert Pairs(q, ks) == Pair(q, k) + "," + Pair(q, l);
    }
  }

  /** The gate, as it is signed. */
  lemma GateMeans(fold: string -> string, gate: string)
    ensures NormalizeGate(fold, gate) == if fold(gate) == "interactive" then "interactive" else "invisible"
  {
  }

  /** Challenges that agree ask for interaction both or neither. */
  lemma AgreeOnGate(fold: string -> string, c1: Challenge, c2: Challenge)
    requires Agree(fold, c1, c2)
    ensures fold(c1.gate) == "interactive" <==> fold(c2.gate) == "interactive"
  {
  }

  /** Fields with a bar after each, in front of `rest`. */
  function BarredBefore(f: seq<string>, rest: string): string {
    if f == [] then rest else f[0] + "|" + BarredBefore(f[1..], rest)
  }

  lemma {:induction false} BarredIsBefore(f: seq<string>, rest: string)
    ensures Barred(f) + rest == BarredBefore(f, rest)
  {
    if f == [] {
      assert "" + rest == rest;
    } else {
      BarredIsBefore(f[1..], rest);
      Regroup(f[0] + "|", Barred(f[1..]), rest);
    }
  }

  lemma ThreeBefore(f: seq<string>, rest: string)
    requires |f| >= 3
    ensures BarredBefore(f, rest) == f[0] + "|" + (f[1] + "|" + (f[2] + "|" + BarredBefore(f[3..], rest)))
  {
    assert f[1..][1..] == f[2..] && f[2..][1..] == f[3..];
    assert BarredBefore(f[1..], rest) == f[1] + "|" + BarredBefore(f[2..], rest);
  }

  lemma NineBefore(f: seq<string>, rest: string)
    requires |f| == 9
    ensures BarredBefore(f, rest) ==
      f[0] + "|" + (f[1] + "|" + (f[2] + "|" + (f[3] + "|" + (f[4] + "|" + (f[5] + "|" + (f[6] + "|" + (f[7] + "|" +
      (f[8] + "|" + rest))))))))
  {
    ThreeBefore(f, rest);
    ThreeBefore(f[3..], rest);
    ThreeBefore(f[3..][3..], rest);
    assert f[3..][3..] == f[6..] && f[6..][3..] == [];
  }

  /** The whole string: nine fields in this order, a bar after each, and the parameters. */
  lemma SigningStringIs(fold: string -> string, ch: Challenge, params: string)
    requires IsCanonical(ch.params, params)
    ensures var gate := if fold(ch.gate) == "interactive" then "interactive" else "invisible";
      IsSigningString(fold, ch,
        Itoa(ch.v) + "|" + (ch.algorithm + "|" + (ch.challenge + "|" + (ch.salt + "|" + (Itoa(ch.difficulty) + "|" +
        (Itoa(ch.maxNumber) + "|" + (Itoa(ch.expires) + "|" + (ch.bind + "|" + (gate + "|" + params)))))))))
  {
    BarredIsBefore(Fields(fold, ch), params);
    NineBefore(Fields(fold, ch), params);
  }

  // ---------------------------------------------------------------------------
  // Every challenge has a signing string

  lemma {:induction false} LeastKey(keys: set<string>) returns (x: string)
    requires keys != {}
    ensures x in keys && forall y :: y in keys && y != x ==> Less(x, y)
  {
    x :| x in keys;
    if keys != {x} {
      var y := LeastKey(keys - {x});
      LessTotal(x, y);
      if Less(y, x) {
        x := y;
      } else {
        forall z | z in keys && z != x ensures Less(x, z) {
          if z != y {
            LessTransitive(x, y, z);
          }
        }
      }
    }
  }

  lemma {:induction false} ListingExists(keys: set<string>) returns (ks: seq<string>)
    ensures Lists(ks, keys)
  {
    if keys == {} {
      ks := [];
    } else {
      var x := LeastKey(keys);
      var rest := ListingExists(keys - {x});
      ks := [x] + rest;
      forall y | y in rest ensures Less(x, y) {
        assert y in Elements(rest);
      }
      assert Elements(ks) == {x} + Elements(rest);
    }
  }

  /** The signing string, which the program computes with `canonicalChallenge`. */
  ghost function SigningString(fold: string -> string, ch: Challenge): (s: string)
    ensures IsSigningString(fold, ch, s)
  {
    SigningStringExists(fold, ch);
    var s :| IsSigningString(fold, ch, s);
    s
  }

  lemma SigningStringExists(fold: string -> string, ch: Challenge)
    ensures exists s :: IsSigningString(fold, ch, s)
  {
    var ks := ListingExists(ch.params.Keys);
    assert forall k :: k in ks ==> k in Elements(ks);
    assert IsCanonical(ch.params, Pairs(ch.params, ks));
    assert IsSigningString(fold, ch, Barred(Fields(fold, ch)) + Pairs(ch.params, ks));
  }
}
