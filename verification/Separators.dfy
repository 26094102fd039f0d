/** Texts put together with a separator come apart in only one way. */
module Separators {

  /** Text up to the first separator is determined. */
  lemma SplitAt(sep: char, a: string, b: string, c: string, d: string)
    requires sep !in a && sep !in c && a + [sep] + b == c + [sep] + d
    ensures a == c && b == d
  {
    var t := a + [sep] + b;
    assert t[|a|] == sep && t[|c|] == sep;
    assert a == t[..|a|] && c == t[..|c|];
    assert b == t[|a| + 1..] && d == t[|c| + 1..];
  }

  /** The same where the first separator may also be the end of the text. */
  lemma SplitAtOrEnd(sep: char, a: string, b: string, c: string, d: string)
    requires sep !in a && sep !in c && a + b == c + d
    requires (b == [] || b[0] == sep) && (d == [] || d[0] == sep)
    ensures a == c && b == d
  {
    var t := a + b;
    assert |a| < |t| ==> t[|a|] == b[0];
    assert |c| < |t| ==> t[|c|] == d[0];
    assert a == t[..|a|] && c == t[..|c|];
    assert b == t[|a|..] && d == t[|c|..];
  }
}
