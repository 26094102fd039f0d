/** The exchange sort that the program writes out in two places, for any strict order. */
module Sorting {

  ghost predicate StrictOrder<T(!new)>(less: (T, T) -> bool) {
    && (forall x :: !less(x, x))
    && (forall x, y, z :: less(x, y) && less(y, z) ==> less(x, z))
  }

  /** Nothing in `s` comes before an element it should follow. */
  ghost predicate Ordered<T(!new)>(s: seq<T>, less: (T, T) -> bool) {
    forall p, q :: 0 <= p < q < |s| ==> !less(s[q], s[p])
  }

  /** The first `i` elements are in place: nothing after one of them belongs before it. */
  ghost predicate SettledTo<T(!new)>(s: seq<T>, less: (T, T) -> bool, i: int) {
    forall p, q :: 0 <= p < i && p < q < |s| ==> !less(s[q], s[p])
  }

  /** Element `i` is least among positions `i` to `j`. */
  ghost predicate LeastUpTo<T(!new)>(s: seq<T>, less: (T, T) -> bool, i: int, j: int) {
    0 <= i < |s| && forall q :: i < q < j && q < |s| ==> !less(s[q], s[i])
  }

  function Exchanged<T>(s: seq<T>, i: int, j: int): seq<T>
    requires 0 <= i < |s| && 0 <= j < |s|
  {
    s[i := s[j]][j := s[i]]
  }

  lemma ExchangeKeepsElements<T>(s: seq<T>, i: int, j: int)
    requires 0 <= i < j < |s|
    ensures multiset(Exchanged(s, i, j)) == multiset(s)
  {
  }

  /** Exchanging `i` with a smaller `j` keeps what is settled and makes `i` least up to and including `j`. */
  lemma ExchangeStep<T(!new)>(s: seq<T>, less: (T, T) -> bool, i: int, j: int)
    requires StrictOrder(less) && 0 <= i < j < |s|
    requires SettledTo(s, less, i) && LeastUpTo(s, less, i, j) && less(s[j], s[i])
    ensures SettledTo(Exchanged(s, i, j), less, i) && LeastUpTo(Exchanged(s, i, j), less, i, j + 1)
  {
    var t := Exchanged(s, i, j);
    forall p, q | 0 <= p < i && p < q < |t| ensures !less(t[q], t[p]) {
      assert t[p] == s[p] && t[q] == s[if q == i then j else if q == j then i else q];
    }
    forall q | i < q < j + 1 ensures !less(t[q], t[i]) {
      if q < j {
        assert !less(s[q], s[i]);
      }
    }
  }

  method Exchange<T>(a: array<T>, i: int, j: int)
    requires 0 <= i < j < a.Length
    modifies a
    ensures a[..] == Exchanged(old(a[..]), i, j)
  {
    a[i], a[j] := a[j], a[i];
  }

  /** The inner loop: bring the least of the rest to position `i`. */
  method Settle<T(!new)>(a: array<T>, less: (T, T) -> bool, i: int)
    requires StrictOrder(less) && 0 <= i < a.Length && SettledTo(a[..], less, i)
    modifies a
    ensures SettledTo(a[..], less, i + 1) && multiset(a[..]) == multiset(old(a[..]))
  {
    for j := i + 1 to a.Length
      invariant SettledTo(a[..], less, i) && LeastUpTo(a[..], less, i, j)
      invariant multiset(a[..]) == multiset(old(a[..]))
    {
      if less(a[j], a[i]) {
        ExchangeStep(a[..], less, i, j);
        ExchangeKeepsElements(a[..], i, j);
        Exchange(a, i, j);
      }
    }
  }

  /** Sorting in place: the same elements, in order. */
  method ExchangeSort<T(!new)>(a: array<T>, less: (T, T) -> bool)
    requires StrictOrder(less)
    modifies a
    ensures Ordered(a[..], less) && multiset(a[..]) == multiset(old(a[..]))
  {
    for i := 0 to a.Length
      invariant SettledTo(a[..], less, i)
      invariant multiset(a[..]) == multiset(old(a[..]))
    {
      Settle(a, less, i);
    }
  }
}
