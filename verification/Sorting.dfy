/** std::sort, as far as its callers may rely on it: a permutation in order. */
module Sorting {
  /** A strict weak order: what std::sort asks of its comparison. */
  ghost predicate Orders<T(!new)>(less: (T, T) -> bool) {
    && (forall a, b :: less(a, b) ==> !less(b, a))
    && (forall a, b, c :: less(a, b) && less(b, c) ==> less(a, c))
    && (forall a, b, c :: !less(a, b) && !less(b, c) ==> !less(a, c))
  }

  predicate InOrder<T>(s: seq<T>, less: (T, T) -> bool) {
    forall i, j | 0 <= i < j < |s| :: !less(s[j], s[i])
  }

  method Sort<T(!new)>(s: seq<T>, less: (T, T) -> bool) returns (sorted: seq<T>)
    requires Orders(less)
    ensures multiset(sorted) == multiset(s) && |sorted| == |s|
    ensures InOrder(sorted, less)
  {
    sorted := [];
    for i := 0 to |s|
      invariant multiset(sorted) == multiset(s[..i]) && |sorted| == i
      invariant InOrder(sorted, less)
    {
      sorted := Insert(sorted, s[i], less);
      assert s[..i + 1] == s[..i] + [s[i]];
    }
    assert s[..|s|] == s;
  }

  method Insert<T(!new)>(s: seq<T>, x: T, less: (T, T) -> bool) returns (more: seq<T>)
    requires Orders(less) && InOrder(s, less)
    ensures multiset(more) == multiset(s) + multiset{x} && |more| == |s| + 1
    ensures InOrder(more, less)
  {
    var at := |s|;
    while at > 0 && less(x, s[at - 1])
      invariant 0 <= at <= |s|
      invariant forall i | at <= i < |s| :: less(x, s[i])
    {
      at := at - 1;
    }
    more := s[..at] + [x] + s[at..];
    assert s == s[..at] + s[at..];
    InsertedInOrder(s, x, at, less);
  }

  lemma InsertedInOrder<T(!new)>(s: seq<T>, x: T, at: nat, less: (T, T) -> bool)
    requires Orders(less) && InOrder(s, less) && at <= |s|
    requires at > 0 ==> !less(x, s[at - 1])
    requires forall i | at <= i < |s| :: less(x, s[i])
    ensures InOrder(s[..at] + [x] + s[at..], less)
  {
    var more := s[..at] + [x] + s[at..];
    forall i | 0 <= i < at
      ensures !less(x, s[i])
    {
      assert i == at - 1 || !less(s[at - 1], s[i]);
    }
    forall i, j | 0 <= i < j < |more|
      ensures !less(more[j], more[i])
    {
      assert more[i] == if i < at then s[i] else if i == at then x else s[i - 1];
      assert more[j] == if j < at then s[j] else if j == at then x else s[j - 1];
    }
  }

  /** Sorting keeps which elements there are. */
  lemma SameElements<T>(a: seq<T>, b: seq<T>, x: T)
    requires multiset(a) == multiset(b)
    ensures x in a <==> x in b
  {
    assert x in a <==> x in multiset(a);
    assert x in b <==> x in multiset(b);
  }
}
