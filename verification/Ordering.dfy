/** In-place sorting with a caller-supplied comparator, as Go's sort.Slice offers it: the result is a
    permutation on which the comparator never says that a later element belongs before an earlier
    one. Nothing is promised about the order of equivalent elements. */
module Ordering {

  ghost predicate StrictWeakOrder<T(!new)>(less: (T, T) -> bool) {
    && (forall x :: !less(x, x))
    && (forall x, y, z :: less(x, y) && less(y, z) ==> less(x, z))
    && (forall x, y, z :: !less(x, y) && !less(y, z) ==> !less(x, z))
  }

  ghost predicate Sorted<T>(s: seq<T>, less: (T, T) -> bool) {
    forall i, j | 0 <= i < j < |s| :: !less(s[j], s[i])
  }

  /** Everything is in order except that the element at `hole` may still have to move left. */
  ghost predicate SortedExcept<T>(s: seq<T>, less: (T, T) -> bool, hole: int) {
    forall i, j | 0 <= i < j < |s| && j != hole :: !less(s[j], s[i])
  }

  method SortSlice<T(!new)>(a: array<T>, less: (T, T) -> bool)
    requires StrictWeakOrder(less)
    modifies a
    ensures Sorted(a[..], less)
    ensures multiset(a[..]) == multiset(old(a[..]))
  {
    var n := 0;
    while n < a.Length
      invariant 0 <= n <= a.Length
      invariant Sorted(a[..n], less)
      invariant multiset(a[..]) == multiset(old(a[..]))
    {
      var j := n;
      while 0 < j && less(a[j], a[j - 1])
        invariant 0 <= j <= n
        invariant SortedExcept(a[..n + 1], less, j)
        invariant forall i | j < i <= n :: !less(a[i], a[j])
        invariant multiset(a[..]) == multiset(old(a[..]))
      {
        a[j], a[j - 1] := a[j - 1], a[j];
        j := j - 1;
      }
      assert forall i | 0 <= i < j :: !less(a[j], a[i]);
      n := n + 1;
    }
    assert a[..n] == a[..];
  }

  lemma TwiceInSequence<T>(s: seq<T>, i: nat, j: nat)
    requires i < j < |s|
    ensures s[i] == s[j] ==> multiset(s)[s[i]] >= 2
  {
    assert s == s[..j] + s[j..];
    assert s[..j][i] == s[i] && s[j..][0] == s[j];
    assert s[i] in multiset(s[..j]) && s[j] in multiset(s[j..]);
  }
}
