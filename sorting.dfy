/**
 * Go's sort.Slice, as the core uses it: an in-place, unstable sort of a
 * slice under a caller-supplied "less" function. It is modelled by an
 * in-place insertion sort; where the order is total on the values sorted,
 * every correct sort, Go's included, yields the same sequence
 * (SortedUnique).
 */
module Sorting {

  ghost predicate Irreflexive<T(!new)>(less: (T, T) -> bool) {
    forall x :: !less(x, x)
  }

  ghost predicate Transitive<T(!new)>(less: (T, T) -> bool) {
    forall x, y, z :: less(x, y) && less(y, z) ==> less(x, z)
  }

  /** Being "not less than" is transitive too (incomparability is an equivalence). */
  ghost predicate NotLessTransitive<T(!new)>(less: (T, T) -> bool) {
    forall x, y, z :: !less(x, y) && !less(y, z) ==> !less(x, z)
  }

  /** The condition sort.Slice places on its less function. */
  ghost predicate StrictWeakOrder<T(!new)>(less: (T, T) -> bool) {
    Irreflexive(less) && Transitive(less) && NotLessTransitive(less)
  }

  ghost predicate Connected<T(!new)>(less: (T, T) -> bool) {
    forall x, y :: x != y ==> less(x, y) || less(y, x)
  }

  ghost predicate StrictTotalOrder<T(!new)>(less: (T, T) -> bool) {
    StrictWeakOrder(less) && Connected(less)
  }

  /** No element is less than one before it. */
  ghost predicate SortedBy<T>(s: seq<T>, less: (T, T) -> bool) {
    forall i, j :: 0 <= i < j < |s| ==> !less(s[j], s[i])
  }

  /**
   * The state of one insertion round: s[..i+1] is sorted apart from the
   * element being moved down, now at j, which is less than every element it
   * has passed.
   */
  ghost predicate InsertInv<T>(s: seq<T>, i: int, j: int, less: (T, T) -> bool) {
    && 0 <= j <= i < |s|
    && (forall p, q :: 0 <= p < q <= i && p != j && q != j ==> !less(s[q], s[p]))
    && (forall q :: j < q <= i ==> less(s[j], s[q]))
  }

  /** Sorting in place: the array ends sorted and holds the same elements. */
  method SortSlice<T(!new)>(a: array<T>, less: (T, T) -> bool)
    requires StrictWeakOrder(less)
    modifies a
    ensures SortedBy(a[..], less)
    ensures multiset(a[..]) == old(multiset(a[..]))
  {
    var i := 0;
    while i < a.Length
      invariant 0 <= i <= a.Length
      invariant SortedBy(a[..i], less)
      invariant multiset(a[..]) == old(multiset(a[..]))
    {
      InsertRound(a, i, less);
      i := i + 1;
    }
    assert a[..a.Length] == a[..];
  }

  /** One round of the insertion sort: moves a[i] down into the sorted a[..i]. */
  method InsertRound<T(!new)>(a: array<T>, i: int, less: (T, T) -> bool)
    requires StrictWeakOrder(less)
    requires 0 <= i < a.Length && SortedBy(a[..i], less)
    modifies a
    ensures SortedBy(a[..i + 1], less)
    ensures multiset(a[..]) == old(multiset(a[..]))
    ensures multiset(a[..i + 1]) == old(multiset(a[..i + 1]))
    ensures a[i + 1..] == old(a[i + 1..])
  {
    InsertStart(a[..], i, less);
    var j := i;
    while 0 < j && less(a[j], a[j - 1])
      invariant InsertInv(a[..], i, j, less)
      invariant multiset(a[..]) == old(multiset(a[..]))
      invariant a[i + 1..] == old(a[i + 1..])
    {
      ghost var before := a[..];
      a[j - 1], a[j] := a[j], a[j - 1];
      assert a[..] == before[j - 1 := before[j]][j := before[j - 1]];
      InsertSwap(before, i, j, less);
      j := j - 1;
    }
    InsertDone(a[..], i, j, less);
    SameSuffixSamePrefix(old(a[..]), a[..], i + 1);
  }

  /** Equal multisets and equal suffixes from k on give equal multisets of the prefixes. */
  lemma SameSuffixSamePrefix<T>(s: seq<T>, t: seq<T>, k: int)
    requires 0 <= k <= |s| == |t| && multiset(s) == multiset(t) && s[k..] == t[k..]
    ensures multiset(s[..k]) == multiset(t[..k])
  {
    assert s == s[..k] + s[k..] && t == t[..k] + t[k..];
    assert multiset(s) == multiset(s[..k]) + multiset(s[k..]);
    assert multiset(t) == multiset(t[..k]) + multiset(t[k..]);
    assert multiset(s[..k]) == multiset(s) - multiset(s[k..]);
  }

  lemma InsertStart<T>(s: seq<T>, i: int, less: (T, T) -> bool)
    requires 0 <= i < |s| && SortedBy(s[..i], less)
    ensures InsertInv(s, i, i, less)
  {
    forall p, q | 0 <= p < q < i ensures !less(s[q], s[p]) {
      assert s[..i][p] == s[p] && s[..i][q] == s[q];
    }
  }

  /** Swapping the moving element with a larger left neighbour keeps the round's state. */
  lemma InsertSwap<T>(s: seq<T>, i: int, j: int, less: (T, T) -> bool)
    requires InsertInv(s, i, j, less) && 0 < j && less(s[j], s[j - 1])
    ensures InsertInv(s[j - 1 := s[j]][j := s[j - 1]], i, j - 1, less)
    ensures multiset(s[j - 1 := s[j]][j := s[j - 1]]) == multiset(s)
  {
    var t := s[j - 1 := s[j]][j := s[j - 1]];
    forall p, q | 0 <= p < q <= i && p != j - 1 && q != j - 1 ensures !less(t[q], t[p]) {
      var p' := if p == j then j - 1 else p;
      var q' := if q == j then j - 1 else q;
      assert t[p] == s[p'] && t[q] == s[q'];
    }
    forall q | j - 1 < q <= i ensures less(t[j - 1], t[q]) {
      assert t[j - 1] == s[j];
    }
  }

  /** Once the moving element meets a neighbour it is not less than, s[..i+1] is sorted. */
  lemma InsertDone<T(!new)>(s: seq<T>, i: int, j: int, less: (T, T) -> bool)
    requires StrictWeakOrder(less)
    requires InsertInv(s, i, j, less) && (j == 0 || !less(s[j], s[j - 1]))
    ensures SortedBy(s[..i + 1], less)
  {
    forall p, q | 0 <= p < q <= i ensures !less(s[q], s[p]) {
      if q == j {
        assert !less(s[j - 1], s[p]) by { if p < j - 1 { assert !less(s[j - 1], s[p]); } }
      } else if p == j {
        assert less(s[j], s[q]);
      }
    }
  }

  /** The first elements of two sorted sequences with the same elements agree. */
  lemma SortedHeadsEqual<T(!new)>(a: seq<T>, b: seq<T>, less: (T, T) -> bool)
    requires StrictTotalOrder(less)
    requires SortedBy(a, less) && SortedBy(b, less)
    requires multiset(a) == multiset(b) && a != []
    ensures b != [] && a[0] == b[0]
  {
    assert a[0] in multiset(b);
    assert b[0] in multiset(a);
    var k :| 0 <= k < |b| && b[k] == a[0];
    var m :| 0 <= m < |a| && a[m] == b[0];
    assert !less(a[m], a[0]) by { if m > 0 { assert !less(a[m], a[0]); } }
    assert !less(b[k], b[0]) by { if k > 0 { assert !less(b[k], b[0]); } }
  }

  /**
   * Under a strict total order, a sorted permutation is unique: two sorted
   * sequences with the same elements are equal.
   */
  lemma {:induction false} SortedUnique<T(!new)>(a: seq<T>, b: seq<T>, less: (T, T) -> bool)
    requires StrictTotalOrder(less)
    requires SortedBy(a, less) && SortedBy(b, less)
    requires multiset(a) == multiset(b)
    ensures a == b
  {
    if a == [] {
      assert |multiset(b)| == 0;
    } else {
      SortedHeadsEqual(a, b, less);
      SortedTail(a, less);
      SortedTail(b, less);
      MultisetTail(a, b);
      SortedUnique(a[1..], b[1..], less);
      assert a == [a[0]] + a[1..] && b == [b[0]] + b[1..];
    }
  }

  lemma SortedTail<T>(s: seq<T>, less: (T, T) -> bool)
    requires SortedBy(s, less) && s != []
    ensures SortedBy(s[1..], less)
  {
  }

  /** Removing equal first elements keeps equal multisets. */
  lemma MultisetTail<T>(a: seq<T>, b: seq<T>)
    requires multiset(a) == multiset(b) && a != [] && b != [] && a[0] == b[0]
    ensures multiset(a[1..]) == multiset(b[1..])
  {
    assert a == [a[0]] + a[1..] && b == [b[0]] + b[1..];
    assert multiset(a[1..]) == multiset(a) - multiset{a[0]};
    assert multiset(b[1..]) == multiset(b) - multiset{b[0]};
  }
}
