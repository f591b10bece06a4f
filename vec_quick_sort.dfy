// The in-place quicksort of a vector (Horowitz and Sahni's partition scheme),
// under a caller-supplied comparator.  The vector is an array here.
module VecQuickSort {

  /** The comparator orders its arguments consistently: a total preorder. */
  ghost predicate IsTotalPreorder<T(!new)>(cmp: (T, T) -> int) {
    Antisymmetric(cmp) && Transitive(cmp)
  }

  /** x compares below y exactly when y compares above x. */
  ghost predicate Antisymmetric<T(!new)>(cmp: (T, T) -> int) {
    forall x, y :: cmp(x, y) < 0 <==> cmp(y, x) > 0
  }

  ghost predicate Transitive<T(!new)>(cmp: (T, T) -> int) {
    forall x, y, z :: cmp(x, y) <= 0 && cmp(y, z) <= 0 ==> cmp(x, z) <= 0
  }

  /** s[lo..hi] is non-decreasing under cmp. */
  ghost predicate SortedRange<T>(s: seq<T>, lo: int, hi: int, cmp: (T, T) -> int)
    requires 0 <= lo <= hi <= |s|
  {
    forall p, q :: lo <= p < q < hi ==> cmp(s[p], s[q]) <= 0
  }

  ghost predicate Sorted<T>(s: seq<T>, cmp: (T, T) -> int) {
    SortedRange(s, 0, |s|, cmp)
  }

  /** t agrees with s outside [lo, hi). */
  ghost predicate SameOutside<T>(s: seq<T>, t: seq<T>, lo: int, hi: int) {
    |s| == |t| && forall m :: 0 <= m < |s| && !(lo <= m < hi) ==> s[m] == t[m]
  }

  lemma {:induction false} MultisetSplit<T>(s: seq<T>, lo: int, hi: int)
    requires 0 <= lo <= hi <= |s|
    ensures multiset(s) == multiset(s[..lo]) + multiset(s[lo..hi]) + multiset(s[hi..])
  {
    assert s == s[..lo] + s[lo..hi] + s[hi..];
  }

  /** A permutation of the whole sequence that leaves the outside alone permutes the range. */
  lemma {:induction false} RangePermutation<T>(s: seq<T>, t: seq<T>, lo: int, hi: int)
    requires 0 <= lo <= hi <= |s|
    requires SameOutside(s, t, lo, hi)
    requires multiset(s) == multiset(t)
    ensures multiset(s[lo..hi]) == multiset(t[lo..hi])
  {
    MultisetSplit(s, lo, hi);
    MultisetSplit(t, lo, hi);
    assert s[..lo] == t[..lo];
    assert s[hi..] == t[hi..];
    forall x ensures multiset(s[lo..hi])[x] == multiset(t[lo..hi])[x] {
      assert multiset(s)[x] == multiset(t)[x];
    }
  }

  /** Two sorted ranges around a pivot that separates them form one sorted range. */
  lemma {:induction false} JoinSorted<T(!new)>(s: seq<T>, first: int, j: int, last: int, cmp: (T, T) -> int)
    requires Transitive(cmp)
    requires 0 <= first <= j <= last < |s|
    requires SortedRange(s, first, j, cmp) && SortedRange(s, j + 1, last + 1, cmp)
    requires forall m :: first <= m < j ==> cmp(s[m], s[j]) <= 0
    requires forall m :: j < m <= last ==> cmp(s[j], s[m]) <= 0
    ensures SortedRange(s, first, last + 1, cmp)
  {
    forall p, q | first <= p < q <= last ensures cmp(s[p], s[q]) <= 0 {
      if p < j && j < q {
        assert cmp(s[p], s[j]) <= 0 && cmp(s[j], s[q]) <= 0;
      }
    }
  }

  /** Every element of a permuted range keeps a bound that held for every element before. */
  lemma {:induction false} UpperBoundKept<T>(s: seq<T>, t: seq<T>, lo: int, hi: int, k: T, cmp: (T, T) -> int)
    requires 0 <= lo <= hi <= |s|
    requires SameOutside(s, t, lo, hi)
    requires multiset(s) == multiset(t)
    requires forall m :: lo <= m < hi ==> cmp(s[m], k) <= 0
    ensures forall m :: lo <= m < hi ==> cmp(t[m], k) <= 0
  {
    RangePermutation(s, t, lo, hi);
    forall m | lo <= m < hi ensures cmp(t[m], k) <= 0 {
      assert t[m] == t[lo..hi][m - lo];
      assert t[m] in multiset(s[lo..hi]);
      var n :| lo <= n < hi && s[n] == t[m];
    }
  }

  lemma {:induction false} LowerBoundKept<T>(s: seq<T>, t: seq<T>, lo: int, hi: int, k: T, cmp: (T, T) -> int)
    requires 0 <= lo <= hi <= |s|
    requires SameOutside(s, t, lo, hi)
    requires multiset(s) == multiset(t)
    requires forall m :: lo <= m < hi ==> cmp(k, s[m]) <= 0
    ensures forall m :: lo <= m < hi ==> cmp(k, t[m]) <= 0
  {
    RangePermutation(s, t, lo, hi);
    forall m | lo <= m < hi ensures cmp(k, t[m]) <= 0 {
      assert t[m] == t[lo..hi][m - lo];
      assert t[m] in multiset(s[lo..hi]);
      var n :| lo <= n < hi && s[n] == t[m];
    }
  }

  /** Exchanges two elements, as the source does through setElementAt. */
  method Swap<T>(a: array<T>, i: int, j: int)
    requires 0 <= i < a.Length && 0 <= j < a.Length
    modifies a
    ensures a[..] == old(a[..])[i := old(a[j])][j := old(a[i])]
    ensures a[i] == old(a[j]) && a[j] == old(a[i])
    ensures forall m :: 0 <= m < a.Length && m != i && m != j ==> a[m] == old(a[m])
    ensures multiset(a[..]) == multiset(old(a[..]))
  {
    var tmp := a[j];
    a[j] := a[i];
    a[i] := tmp;
  }

  /**
   * The exchange after the do-while: the pivot k at first and the element at
   * j, which compares at or below it, trade places.
   */
  method PlacePivot<T>(a: array<T>, first: int, last: int, j: int, k: T, cmp: (T, T) -> int)
    requires 0 <= first <= j <= last < a.Length
    requires a[first] == k
    requires forall m :: first < m < j ==> cmp(a[m], k) <= 0
    requires cmp(a[j], k) <= 0
    requires forall m :: j < m <= last ==> cmp(k, a[m]) <= 0
    modifies a
    ensures a[j] == k
    ensures forall m :: first <= m < j ==> cmp(a[m], a[j]) <= 0
    ensures forall m :: j < m <= last ==> cmp(a[j], a[m]) <= 0
    ensures multiset(a[..]) == multiset(old(a[..]))
    ensures SameOutside(old(a[..]), a[..], first, last + 1)
  {
    Swap(a, first, j);
  }

  /**
   * The partition step of quick(first, last): a[first] is the pivot; it ends at
   * index j with nothing greater before it and nothing smaller after it.
   */
  method Partition<T(!new)>(a: array<T>, first: int, last: int, cmp: (T, T) -> int) returns (j: int)
    requires Antisymmetric(cmp)
    requires 0 <= first < last < a.Length
    modifies a
    ensures first <= j <= last
    ensures a[j] == old(a[first])
    ensures forall m :: first <= m < j ==> cmp(a[m], a[j]) <= 0
    ensures forall m :: j < m <= last ==> cmp(a[j], a[m]) <= 0
    ensures multiset(a[..]) == multiset(old(a[..]))
    ensures SameOutside(old(a[..]), a[..], first, last + 1)
  {
    var i := first;
    j := last + 1;
    var k := a[first];
    while true
      invariant first <= i < j <= last + 1
      invariant a[first] == k
      invariant forall m :: first < m <= i ==> cmp(a[m], k) <= 0
      invariant forall m :: j <= m <= last ==> cmp(k, a[m]) <= 0
      invariant multiset(a[..]) == multiset(old(a[..]))
      invariant SameOutside(old(a[..]), a[..], first, last + 1)
      decreases j - first
    {
      var i0 := i;
      i := ScanUp(a, i, j, last, k, cmp);
      j := ScanDown(a, first, i0, j, k, cmp);
      if i < j {
        Swap(a, i, j);
      }
      if !(j > i) {
        break;
      }
    }
    PlacePivot(a, first, last, j, k, cmp);
  }

  /**
   * The scan `while (i <= last && a[i] < k) i++` from i0 + 1; the elements
   * from j0 on compare at or above the pivot, so it stops by j0.
   */
  method ScanUp<T(!new)>(a: array<T>, i0: int, j0: int, last: int, k: T, cmp: (T, T) -> int) returns (i: int)
    requires Antisymmetric(cmp)
    requires 0 <= i0 < j0 <= last + 1 <= a.Length
    requires forall m :: j0 <= m <= last ==> cmp(k, a[m]) <= 0
    ensures i0 < i <= j0
    ensures forall m :: i0 < m < i ==> cmp(a[m], k) < 0
    ensures i <= last ==> cmp(k, a[i]) <= 0
  {
    i := i0 + 1;
    while i <= last && cmp(a[i], k) < 0
      invariant i0 < i <= j0
      invariant forall m :: i0 < m < i ==> cmp(a[m], k) < 0
    {
      i := i + 1;
    }
  }

  /**
   * The scan `while (j >= first && a[j] > k) j--` from j0 - 1; the elements
   * up to i0 compare at or below the pivot, so it stops by i0.
   */
  method ScanDown<T(!new)>(a: array<T>, first: int, i0: int, j0: int, k: T, cmp: (T, T) -> int) returns (j: int)
    requires Antisymmetric(cmp)
    requires 0 <= first <= i0 < j0 <= a.Length
    requires a[first] == k
    requires forall m :: first < m <= i0 ==> cmp(a[m], k) <= 0
    ensures i0 <= j < j0
    ensures forall m :: j < m < j0 ==> cmp(a[m], k) > 0
    ensures cmp(a[j], k) <= 0
  {
    j := j0 - 1;
    while j >= first && cmp(a[j], k) > 0
      invariant i0 <= j < j0
      invariant forall m :: j < m < j0 ==> cmp(a[m], k) > 0
    {
      j := j - 1;
    }
  }

  /** quick(first, last): sorts a[first..last] in place. */
  method Quick<T(!new)>(a: array<T>, first: int, last: int, cmp: (T, T) -> int)
    requires IsTotalPreorder(cmp)
    requires 0 <= first <= last + 1 <= a.Length
    modifies a
    ensures SortedRange(a[..], first, last + 1, cmp)
    ensures multiset(a[..]) == multiset(old(a[..]))
    ensures SameOutside(old(a[..]), a[..], first, last + 1)
    decreases last - first
  {
    if first < last {
      var j := Partition(a, first, last, cmp);
      ghost var s0 := a[..];
      Quick(a, first, j - 1, cmp);
      ghost var s1 := a[..];
      Quick(a, j + 1, last, cmp);
      Assemble(s0, s1, a[..], first, j, last, cmp);
    }
  }

  /** The facts after quick's two recursive calls give a sorted permutation of the range. */
  lemma {:induction false} Assemble<T(!new)>(s0: seq<T>, s1: seq<T>, s2: seq<T>, first: int, j: int, last: int,
                                            cmp: (T, T) -> int)
    requires Transitive(cmp)
    requires 0 <= first <= j <= last < |s0| && |s1| == |s0| && |s2| == |s0|
    requires forall m :: first <= m < j ==> cmp(s0[m], s0[j]) <= 0
    requires forall m :: j < m <= last ==> cmp(s0[j], s0[m]) <= 0
    requires SortedRange(s1, first, j, cmp) && multiset(s1) == multiset(s0) && SameOutside(s0, s1, first, j)
    requires SortedRange(s2, j + 1, last + 1, cmp) && multiset(s2) == multiset(s1) && SameOutside(s1, s2, j + 1, last + 1)
    ensures SortedRange(s2, first, last + 1, cmp)
    ensures multiset(s2) == multiset(s0)
    ensures SameOutside(s0, s2, first, last + 1)
  {
    var k := s0[j];
    UpperBoundKept(s0, s1, first, j, k, cmp);
    assert s1[j] == k;
    LowerBoundKept(s1, s2, j + 1, last + 1, k, cmp);
    assert s2[j] == k;
    assert forall m :: first <= m < j ==> s2[m] == s1[m];
    JoinSorted(s2, first, j, last, cmp);
  }

  /** sort(): vectors of fewer than two elements are left alone. */
  method Sort<T(!new)>(a: array<T>, cmp: (T, T) -> int)
    requires IsTotalPreorder(cmp)
    modifies a
    ensures Sorted(a[..], cmp)
    ensures multiset(a[..]) == multiset(old(a[..]))
    ensures a.Length < 2 ==> a[..] == old(a[..])
  {
    if a.Length < 2 {
      return;
    }
    Quick(a, 0, a.Length - 1, cmp);
  }
}
