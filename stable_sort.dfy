// The contract of a stable sort (Collections.sort), stated on the row
// positions 0..n-1 that are being ordered: the result is a permutation of the
// positions, ordered by the comparator, and positions that compare equal keep
// their original relative order.  The reference ordering is an insertion sort.
module StableSort {

  /** The comparator is a total preorder on the positions in D. */
  ghost predicate PreorderOn(D: set<int>, cmp: (int, int) -> int) {
    && (forall a, b :: a in D && b in D ==> (cmp(a, b) < 0 <==> cmp(b, a) > 0))
    && (forall a, b, c :: a in D && b in D && c in D && cmp(a, b) <= 0 && cmp(b, c) <= 0 ==> cmp(a, c) <= 0)
  }

  ghost predicate SortedBy(s: seq<int>, cmp: (int, int) -> int) {
    forall a, b :: 0 <= a < b < |s| ==> cmp(s[a], s[b]) <= 0
  }

  /** Equal-comparing positions appear in increasing order. */
  ghost predicate StableBy(s: seq<int>, cmp: (int, int) -> int) {
    forall a, b :: 0 <= a < b < |s| && cmp(s[a], s[b]) == 0 ==> s[a] < s[b]
  }

  predicate Increasing(s: seq<int>) {
    forall a, b :: 0 <= a < b < |s| ==> s[a] < s[b]
  }

  /** The positions 0..n-1 in order. */
  function Range(n: nat): (r: seq<int>)
    ensures |r| == n && forall i :: 0 <= i < n ==> r[i] == i
  {
    seq(n, i => i)
  }

  /** p lists every position 0..n-1 exactly once. */
  predicate IsPermutation(p: seq<int>, n: nat) {
    && |p| == n
    && (forall i :: 0 <= i < n ==> 0 <= p[i] < n)
    && (forall a, b :: 0 <= a < b < n ==> p[a] != p[b])
    && (forall j :: 0 <= j < n ==> j in p)
  }

  lemma RangeIsPermutation(n: nat)
    ensures IsPermutation(Range(n), n)
  {
    forall j | 0 <= j < n ensures j in Range(n) {
      assert Range(n)[j] == j;
    }
  }

  function Insert(x: int, s: seq<int>, cmp: (int, int) -> int): seq<int> {
    if s == [] || cmp(x, s[0]) <= 0 then [x] + s else [s[0]] + Insert(x, s[1..], cmp)
  }

  function InsertionSort(xs: seq<int>, cmp: (int, int) -> int): seq<int> {
    if xs == [] then [] else Insert(xs[0], InsertionSort(xs[1..], cmp), cmp)
  }

  lemma {:induction false} InsertMultiset(x: int, s: seq<int>, cmp: (int, int) -> int)
    ensures multiset(Insert(x, s, cmp)) == multiset([x] + s)
  {
    if s != [] && cmp(x, s[0]) > 0 {
      InsertMultiset(x, s[1..], cmp);
      assert s == [s[0]] + s[1..];
    }
  }

  lemma {:induction false} SortMultiset(xs: seq<int>, cmp: (int, int) -> int)
    ensures multiset(InsertionSort(xs, cmp)) == multiset(xs)
  {
    if xs != [] {
      SortMultiset(xs[1..], cmp);
      InsertMultiset(xs[0], InsertionSort(xs[1..], cmp), cmp);
      assert xs == [xs[0]] + xs[1..];
    }
  }

  lemma Trans(D: set<int>, cmp: (int, int) -> int, a: int, b: int, c: int)
    requires PreorderOn(D, cmp) && a in D && b in D && c in D
    requires cmp(a, b) <= 0 && cmp(b, c) <= 0
    ensures cmp(a, c) <= 0
  {
  }

  lemma Anti(D: set<int>, cmp: (int, int) -> int, a: int, b: int)
    requires PreorderOn(D, cmp) && a in D && b in D
    ensures cmp(a, b) > 0 ==> cmp(b, a) < 0
  {
  }

  /** Every element of Insert(x, s) is x or an element of s. */
  lemma InsertElement(x: int, s: seq<int>, cmp: (int, int) -> int, k: int)
    requires 0 <= k < |Insert(x, s, cmp)|
    ensures Insert(x, s, cmp)[k] == x || Insert(x, s, cmp)[k] in s
  {
    InsertMultiset(x, s, cmp);
    var y := Insert(x, s, cmp)[k];
    assert y in multiset(Insert(x, s, cmp));
    assert y in multiset([x] + s);
  }

  lemma TailSorted(s: seq<int>, cmp: (int, int) -> int)
    requires s != [] && SortedBy(s, cmp)
    ensures SortedBy(s[1..], cmp)
  {
    forall a, b | 0 <= a < b < |s[1..]| ensures cmp(s[1..][a], s[1..][b]) <= 0 {
      assert s[1..][a] == s[a + 1] && s[1..][b] == s[b + 1];
    }
  }

  lemma TailStable(s: seq<int>, cmp: (int, int) -> int)
    requires s != [] && StableBy(s, cmp)
    ensures StableBy(s[1..], cmp)
  {
    forall a, b | 0 <= a < b < |s[1..]| && cmp(s[1..][a], s[1..][b]) == 0
      ensures s[1..][a] < s[1..][b]
    {
      assert s[1..][a] == s[a + 1] && s[1..][b] == s[b + 1];
    }
  }

  /** Putting x in front of a sorted s that it does not exceed keeps it sorted. */
  lemma ConsSorted(x: int, s: seq<int>, cmp: (int, int) -> int, D: set<int>)
    requires PreorderOn(D, cmp) && x in D && forall y :: y in s ==> y in D
    requires SortedBy(s, cmp) && (s == [] || cmp(x, s[0]) <= 0)
    ensures SortedBy([x] + s, cmp)
  {
    var r := [x] + s;
    forall a, b | 0 <= a < b < |r| ensures cmp(r[a], r[b]) <= 0 {
      if a == 0 {
        assert r[b] == s[b - 1];
        assert s[0] in s && s[b - 1] in s;
        if b > 1 {
          Trans(D, cmp, x, s[0], s[b - 1]);
        }
      } else {
        assert r[a] == s[a - 1] && r[b] == s[b - 1];
      }
    }
  }

  /** Putting y in front of a sorted t whose every element it does not exceed. */
  lemma ConsBelowSorted(y: int, t: seq<int>, cmp: (int, int) -> int)
    requires SortedBy(t, cmp) && forall k :: 0 <= k < |t| ==> cmp(y, t[k]) <= 0
    ensures SortedBy([y] + t, cmp)
  {
    var r := [y] + t;
    forall a, b | 0 <= a < b < |r| ensures cmp(r[a], r[b]) <= 0 {
      if a > 0 {
        assert r[a] == t[a - 1] && r[b] == t[b - 1];
      }
    }
  }

  lemma {:induction false} InsertSorted(x: int, s: seq<int>, cmp: (int, int) -> int, D: set<int>)
    requires PreorderOn(D, cmp) && x in D && forall y :: y in s ==> y in D
    requires SortedBy(s, cmp)
    ensures SortedBy(Insert(x, s, cmp), cmp)
  {
    if s == [] || cmp(x, s[0]) <= 0 {
      ConsSorted(x, s, cmp, D);
    } else {
      var t := Insert(x, s[1..], cmp);
      TailSorted(s, cmp);
      assert forall y :: y in s[1..] ==> y in s;
      InsertSorted(x, s[1..], cmp, D);
      assert s[0] in s;
      forall k | 0 <= k < |t| ensures cmp(s[0], t[k]) <= 0 {
        InsertElement(x, s[1..], cmp, k);
        if t[k] == x {
          Anti(D, cmp, x, s[0]);
        } else {
          var j :| 0 <= j < |s[1..]| && s[1..][j] == t[k];
          assert s[j + 1] == t[k];
        }
      }
      ConsBelowSorted(s[0], t, cmp);
    }
  }

  /** Putting y in front of a stable t, where y is equivalent to nothing in t it exceeds. */
  lemma ConsStable(y: int, t: seq<int>, cmp: (int, int) -> int)
    requires StableBy(t, cmp) && forall k :: 0 <= k < |t| && cmp(y, t[k]) == 0 ==> y < t[k]
    ensures StableBy([y] + t, cmp)
  {
    var r := [y] + t;
    forall a, b | 0 <= a < b < |r| && cmp(r[a], r[b]) == 0 ensures r[a] < r[b] {
      if a > 0 {
        assert r[a] == t[a - 1] && r[b] == t[b - 1];
      }
    }
  }

  lemma {:induction false} InsertStable(x: int, s: seq<int>, cmp: (int, int) -> int, D: set<int>)
    requires PreorderOn(D, cmp) && x in D && forall y :: y in s ==> y in D
    requires StableBy(s, cmp)
    requires forall y :: y in s ==> x < y
    ensures StableBy(Insert(x, s, cmp), cmp)
  {
    if s == [] || cmp(x, s[0]) <= 0 {
      forall k | 0 <= k < |s| ensures x < s[k] {
        assert s[k] in s;
      }
      ConsStable(x, s, cmp);
    } else {
      var t := Insert(x, s[1..], cmp);
      TailStable(s, cmp);
      assert forall y :: y in s[1..] ==> y in s;
      InsertStable(x, s[1..], cmp, D);
      assert s[0] in s;
      forall k | 0 <= k < |t| && cmp(s[0], t[k]) == 0 ensures s[0] < t[k] {
        InsertElement(x, s[1..], cmp, k);
        if t[k] == x {
          assert false;
        } else {
          var j :| 0 <= j < |s[1..]| && s[1..][j] == t[k];
          assert s[j + 1] == t[k];
        }
      }
      ConsStable(s[0], t, cmp);
    }
  }

  /** The insertion sort of increasing positions is sorted and stable. */
  lemma {:induction false} SortSortedStable(xs: seq<int>, cmp: (int, int) -> int, D: set<int>)
    requires PreorderOn(D, cmp) && Increasing(xs) && forall y :: y in xs ==> y in D
    ensures SortedBy(InsertionSort(xs, cmp), cmp) && StableBy(InsertionSort(xs, cmp), cmp)
  {
    if xs != [] {
      var rest := xs[1..];
      assert forall y :: y in rest ==> y in xs;
      SortSortedStable(rest, cmp, D);
      var s := InsertionSort(rest, cmp);
      SortMultiset(rest, cmp);
      forall y | y in s ensures y in D && xs[0] < y {
        assert y in multiset(rest);
        var k :| 0 <= k < |rest| && rest[k] == y;
        assert xs[k + 1] == y;
      }
      InsertSorted(xs[0], s, cmp, D);
      InsertStable(xs[0], s, cmp, D);
    }
  }

  lemma {:induction false} RangeCount(n: nat, v: int)
    ensures multiset(Range(n))[v] == (if 0 <= v < n then 1 else 0)
  {
    if n > 0 {
      RangeCount(n - 1, v);
      assert Range(n) == Range(n - 1) + [n - 1];
    }
  }

  /** Whatever lists the same positions as 0..n-1 is a permutation of them. */
  lemma {:induction false} PermutationOfRange(p: seq<int>, n: nat)
    requires multiset(p) == multiset(Range(n))
    ensures IsPermutation(p, n)
  {
    assert |p| == |multiset(p)| == |multiset(Range(n))| == n;
    forall i | 0 <= i < n ensures 0 <= p[i] < n {
      assert p[i] in multiset(p);
      RangeCount(n, p[i]);
    }
    forall a, b | 0 <= a < b < n ensures p[a] != p[b] {
      if p[a] == p[b] {
        var v := p[a];
        assert p == p[..a] + [v] + p[a + 1..b] + [v] + p[b + 1..];
        assert multiset(p)[v] >= 2;
        RangeCount(n, v);
      }
    }
    forall j | 0 <= j < n ensures j in p {
      RangeCount(n, j);
      assert j in multiset(p);
    }
  }

  /** The positions 0..n-1 as a set. */
  function Positions(n: nat): (r: set<int>)
    ensures forall i :: i in r <==> 0 <= i < n
  {
    if n == 0 then {} else Positions(n - 1) + {n - 1}
  }

  /** The order a stable sort puts positions 0..n-1 in. */
  function SortedPositions(n: nat, cmp: (int, int) -> int): (p: seq<int>)
    ensures IsPermutation(p, n)
  {
    SortMultiset(Range(n), cmp);
    PermutationOfRange(InsertionSort(Range(n), cmp), n);
    InsertionSort(Range(n), cmp)
  }

  /**
   * Under a total preorder the sorted positions are ordered by the
   * comparator and equal-comparing positions keep their order.
   */
  lemma {:induction false} SortedPositionsSpec(n: nat, cmp: (int, int) -> int)
    requires PreorderOn(Positions(n), cmp)
    ensures SortedBy(SortedPositions(n, cmp), cmp) && StableBy(SortedPositions(n, cmp), cmp)
  {
    SortSortedStable(Range(n), cmp, Positions(n));
  }
}
