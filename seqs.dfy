// Sequence facts shared by the Vector-based parts of the model: distinctness,
// the order-keeping difference of two vectors, and Vector.indexOf and
// Vector.removeElement.
module Seqs {
  ghost predicate Distinct<T>(s: seq<T>) {
    forall a, b :: 0 <= a < b < |s| ==> s[a] != s[b]
  }

  function Elements<T>(s: seq<T>): set<T> {
    set x | x in s
  }

  lemma DistinctRemove<T>(s: seq<T>, r: int)
    requires Distinct(s) && 0 <= r < |s|
    ensures Distinct(s[..r] + s[r + 1..])
  {
    var s2 := s[..r] + s[r + 1..];
    forall a, b | 0 <= a < b < |s2| ensures s2[a] != s2[b] {
      var a', b' := if a < r then a else a + 1, if b < r then b else b + 1;
      assert s2[a] == s[a'] && s2[b] == s[b'];
    }
  }

  /** The elements of a that are not in b, in their order in a. */
  function Minus<T(==)>(a: seq<T>, b: seq<T>): (r: seq<T>)
    ensures |r| <= |a|
  {
    if a == [] then [] else (if a[0] in b then [] else [a[0]]) + Minus(a[1..], b)
  }

  lemma {:induction false} MinusMembers<T(!new)>(a: seq<T>, b: seq<T>)
    ensures forall x :: x in Minus(a, b) <==> x in a && x !in b
  {
    if a != [] {
      MinusMembers(a[1..], b);
      assert a == [a[0]] + a[1..];
    }
  }

  /** Vector.indexOf: the first position holding x, or -1. */
  function FirstIndex<T(==)>(s: seq<T>, x: T): (i: int)
    ensures -1 <= i < |s|
    ensures i == -1 <==> x !in s
    ensures i >= 0 ==> s[i] == x && x !in s[..i]
  {
    if s == [] then -1
    else if s[0] == x then 0
    else var j := FirstIndex(s[1..], x); if j == -1 then -1 else j + 1
  }

  /** Vector.removeElement: drops the first occurrence of x, if any. */
  function RemoveFirst<T(==)>(s: seq<T>, x: T): (r: seq<T>)
    ensures x !in s ==> r == s
  {
    if s == [] then []
    else if s[0] == x then s[1..]
    else [s[0]] + RemoveFirst(s[1..], x)
  }

  /** The element removed is the one at x's first index; the rest close up around it. */
  lemma {:induction false} RemoveFirstAt<T>(s: seq<T>, x: T)
    requires x in s
    ensures RemoveFirst(s, x) == s[..FirstIndex(s, x)] + s[FirstIndex(s, x) + 1..]
  {
    if s[0] != x {
      var t := s[1..];
      FirstIndexTail(s, x);
      var j := FirstIndex(t, x);
      calc {
        RemoveFirst(s, x);
        [s[0]] + RemoveFirst(t, x);
        { RemoveFirstAt(t, x); }
        [s[0]] + (t[..j] + t[j + 1..]);
        ([s[0]] + t[..j]) + t[j + 1..];
        { assert s[..j + 1] == [s[0]] + t[..j]; assert s[j + 2..] == t[j + 1..]; }
        s[..j + 1] + s[j + 2..];
      }
    }
  }

  /** Past a different head, x is found one position later in the tail. */
  lemma FirstIndexTail<T>(s: seq<T>, x: T)
    requires s != [] && s[0] != x
    ensures x in s <==> x in s[1..]
    ensures x in s ==> FirstIndex(s, x) == FirstIndex(s[1..], x) + 1
  {
    assert s == [s[0]] + s[1..];
  }

  /** Removing each element of d in turn, as a loop of removeElement calls does. */
  function RemoveEach<T(==)>(c: seq<T>, d: seq<T>): seq<T> {
    if d == [] then c else RemoveFirst(RemoveEach(c, d[..|d| - 1]), d[|d| - 1])
  }

  lemma {:induction false} MinusNothing<T(!new)>(a: seq<T>, b: seq<T>)
    requires forall x :: x in a ==> x !in b
    ensures Minus(a, b) == a
  {
    if a != [] {
      MinusNothing(a[1..], b);
      assert a == [a[0]] + a[1..];
    }
  }

  lemma {:induction false} MinusDistinct<T(!new)>(a: seq<T>, b: seq<T>)
    requires Distinct(a)
    ensures Distinct(Minus(a, b))
  {
    if a != [] {
      MinusDistinct(a[1..], b);
      MinusMembers(a[1..], b);
      var head := if a[0] in b then [] else [a[0]];
      var r := head + Minus(a[1..], b);
      assert a[0] !in a[1..] by {
        forall k | 0 <= k < |a[1..]| ensures a[1..][k] != a[0] {
          assert a[1..][k] == a[k + 1];
        }
      }
      forall i, j | 0 <= i < j < |r| ensures r[i] != r[j] {
        if head != [] && i == 0 {
          assert r[j] in Minus(a[1..], b);
        } else {
          var o := |head|;
          assert r[i] == Minus(a[1..], b)[i - o] && r[j] == Minus(a[1..], b)[j - o];
        }
      }
    }
  }

  /** Removing the first x from a distinct sequence removes every x. */
  lemma {:induction false} RemoveFirstDistinct<T(!new)>(s: seq<T>, x: T)
    requires Distinct(s)
    ensures RemoveFirst(s, x) == Minus(s, [x])
  {
    if s != [] {
      assert Distinct(s[1..]) by {
        forall a, b | 0 <= a < b < |s[1..]| ensures s[1..][a] != s[1..][b] {
          assert s[1..][a] == s[a + 1] && s[1..][b] == s[b + 1];
        }
      }
      if s[0] == x {
        assert x !in s[1..] by {
          forall k | 0 <= k < |s[1..]| ensures s[1..][k] != x {
            assert s[1..][k] == s[k + 1];
          }
        }
        MinusNothing(s[1..], [x]);
      } else {
        RemoveFirstDistinct(s[1..], x);
      }
    }
  }

  lemma {:induction false} MinusAppend<T(!new)>(a: seq<T>, b: seq<T>, x: T)
    ensures Minus(Minus(a, b), [x]) == Minus(a, b + [x])
  {
    if a != [] {
      MinusAppend(a[1..], b, x);
      var head := if a[0] in b then [] else [a[0]];
      var m := Minus(a[1..], b);
      assert Minus(a, b) == head + m;
      MinusConcat(head, m, [x]);
    }
  }

  lemma {:induction false} MinusConcat<T(!new)>(a: seq<T>, a': seq<T>, b: seq<T>)
    ensures Minus(a + a', b) == Minus(a, b) + Minus(a', b)
  {
    if a != [] {
      MinusConcat(a[1..], a', b);
      var c := a + a';
      assert c[0] == a[0] && c[1..] == a[1..] + a';
      var head := if a[0] in b then [] else [a[0]];
      assert Minus(c, b) == head + Minus(c[1..], b);
      assert Minus(a, b) == head + Minus(a[1..], b);
    } else {
      assert a + a' == a';
    }
  }

  /** On a distinct vector, removing each element of d leaves the elements not in d. */
  lemma {:induction false} RemoveEachDistinct<T(!new)>(c: seq<T>, d: seq<T>)
    requires Distinct(c)
    ensures RemoveEach(c, d) == Minus(c, d)
  {
    if d == [] {
      MinusNothing(c, d);
    } else {
      var init, x := d[..|d| - 1], d[|d| - 1];
      calc {
        RemoveEach(c, d);
        RemoveFirst(RemoveEach(c, init), x);
        { RemoveEachDistinct(c, init); }
        RemoveFirst(Minus(c, init), x);
        { MinusDistinct(c, init); RemoveFirstDistinct(Minus(c, init), x); }
        Minus(Minus(c, init), [x]);
        { MinusAppend(c, init, x); }
        Minus(c, init + [x]);
        { assert init + [x] == d; }
        Minus(c, d);
      }
    }
  }

  /** Vector.indexOf finds x at i when i holds x and nothing before it does. */
  lemma FirstIndexAt<T>(s: seq<T>, x: T, i: int)
    requires 0 <= i < |s| && s[i] == x && x !in s[..i]
    ensures FirstIndex(s, x) == i
  {
  }

  /** In a distinct sequence, the removed element is gone and the rest stays distinct. */
  lemma RemoveFirstGone<T>(s: seq<T>, x: T)
    requires Distinct(s)
    ensures Distinct(RemoveFirst(s, x))
    ensures forall y :: y in RemoveFirst(s, x) <==> y in s && y != x
  {
    if x in s {
      var i := FirstIndex(s, x);
      RemoveFirstAt(s, x);
      DistinctRemove(s, i);
      var r := s[..i] + s[i + 1..];
      forall y ensures y in r <==> y in s && y != x {
        if y in r {
          var k :| 0 <= k < |r| && r[k] == y;
          var k' := if k < i then k else k + 1;
          assert s[k'] == y && k' != i;
        }
        if y in s && y != x {
          var k :| 0 <= k < |s| && s[k] == y;
          assert r[if k < i then k else k - 1] == y;
        }
      }
    }
  }

  /** Vector.insertElementAt(x, k) of a new element: where x lands and what it leaves. */
  lemma InsertFacts<T>(c: seq<T>, x: T, k: int)
    requires x !in c && 0 <= k <= |c|
    ensures FirstIndex(c[..k] + [x] + c[k..], x) == k
    ensures RemoveFirst(c[..k] + [x] + c[k..], x) == c
    ensures forall y :: y in c[..k] + [x] + c[k..] <==> y in c || y == x
  {
    var s := c[..k] + [x] + c[k..];
    assert s[..k] == c[..k];
    assert x !in c[..k];
    FirstIndexAt(s, x, k);
    RemoveFirstAt(s, x);
    assert s[..k] + s[k + 1..] == c;
    forall y ensures y in s <==> y in c || y == x {
      if y in c {
        var m :| 0 <= m < |c| && c[m] == y;
        assert s[if m < k then m else m + 1] == y;
      }
    }
  }

  /** Inserting a new element keeps a sequence distinct. */
  lemma InsertDistinct<T>(c: seq<T>, x: T, k: int)
    requires x !in c && 0 <= k <= |c| && Distinct(c)
    ensures Distinct(c[..k] + [x] + c[k..])
  {
    var s := c[..k] + [x] + c[k..];
    forall a, b | 0 <= a < b < |s| ensures s[a] != s[b] {
      if a != k && b != k {
        assert s[a] == c[if a < k then a else a - 1];
        assert s[b] == c[if b < k then b else b - 1];
      } else if a == k {
        assert s[b] == c[b - 1];
      } else {
        assert s[a] == c[a];
      }
    }
  }

  /** In a distinct sequence, each element's index is its only position. */
  lemma DistinctIndex<T>(s: seq<T>, i: int)
    requires Distinct(s) && 0 <= i < |s|
    ensures FirstIndex(s, s[i]) == i
  {
    assert s[i] !in s[..i] by {
      forall k | 0 <= k < i ensures s[..i][k] != s[i] {
        assert s[..i][k] == s[k];
      }
    }
  }

  /** After an insertion at k into a distinct result, the neighbours sit at k - 1 and k + 1. */
  lemma InsertNeighbours<T>(c: seq<T>, x: T, k: int)
    requires 0 <= k <= |c| && Distinct(c[..k] + [x] + c[k..])
    ensures k < |c| ==> FirstIndex(c[..k] + [x] + c[k..], c[k]) == k + 1
    ensures 0 < k ==> FirstIndex(c[..k] + [x] + c[k..], c[k - 1]) == k - 1
  {
    var r := c[..k] + [x] + c[k..];
    if k < |c| {
      assert r[k + 1] == c[k];
      DistinctIndex(r, k + 1);
    }
    if 0 < k {
      assert r[k - 1] == c[k - 1];
      DistinctIndex(r, k - 1);
    }
  }

  /** Every element of RemoveFirst(s, x) is an element of s. */
  lemma RemoveFirstSubset<T>(s: seq<T>, x: T)
    ensures forall y :: y in RemoveFirst(s, x) ==> y in s
  {
    if x in s {
      var i := FirstIndex(s, x);
      forall y | y in s[..i] + s[i + 1..] ensures y in s {
        var k :| 0 <= k < |s[..i] + s[i + 1..]| && (s[..i] + s[i + 1..])[k] == y;
        assert s[if k < i then k else k + 1] == y;
      }
    }
  }

  /** After insertElementAt(x, k), the elements are those of c and x. */
  lemma InsertMembers<T>(c: seq<T>, x: T, k: int)
    requires 0 <= k <= |c|
    ensures forall y :: y in c[..k] + [x] + c[k..] ==> y in c || y == x
  {
    forall y | y in c[..k] + [x] + c[k..] ensures y in c || y == x {
      assert y in c[..k] || y == x || y in c[k..];
    }
  }
}
