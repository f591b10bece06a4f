// Null-tolerant concatenation of object arrays.  A null argument contributes
// nothing; the result is always a freshly allocated array.
module ArrayUtils {

  /** The elements an argument contributes: none for null. */
  function Elems<T>(a: array?<T>): (s: seq<T>)
    reads a
    ensures |s| == (if a == null then 0 else a.Length)
  {
    if a == null then [] else a[..]
  }

  /** System.arraycopy(src, 0, dst, pos, src.length) into a distinct array. */
  method ArrayCopy<T>(src: array<T>, dst: array<T>, pos: nat)
    requires src != dst
    requires pos + src.Length <= dst.Length
    modifies dst
    ensures dst[..pos] == old(dst[..pos])
    ensures dst[pos..pos + src.Length] == src[..]
    ensures dst[pos + src.Length..] == old(dst[pos + src.Length..])
  {
    var n := 0;
    while n < src.Length
      invariant 0 <= n <= src.Length
      invariant dst[..pos] == old(dst[..pos])
      invariant dst[pos..pos + n] == src[..n]
      invariant dst[pos + src.Length..] == old(dst[pos + src.Length..])
    {
      dst[pos + n] := src[n];
      n := n + 1;
    }
  }

  /** Length of an argument, 0 for null. */
  function Len<T>(a: array?<T>): (n: nat)
    ensures n == (if a == null then 0 else a.Length)
  {
    if a == null then 0 else a.Length
  }

  /** Copies a non-null argument to results[length..] and advances length past it. */
  method Append<T>(a: array?<T>, results: array<T>, length: nat) returns (next: nat)
    requires a != results
    requires length + Len(a) <= results.Length
    modifies results
    ensures next == length + Len(a)
    ensures results[..next] == old(results[..length]) + Elems(a)
  {
    next := length;
    if a != null {
      ArrayCopy(a, results, length);
      next := next + a.Length;
      assert results[..next] == results[..length] + results[length..next];
    }
  }

  method Concat2<T(0)>(ary1: array?<T>, ary2: array?<T>) returns (results: array<T>)
    ensures fresh(results)
    ensures results.Length == Len(ary1) + Len(ary2)
    ensures results[..] == Elems(ary1) + Elems(ary2)
  {
    results := new T[Len(ary1) + Len(ary2)];
    var length := 0;
    length := Append(ary1, results, length);
    length := Append(ary2, results, length);
    assert results[..] == results[..length];
  }

  method Concat3<T(0)>(ary1: array?<T>, ary2: array?<T>, ary3: array?<T>) returns (results: array<T>)
    ensures fresh(results)
    ensures results[..] == Elems(ary1) + Elems(ary2) + Elems(ary3)
  {
    results := new T[Len(ary1) + Len(ary2) + Len(ary3)];
    var length := 0;
    length := Append(ary1, results, length);
    length := Append(ary2, results, length);
    length := Append(ary3, results, length);
    assert results[..] == results[..length];
  }

  method Concat4<T(0)>(ary1: array?<T>, ary2: array?<T>, ary3: array?<T>, ary4: array?<T>)
    returns (results: array<T>)
    ensures fresh(results)
    ensures results[..] == Elems(ary1) + Elems(ary2) + Elems(ary3) + Elems(ary4)
  {
    results := new T[Len(ary1) + Len(ary2) + Len(ary3) + Len(ary4)];
    ghost var e1, e2, e3, e4 := Elems(ary1), Elems(ary2), Elems(ary3), Elems(ary4);
    var length := 0;
    length := Append(ary1, results, length);
    assert results[..length] == e1;
    length := Append(ary2, results, length);
    assert results[..length] == e1 + e2;
    length := Append(ary3, results, length);
    assert results[..length] == e1 + e2 + e3;
    length := Append(ary4, results, length);
    assert results[..] == results[..length];
  }

  method Concat5<T(0)>(ary1: array?<T>, ary2: array?<T>, ary3: array?<T>, ary4: array?<T>, ary5: array?<T>)
    returns (results: array<T>)
    ensures fresh(results)
    ensures results[..] == Elems(ary1) + Elems(ary2) + Elems(ary3) + Elems(ary4) + Elems(ary5)
  {
    results := new T[Len(ary1) + Len(ary2) + Len(ary3) + Len(ary4) + Len(ary5)];
    ghost var e1, e2, e3, e4, e5 := Elems(ary1), Elems(ary2), Elems(ary3), Elems(ary4), Elems(ary5);
    var length := 0;
    length := Append(ary1, results, length);
    assert results[..length] == e1;
    length := Append(ary2, results, length);
    assert results[..length] == e1 + e2;
    length := Append(ary3, results, length);
    assert results[..length] == e1 + e2 + e3;
    length := Append(ary4, results, length);
    assert results[..length] == e1 + e2 + e3 + e4;
    length := Append(ary5, results, length);
    assert results[..] == results[..length];
  }
}
