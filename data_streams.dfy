// The binary encoding of java.io.DataOutput and DataInput for the primitive
// types the date field writes: writeShort/readShort (two bytes) and
// writeLong/readLong (eight bytes), most significant byte first, two's
// complement.
module DataStreams {
  import opened Wrappers
  import opened JavaLang

  type Byte = b: int | 0 <= b < 0x100

  function Pow256(n: nat): (p: nat)
    ensures p >= 1
  {
    if n == 0 then 1 else 0x100 * Pow256(n - 1)
  }

  /** The n low-order bytes of u, most significant first. */
  function BigEndian(u: nat, n: nat): (bs: seq<Byte>)
    ensures |bs| == n
  {
    if n == 0 then [] else BigEndian(u / 0x100, n - 1) + [u % 0x100]
  }

  /** The unsigned number that a run of bytes spells, most significant first. */
  function Unsigned(bs: seq<Byte>): (u: nat)
    ensures u < Pow256(|bs|)
  {
    if bs == [] then 0 else Unsigned(bs[..|bs| - 1]) * 0x100 + bs[|bs| - 1]
  }

  /** Division with remainder has one answer. */
  lemma ModUnique(u: int, d: int, k: int, t: int)
    requires d > 0 && 0 <= t < d && u == d * k + t
    ensures u % d == t && u / d == k
  {
    var q, r := u / d, u % d;
    assert d * (q - k) == t - r;
    NoMultipleBetween(d, q - k);
  }

  /** The only multiple of d strictly between -d and d is 0. */
  lemma NoMultipleBetween(d: int, e: int)
    requires d > 0 && -d < d * e < d
    ensures e == 0
  {
    if e >= 1 {
      MulAtLeast(d, e);
    } else if e <= -1 {
      MulAtLeast(d, -e);
    }
  }

  lemma MulAtLeast(d: int, e: int)
    requires d > 0 && e >= 1
    ensures d * e >= d
  {
    assert d * e == d + d * (e - 1);
  }

  /** Peeling off the low byte: the rest of u, reduced, then the byte. */
  lemma ModSplit(u: nat, p: nat)
    requires p >= 1
    ensures (u / 0x100) % p * 0x100 + u % 0x100 == u % (0x100 * p)
  {
    var q, r := u / 0x100, u % 0x100;
    var k, m := q / p, q % p;
    assert u == 0x100 * q + r;
    assert q == p * k + m;
    assert u == (0x100 * p) * k + (m * 0x100 + r);
    assert m * 0x100 + r < 0x100 * p by {
      assert m <= p - 1;
      assert m * 0x100 <= (p - 1) * 0x100;
    }
    ModUnique(u, 0x100 * p, k, m * 0x100 + r);
  }

  /** Writing n bytes of u and reading them back gives u modulo 256^n. */
  lemma {:induction false} UnsignedOfBigEndian(u: nat, n: nat)
    ensures Unsigned(BigEndian(u, n)) == u % Pow256(n)
  {
    if n > 0 {
      var b := BigEndian(u / 0x100, n - 1);
      var bs := BigEndian(u, n);
      assert bs == b + [u % 0x100];
      assert bs[..|bs| - 1] == b;
      UnsignedOfBigEndian(u / 0x100, n - 1);
      ModSplit(u, Pow256(n - 1));
    }
  }

  lemma LongPower()
    ensures Pow256(8) == 0x1_0000_0000_0000_0000
  {
    assert Pow256(2) == 0x1_0000;
    assert Pow256(4) == 0x1_0000_0000 by {
      assert Pow256(3) == 0x100_0000;
    }
    assert Pow256(6) == 0x1_0000_0000_0000 by {
      assert Pow256(5) == 0x100_0000_0000;
    }
    assert Pow256(7) == 0x100_0000_0000_0000;
  }

  // ---------------------------------------------------------------- short

  /** writeShort(v): the low 16 bits of v. */
  function WriteShort(v: int): (bs: seq<Byte>)
    ensures |bs| == 2
  {
    BigEndian(v % 0x1_0000, 2)
  }

  /** readShort: two bytes as a signed 16-bit number, or EOFException. */
  function ReadShort(input: seq<Byte>): (r: Outcome<(JShort, seq<Byte>)>)
    ensures r.Threw? <==> |input| < 2
    ensures r.Threw? ==> r.exc == EndOfFile
    ensures r.Returned? ==> r.value.1 == input[2..]
  {
    if |input| < 2 then Threw(EndOfFile)
    else
      var u := input[0] as int * 0x100 + input[1];
      Returned((if u >= 0x8000 then u - 0x1_0000 else u, input[2..]))
  }

  /** readShort after writeShort(v) gives back (short) v, and leaves what follows. */
  lemma ShortRead(v: int, rest: seq<Byte>)
    ensures ReadShort(WriteShort(v) + rest) == Returned((ShortCast(v), rest))
  {
    var bs := WriteShort(v);
    UnsignedOfBigEndian(v % 0x1_0000, 2);
    assert Unsigned(bs) == bs[0] as int * 0x100 + bs[1] by {
      assert bs[..1] == [bs[0]];
      assert bs[..1][..0] == [];
    }
    assert (bs + rest)[..2] == bs;
    assert (bs + rest)[2..] == rest;
    var u := v % 0x1_0000;
    if u >= 0x8000 {
      ModUnique(u - 0x1_0000 + 0x8000, 0x1_0000, 0, u - 0x8000);
      assert (u - 0x1_0000 - v) % 0x1_0000 == 0 by {
        ModUnique(v, 0x1_0000, v / 0x1_0000, u);
        ModUnique(u - 0x1_0000 - v, 0x1_0000, -(v / 0x1_0000) - 1, 0);
      }
    } else {
      ModUnique(v, 0x1_0000, v / 0x1_0000, u);
      ModUnique(u - v, 0x1_0000, -(v / 0x1_0000), 0);
    }
    assert ShortCast(v) == if u >= 0x8000 then u - 0x1_0000 else u by {
      ShortCastUnique(v, if u >= 0x8000 then u - 0x1_0000 else u);
    }
  }

  /** A 16-bit number congruent to x is (short) x. */
  lemma ShortCastUnique(x: int, s: int)
    requires -0x8000 <= s < 0x8000 && (s - x) % 0x1_0000 == 0
    ensures ShortCast(x) == s
  {
    var k := (s - x) / 0x1_0000;
    assert s - x == 0x1_0000 * k;
    ModUnique(x + 0x8000, 0x1_0000, -k, s + 0x8000);
  }

  // ---------------------------------------------------------------- long

  /** writeLong(v): the 64 bits of v in two's complement. */
  function WriteLong(v: JLong): (bs: seq<Byte>)
    ensures |bs| == 8
  {
    BigEndian(v % 0x1_0000_0000_0000_0000, 8)
  }

  /** readLong: eight bytes as a signed 64-bit number, or EOFException. */
  function ReadLong(input: seq<Byte>): (r: Outcome<(JLong, seq<Byte>)>)
    ensures r.Threw? <==> |input| < 8
    ensures r.Threw? ==> r.exc == EndOfFile
    ensures r.Returned? ==> r.value.1 == input[8..]
  {
    if |input| < 8 then Threw(EndOfFile)
    else
      LongPower();
      var u := Unsigned(input[..8]);
      Returned((if u >= 0x8000_0000_0000_0000 then u - 0x1_0000_0000_0000_0000 else u, input[8..]))
  }

  /** readLong after writeLong(v) gives back v, and leaves what follows. */
  lemma LongRead(v: JLong, rest: seq<Byte>)
    ensures ReadLong(WriteLong(v) + rest) == Returned((v, rest))
  {
    var bs := WriteLong(v);
    var u := v % 0x1_0000_0000_0000_0000;
    LongPower();
    UnsignedOfBigEndian(u, 8);
    assert (bs + rest)[..8] == bs;
    assert (bs + rest)[8..] == rest;
    ModUnique(u, 0x1_0000_0000_0000_0000, 0, u);
    if v >= 0 {
      ModUnique(v, 0x1_0000_0000_0000_0000, 0, v);
    } else {
      ModUnique(v, 0x1_0000_0000_0000_0000, -1, v + 0x1_0000_0000_0000_0000);
    }
  }
}
