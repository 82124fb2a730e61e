/** Bytes and the most-significant-bit-first bit view that every DES table is written against:
    bit p of a byte string is bit p % 8 of byte p / 8, counting from the most significant bit. */
module Bytes {

  type byte = bv8

  /** Bit k of b, where bit 0 is the most significant one. */
  predicate BitOf(b: byte, k: int)
    requires 0 <= k < 8
  {
    b & (0x80 >> (k as bv8)) != 0
  }

  /** The bits of s, eight per byte, most significant first. */
  function Bits(s: seq<byte>): (r: seq<bool>)
    ensures |r| == 8 * |s|
  {
    seq(8 * |s|, p requires 0 <= p < 8 * |s| => BitOf(s[p / 8], p % 8))
  }

  /** The byte whose bits, most significant first, are w. */
  function PackByte(w: seq<bool>): (r: byte)
    requires |w| == 8
  {
    (if w[0] then 0x80 else 0) | (if w[1] then 0x40 else 0) | (if w[2] then 0x20 else 0) | (if w[3] then 0x10 else 0) |
    (if w[4] then 0x08 else 0) | (if w[5] then 0x04 else 0) | (if w[6] then 0x02 else 0) | (if w[7] then 0x01 else 0)
  }

  /** The byte string whose bit view is bits (the inverse of Bits, see BitsOfPack and PackOfBits). */
  function Pack(bits: seq<bool>): (r: seq<byte>)
    requires |bits| % 8 == 0
    ensures |r| == |bits| / 8
  {
    seq(|bits| / 8, q requires 0 <= q < |bits| / 8 => PackByte(bits[8 * q .. 8 * q + 8]))
  }

  /** A run of n clear bits. */
  function Zeros(n: nat): (r: seq<bool>)
    ensures |r| == n && forall i :: 0 <= i < n ==> !r[i]
  {
    seq(n, _ => false)
  }

  // ---------------------------------------------------------------------------------------------
  // Position arithmetic

  lemma DivMod8(q: int, k: int)
    requires 0 <= k < 8
    ensures (8 * q + k) / 8 == q && (8 * q + k) % 8 == k
  {
  }

  /** Bit 8q+k of s is bit k of byte q. */
  lemma BitsAt(s: seq<byte>, q: int, k: int)
    requires 0 <= q < |s| && 0 <= k < 8
    ensures Bits(s)[8 * q + k] == BitOf(s[q], k)
  {
    DivMod8(q, k);
  }

  // ---------------------------------------------------------------------------------------------
  // Bits and Pack are inverse to each other

  lemma PackByteBit(w: seq<bool>, k: int)
    requires |w| == 8 && 0 <= k < 8
    ensures BitOf(PackByte(w), k) == w[k]
  {
  }

  lemma PackByteOfBits(x: byte, w: seq<bool>)
    requires |w| == 8
    requires w[0] == BitOf(x, 0) && w[1] == BitOf(x, 1) && w[2] == BitOf(x, 2) && w[3] == BitOf(x, 3)
    requires w[4] == BitOf(x, 4) && w[5] == BitOf(x, 5) && w[6] == BitOf(x, 6) && w[7] == BitOf(x, 7)
    ensures PackByte(w) == x
  {
  }

  lemma {:induction false} BitsOfPack(bits: seq<bool>)
    requires |bits| % 8 == 0
    ensures Bits(Pack(bits)) == bits
  {
    var r := Bits(Pack(bits));
    forall p | 0 <= p < |bits| ensures r[p] == bits[p] {
      var q := p / 8;
      PackByteBit(bits[8 * q .. 8 * q + 8], p % 8);
    }
  }

  lemma BitsWindow(s: seq<byte>, q: int)
    requires 0 <= q < |s|
    ensures PackByte(Bits(s)[8 * q .. 8 * q + 8]) == s[q]
  {
    var w := Bits(s)[8 * q .. 8 * q + 8];
    forall k | 0 <= k < 8 ensures w[k] == BitOf(s[q], k) {
      BitsAt(s, q, k);
    }
    PackByteOfBits(s[q], w);
  }

  lemma {:induction false} PackOfBits(s: seq<byte>)
    ensures Pack(Bits(s)) == s
  {
    forall q | 0 <= q < |s| ensures Pack(Bits(s))[q] == s[q] {
      BitsWindow(s, q);
    }
  }

  /** Two byte strings with the same bits are equal. */
  lemma BitsInjective(a: seq<byte>, b: seq<byte>)
    requires Bits(a) == Bits(b)
    ensures a == b
  {
    PackOfBits(a);
    PackOfBits(b);
  }

  /** The eight bits of a byte, most significant first. */
  function ByteBits(x: byte): (r: seq<bool>)
    ensures |r| == 8
  {
    seq(8, m requires 0 <= m < 8 => BitOf(x, m))
  }

  /** The bits of a one-byte string are the bits of the byte. */
  lemma BitsOfOne(x: byte)
    ensures Bits([x]) == ByteBits(x)
  {
    forall m | 0 <= m < 8 ensures Bits([x])[m] == ByteBits(x)[m] {
      BitsAt([x], 0, m);
    }
  }

  /** A bit string is the bits of a when it agrees with bit m of byte q at position 8q + m. */
  lemma BitsFromBytes(a: seq<byte>, bits: seq<bool>)
    requires |bits| == 8 * |a|
    requires forall q, m {:trigger BitOf(a[q], m)} :: 0 <= q < |a| && 0 <= m < 8 ==> BitOf(a[q], m) == bits[8 * q + m]
    ensures Bits(a) == bits
  {
    forall p | 0 <= p < 8 * |a| ensures Bits(a)[p] == bits[p] {
      var q, m := p / 8, p % 8;
      assert p == 8 * q + m;
      BitsAt(a, q, m);
    }
  }

  // ---------------------------------------------------------------------------------------------
  // Bits of concatenations and slices

  lemma BitsAppend(a: seq<byte>, b: seq<byte>)
    ensures Bits(a + b) == Bits(a) + Bits(b)
  {
    forall p | 8 * |a| <= p < 8 * (|a| + |b|) ensures Bits(a + b)[p] == Bits(b)[p - 8 * |a|] {
      var q, k := p / 8 - |a|, p % 8;
      assert p - 8 * |a| == 8 * q + k;
      DivMod8(q, k);
    }
  }

  lemma BitsSlice(s: seq<byte>, i: int, j: int)
    requires 0 <= i <= j <= |s|
    ensures Bits(s[i..j]) == Bits(s)[8 * i .. 8 * j]
  {
    assert s[..i] + s[i..j] + s[j..] == s;
    BitsAppend(s[..i], s[i..j]);
    BitsAppend(s[..i] + s[i..j], s[j..]);
    var a, b, c := Bits(s[..i]), Bits(s[i..j]), Bits(s[j..]);
    assert Bits(s) == a + b + c;
    assert (a + b + c)[|a|..|a| + |b|] == b;
  }

  // ---------------------------------------------------------------------------------------------
  // The single-byte operations of the cipher, read bit by bit

  lemma BitIndex(k: int)
    requires 0 <= k < 8
    ensures (7 - k) as bv8 == 7 - (k as bv8)
  {
  }

  /** Shifting bit k down to the bottom and masking reads bit k. */
  lemma ReadBit(y: byte, k: int)
    requires 0 <= k < 8
    ensures 0x01 & (y >> ((7 - k) as bv8)) == if BitOf(y, k) then 1 else 0
  {
    BitIndex(k);
    ReadBitAt(y, k as bv8);
  }

  lemma ReadBitAt(y: byte, kb: bv8)
    requires kb < 8
    ensures 0x01 & (y >> (7 - kb)) == if y & (0x80 >> kb) != 0 then 1 else 0
  {
  }

  /** Clearing bit r and or-ing in c (0 or 1) at bit r sets bit r to c and keeps the others. */
  lemma WriteBit(x: byte, c: byte, r: int, j: int)
    requires c <= 1 && 0 <= r < 8 && 0 <= j < 8
    ensures BitOf((x & !(0x01 << ((7 - r) as bv8))) | (c << ((7 - r) as bv8)), j)
         == if j == r then c == 1 else BitOf(x, j)
  {
    BitIndex(r);
    IndexBv(r);
    IndexBv(j);
    WriteBitAt(x, c, r as bv8, j as bv8);
  }

  /** A bit index below 8 keeps its value as a bit-vector. */
  lemma IndexBv(k: int)
    requires 0 <= k < 8
    ensures (k as bv8) as int == k && k as bv8 < 8
  {
  }

  lemma WriteBitAt(x: byte, c: byte, rb: bv8, jb: bv8)
    requires c <= 1 && rb < 8 && jb < 8
    ensures ((x & !(0x01 << (7 - rb))) | (c << (7 - rb))) & (0x80 >> jb) != 0
         <==> if jb == rb then c == 1 else x & (0x80 >> jb) != 0
  {
  }

  /** The top bit of x, moved to the bottom. */
  lemma TopBit(x: byte)
    ensures (x & 0x80) >> 7 == if BitOf(x, 0) then 1 else 0
  {
  }

  /** Shifting left by one moves every bit up one place and lets c (0 or 1) in at the bottom. */
  lemma ShiftInBit(x: byte, c: byte, j: int)
    requires c <= 1 && 0 <= j < 8
    ensures BitOf((x << 1) | c, j) == if j < 7 then BitOf(x, j + 1) else c == 1
  {
    if j < 7 {
      assert (j + 1) as bv8 == j as bv8 + 1;
    }
    ShiftInBitAt(x, c, j as bv8);
  }

  lemma ShiftInBitAt(x: byte, c: byte, jb: bv8)
    requires c <= 1 && jb < 8
    ensures ((x << 1) | c) & (0x80 >> jb) != 0
         <==> if jb < 7 then x & (0x80 >> (jb + 1)) != 0 else c == 1
  {
  }

  /** Or-ing in c (0 or 1) shifted up by e sets bit 7 - e when c is 1. */
  lemma OrBit(x: byte, c: byte, e: int, j: int)
    requires c <= 1 && 0 <= e < 8 && 0 <= j < 8
    ensures BitOf(x | (c << (e as bv8)), j) == (BitOf(x, j) || (j == 7 - e && c == 1))
  {
    BitIndex(e);
    assert j == 7 - e <==> j as bv8 == 7 - e as bv8;
    OrBitAt(x, c, e as bv8, j as bv8);
  }

  lemma OrBitAt(x: byte, c: byte, eb: bv8, jb: bv8)
    requires c <= 1 && eb < 8 && jb < 8
    ensures (x | (c << eb)) & (0x80 >> jb) != 0
         <==> (x & (0x80 >> jb) != 0 || (jb == 7 - eb && c == 1))
  {
  }

  /** Masking with 0xff << e clears the low e bits and keeps the others. */
  lemma MaskLowBits(x: byte, e: int, j: int)
    requires 0 <= e < 8 && 0 <= j < 8
    ensures BitOf(x & (0xff << (e as bv8)), j) == (BitOf(x, j) && j < 8 - e)
  {
    BitIndex(e);
    assert j < 8 - e <==> j as bv8 < 8 - e as bv8;
    MaskLowBitsAt(x, e as bv8, j as bv8);
  }

  lemma MaskLowBitsAt(x: byte, eb: bv8, jb: bv8)
    requires eb < 8 && jb < 8
    ensures (x & (0xff << eb)) & (0x80 >> jb) != 0 <==> (x & (0x80 >> jb) != 0 && jb < 8 - eb)
  {
  }

  /** The high nibble of a next to the low nibble of b. */
  lemma NibbleBits(a: byte, b: byte, j: int)
    requires 0 <= j < 8
    ensures BitOf((a & 0xf0) | (0x0f & b), j) == if j < 4 then BitOf(a, j) else BitOf(b, j)
  {
    assert j < 4 <==> j as bv8 < 4;
    NibbleBitsAt(a, b, j as bv8);
  }

  lemma NibbleBitsAt(a: byte, b: byte, jb: bv8)
    requires jb < 8
    ensures ((a & 0xf0) | (0x0f & b)) & (0x80 >> jb) != 0
         <==> if jb < 4 then a & (0x80 >> jb) != 0 else b & (0x80 >> jb) != 0
  {
  }

  /** A nibble shifted into the high half next to a nibble in the low half. */
  lemma JoinNibbles(a: byte, b: byte, j: int)
    requires b < 16 && 0 <= j < 8
    ensures BitOf((a << 4) | b, j) == if j < 4 then BitOf(a, j + 4) else BitOf(b, j)
  {
    if j < 4 {
      assert (j + 4) as bv8 == j as bv8 + 4;
    }
    JoinNibblesAt(a, b, j as bv8);
  }

  lemma JoinNibblesAt(a: byte, b: byte, jb: bv8)
    requires b < 16 && jb < 8
    ensures ((a << 4) | b) & (0x80 >> jb) != 0 <==> if jb < 4 then a & (0x80 >> (jb + 4)) != 0 else b & (0x80 >> jb) != 0
  {
  }

  /** Exclusive or works bit by bit. */
  lemma XorBit(a: byte, b: byte, j: int)
    requires 0 <= j < 8
    ensures BitOf(a ^ b, j) == (BitOf(a, j) != BitOf(b, j))
  {
    var m: byte := 0x80 >> (j as bv8);
    assert BitOf(a ^ b, j) == ((a ^ b) & m != 0);
    assert BitOf(a, j) == (a & m != 0) && BitOf(b, j) == (b & m != 0);
    XorBitAt(a, b, j as bv8);
  }

  lemma XorBitAt(a: byte, b: byte, jb: bv8)
    requires jb < 8
    ensures (a ^ b) & (0x80 >> jb) != 0 <==> (a & (0x80 >> jb) != 0) != (b & (0x80 >> jb) != 0)
  {
    assert jb == 0 || jb == 1 || jb == 2 || jb == 3 || jb == 4 || jb == 5 || jb == 6 || jb == 7;
  }

  /** Bits 0 to 6 of a byte are the bits that 0xfe keeps. */
  lemma HighSevenBits(a: byte, b: byte, j: int)
    requires a & 0xfe == b & 0xfe && 0 <= j < 7
    ensures BitOf(a, j) == BitOf(b, j)
  {
    assert j as bv8 < 7;
    HighSevenBitsAt(a, b, j as bv8);
  }

  lemma HighSevenBitsAt(a: byte, b: byte, jb: bv8)
    requires a & 0xfe == b & 0xfe && jb < 7
    ensures a & (0x80 >> jb) != 0 <==> b & (0x80 >> jb) != 0
  {
  }
}
