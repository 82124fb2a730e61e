/** The key schedule: PC-1, the rotation of the key halves, their re-joining and PC-2. */
module KeySchedule {
  import opened Bytes
  import opened Tables
  import opened Permutation

  // ---------------------------------------------------------------------------------------------
  // Rotation of a key half

  /** x rotated left by one position: the first element moves to the end. */
  function RotateOnce(x: seq<bool>): (r: seq<bool>)
    ensures |r| == |x|
  {
    if |x| == 0 then x else x[1..] + [x[0]]
  }

  /** x rotated left by k positions, one position at a time. */
  function Rotated(x: seq<bool>, k: nat): (r: seq<bool>)
    ensures |r| == |x|
  {
    if k == 0 then x else RotateOnce(Rotated(x, k - 1))
  }

  /** A rotation by k <= |x| moves the first k elements, in order, behind the others. */
  lemma {:induction false} RotatedSplit(x: seq<bool>, k: nat)
    requires k <= |x|
    ensures Rotated(x, k) == x[k..] + x[..k]
  {
    if k > 0 {
      RotatedSplit(x, k - 1);
      var y := x[k - 1..] + x[..k - 1];
      assert y[0] == x[k - 1];
      assert y[1..] == x[k..] + x[..k - 1];
      assert x[..k] == x[..k - 1] + [x[k - 1]];
    }
  }

  /** Rotating by the full length gives the sequence back, so rotation amounts count modulo |x|. */
  lemma RotatedPeriod(x: seq<bool>, k: nat)
    ensures Rotated(x, k + |x|) == Rotated(x, k)
  {
    RotatedSplit(x, |x|);
    assert x[|x|..] + x[..|x|] == x;
    RotatedAfter(x, |x|, k);
  }

  /** Rotating by a and then by b is rotating by a + b. */
  lemma {:induction false} RotatedAfter(x: seq<bool>, a: nat, b: nat)
    ensures Rotated(x, a + b) == Rotated(Rotated(x, a), b)
  {
    if b > 0 {
      RotatedAfter(x, a, b - 1);
    }
  }

  /** The bits of a buffer whose last byte is replaced by x. */
  lemma LastByteBits(s: seq<byte>, x: byte)
    requires |s| > 0
    ensures Bits(s[|s| - 1 := x]) == Bits(s[..|s| - 1]) + Bits([x])
  {
    assert s[|s| - 1 := x] == s[..|s| - 1] + [x];
    BitsAppend(s[..|s| - 1], [x]);
  }

  /** Masking a byte with 0xff << e keeps its first 8 - e bits and clears the others. */
  lemma MaskedByte(b: byte, e: int, mask: byte)
    requires 0 < e < 8 && mask == 0xff << (e as bv8)
    ensures Bits([b & mask]) == Bits([b])[..8 - e] + Zeros(e)
  {
    MaskedByteBits(b, e, mask);
    BitsOfOne(b);
    BitsOfOne(b & mask);
    assert ByteBits(b & mask) == ByteBits(b)[..8 - e] + Zeros(e);
  }

  lemma MaskedByteBits(b: byte, e: int, mask: byte)
    requires 0 < e < 8 && mask == 0xff << (e as bv8)
    ensures forall m :: 0 <= m < 8 ==> BitOf(b & mask, m) == (BitOf(b, m) && m < 8 - e)
  {
    forall m | 0 <= m < 8 ensures BitOf(b & mask, m) == (BitOf(b, m) && m < 8 - e) {
      MaskLowBits(b, e, m);
    }
  }

  /** A last byte that keeps only its first 8 - e bits leaves the first 8 * |block| - e bits of the
      block followed by e zeros. */
  lemma MaskedBits(block: seq<byte>, e: int, y: byte)
    requires |block| > 0 && 0 < e < 8
    requires Bits([y]) == Bits([block[|block| - 1]])[..8 - e] + Zeros(e)
    ensures Bits(block[|block| - 1 := y]) == Bits(block)[..8 * |block| - e] + Zeros(e)
  {
    var n := |block|;
    var b := block[n - 1];
    var front := Bits(block[..n - 1]);
    LastByteBits(block, y);
    LastByteBits(block, b);
    assert block[n - 1 := b] == block;
    assert (front + Bits([b]))[..8 * n - e] == front + Bits([b])[..8 - e];
  }

  /** The one bit that the inner loop of leftRoundShift carries into byte k from byte k + 1. */
  function Carry(prev: seq<byte>, k: int): (r: byte)
    requires -1 <= k < |prev|
  {
    if k + 1 < |prev| then (prev[k + 1] & 0x80) >> 7 else 0
  }

  /** Byte k of the buffer shifted left by one bit across byte boundaries. */
  function ShiftedByte(prev: seq<byte>, k: int): (r: byte)
    requires 0 <= k < |prev|
  {
    (prev[k] << 1) | Carry(prev, k)
  }

  /** The buffer shifted left by one bit, a zero entering at the end. */
  function ShiftedLeft(prev: seq<byte>): (r: seq<byte>)
    ensures |r| == |prev|
  {
    seq(|prev|, k requires 0 <= k < |prev| => ShiftedByte(prev, k))
  }

  lemma CarryIsTopBit(prev: seq<byte>, k: int)
    requires -1 <= k < |prev|
    ensures Carry(prev, k) <= 1
    ensures k + 1 < |prev| ==> (Carry(prev, k) == 1 <==> Bits(prev)[8 * (k + 1)])
  {
    if k + 1 < |prev| {
      TopBit(prev[k + 1]);
      BitsAt(prev, k + 1, 0);
    }
  }

  /** Shifting the bytes of a buffer left by one bit each and carrying the top bit of the next byte
      in shifts its bit string left by one. */
  lemma ShiftedLeftBits(prev: seq<byte>)
    requires |prev| > 0
    ensures Bits(ShiftedLeft(prev)) == Bits(prev)[1..] + [false]
  {
    var s := ShiftedLeft(prev);
    var want := Bits(prev)[1..] + [false];
    forall q, m | 0 <= q < |prev| && 0 <= m < 8 ensures BitOf(s[q], m) == want[8 * q + m] {
      CarryIsTopBit(prev, q);
      ShiftInBit(prev[q], Carry(prev, q), m);
      if m < 7 {
        BitsAt(prev, q, m + 1);
      }
    }
    BitsFromBytes(s, want);
  }

  /** Or-ing c << e into a byte sets its bit 7 - e when c is 1. */
  lemma OrByte(y: byte, c: byte, e: int, bit: byte)
    requires c <= 1 && 0 <= e < 8 && bit == c << (e as bv8)
    ensures Bits([y | bit]) == Bits([y])[7 - e := Bits([y])[7 - e] || c == 1]
  {
    OrByteBits(y, c, e, bit);
    BitsOfOne(y);
    BitsOfOne(y | bit);
    assert ByteBits(y | bit) == ByteBits(y)[7 - e := ByteBits(y)[7 - e] || c == 1];
  }

  lemma OrByteBits(y: byte, c: byte, e: int, bit: byte)
    requires c <= 1 && 0 <= e < 8 && bit == c << (e as bv8)
    ensures forall m :: 0 <= m < 8 ==> BitOf(y | bit, m) == (BitOf(y, m) || (m == 7 - e && c == 1))
  {
    forall m | 0 <= m < 8 ensures BitOf(y | bit, m) == (BitOf(y, m) || (m == 7 - e && c == 1)) {
      OrBit(y, c, e, m);
    }
  }

  /** A last byte with its bit 7 - e set when b holds sets bit 8 * |buf| - 1 - e of the buffer. */
  lemma OrLastBits(buf: seq<byte>, e: int, y: byte, b: bool)
    requires |buf| > 0 && 0 <= e < 8
    requires Bits([y]) == Bits([buf[|buf| - 1]])[7 - e := Bits([buf[|buf| - 1]])[7 - e] || b]
    ensures Bits(buf[|buf| - 1 := y]) == Bits(buf)[8 * |buf| - 1 - e := Bits(buf)[8 * |buf| - 1 - e] || b]
  {
    var n := |buf|;
    var front := Bits(buf[..n - 1]);
    var t := Bits([buf[n - 1]]);
    LastByteBits(buf, y);
    LastByteBits(buf, buf[n - 1]);
    assert buf[n - 1 := buf[n - 1]] == buf;
    assert (front + t)[|front| + (7 - e) := t[7 - e] || b] == front + t[7 - e := t[7 - e] || b];
  }

  /** The two updates of one pass of the outer loop of leftRoundShift, on the bits: when the buffer
      held r followed by e zero bits and sl is its one-bit shift, or-ing the bit that fell off the
      front into sl leaves r rotated by one followed by e zeros. */
  lemma ShiftPassBits(sl: seq<byte>, r: seq<bool>, e: int, c: byte, bit: byte)
    requires |sl| > 0 && 0 <= e < 8 && |r| + e == 8 * |sl| && |r| > 0
    requires Bits(sl) == (r + Zeros(e))[1..] + [false]
    requires c <= 1 && (c == 1 <==> r[0]) && bit == c << (e as bv8)
    ensures Bits(sl[|sl| - 1 := sl[|sl| - 1] | bit]) == RotateOnce(r) + Zeros(e)
  {
    OrByte(sl[|sl| - 1], c, e, bit);
    OrLastBits(sl, e, sl[|sl| - 1] | bit, c == 1);
    assert 8 * |sl| - 1 - e == |r| - 1;
    RotateIntoGap(r, e, c == 1);
  }

  /** On the bits: shifting r followed by e zeros left by one and setting the last bit of r's part
      to the bit that fell off the front rotates r by one. */
  lemma RotateIntoGap(r: seq<bool>, e: nat, b: bool)
    requires |r| > 0 && b == r[0]
    ensures var s := (r + Zeros(e))[1..] + [false];
      s[|r| - 1 := s[|r| - 1] || b] == RotateOnce(r) + Zeros(e)
  {
    var s := (r + Zeros(e))[1..] + [false];
    var got := s[|r| - 1 := s[|r| - 1] || b];
    var want := RotateOnce(r) + Zeros(e);
    forall p | 0 <= p < |r| + e ensures got[p] == want[p] {
      if p < |r| - 1 {
        assert got[p] == r[p + 1];
      } else if p == |r| - 1 {
        assert got[p] == r[0];
      }
    }
  }

  /** One pass of the outer loop of leftRoundShift, in terms of the buffer before it (prev), after
      the inner loop (shifted) and after the carry is or-ed into the last byte (now). */
  lemma OuterPass(prev: seq<byte>, shifted: seq<byte>, now: seq<byte>, r: seq<bool>, e: int, c: byte, bit: byte)
    requires |prev| > 0 && 0 <= e < 8 && |r| + e == 8 * |prev|
    requires Bits(prev) == r + Zeros(e)
    requires shifted == ShiftedLeft(prev) && c == Carry(prev, -1)
    requires bit == c << (e as bv8)
    requires now == shifted[|shifted| - 1 := shifted[|shifted| - 1] | bit]
    ensures Bits(now) == RotateOnce(r) + Zeros(e)
  {
    ShiftedLeftBits(prev);
    CarryIsTopBit(prev, -1);
    ShiftPassBits(shifted, r, e, c, bit);
  }

  /** The inner loop of leftRoundShift: from the last byte to the first, each byte moves left by
      one bit and takes in the top bit of the byte after it; the top bit of the first byte is
      returned. */
  method ShiftBytesLeft(buf: array<byte>) returns (leading: byte)
    requires buf.Length > 0
    modifies buf
    ensures buf[..] == ShiftedLeft(old(buf[..]))
    ensures leading == Carry(old(buf[..]), -1)
  {
    ghost var prev := buf[..];
    leading := 0x00;
    var j := buf.Length - 1;
    while j >= 0
      invariant -1 <= j < buf.Length
      invariant buf[..] == prev[..j + 1] + ShiftedLeft(prev)[j + 1..]
      invariant leading == Carry(prev, j)
    {
      ShiftStep(prev, buf[..], j, leading);
      var nextLeading: byte := (buf[j] & 0x80) >> 7;
      buf[j] := (buf[j] << 1) | leading;
      leading := nextLeading;
      j := j - 1;
    }
  }

  /** One pass of the inner loop of leftRoundShift shifts byte j and moves the carry to byte j - 1. */
  lemma ShiftStep(prev: seq<byte>, cur: seq<byte>, j: int, leading: byte)
    requires 0 <= j < |prev| && |cur| == |prev|
    requires cur == prev[..j + 1] + ShiftedLeft(prev)[j + 1..]
    requires leading == Carry(prev, j)
    ensures cur[j := (cur[j] << 1) | leading] == prev[..j] + ShiftedLeft(prev)[j..]
    ensures (cur[j] & 0x80) >> 7 == Carry(prev, j - 1)
  {
    assert cur[j] == prev[j];
    var after := cur[j := (cur[j] << 1) | leading];
    assert after[j] == ShiftedLeft(prev)[j];
    forall k | 0 <= k < |prev| ensures after[k] == (prev[..j] + ShiftedLeft(prev)[j..])[k] {
      if k < j {
        assert after[k] == cur[k] == prev[k];
      } else if k > j {
        assert after[k] == cur[k] == ShiftedLeft(prev)[k];
      }
    }
  }

  /** The result of leftRoundShift: the last byte keeps only its first 8 - endOffset bits, and the
      remaining 8 * |block| - endOffset bits are rotated left by shift, with the masked bits staying
      zero. A shift below 1 leaves the bits alone and an endOffset below 1 masks nothing. */
  function RoundShifted(block: seq<byte>, shift: int, endOffset: int): (r: seq<byte>)
    requires endOffset < 8
    requires |block| > 0 || (shift <= 0 && endOffset <= 0)
    ensures |r| == |block|
  {
    var e := if endOffset > 0 then endOffset else 0;
    var s := if shift > 0 then shift else 0;
    Pack(Rotated(Bits(block)[..8 * |block| - e], s) + Zeros(e))
  }

  /** Go's leftRoundShift: copies the block, clears its last endOffset bits, then shift times moves
      every bit one place to the left with a carry running from the last byte to the first, and
      puts the bit that fell off the front back above the cleared bits. beginOffset is not used. */
  method LeftRoundShift(block: seq<byte>, shift: int, beginOffset: int, endOffset: int) returns (result: seq<byte>)
    requires endOffset < 8
    requires |block| > 0 || (shift <= 0 && endOffset <= 0)
    ensures result == RoundShifted(block, shift, endOffset)
  {
    var buf := new byte[|block|](k requires 0 <= k < |block| => block[k]);
    assert buf[..] == block;
    ghost var e := if endOffset > 0 then endOffset else 0;
    ghost var top := Bits(block)[..8 * |block| - e];
    if endOffset > 0 {
      ClearLastBits(buf, endOffset);
    } else {
      assert Bits(block) == top + Zeros(e);
    }
    if |block| > 0 {
      RotateTimes(buf, shift, endOffset, e, top);
    }
    result := buf[..];
    ShiftedResult(block, shift, endOffset, result);
  }

  /** The outer loop of leftRoundShift: shift passes, each rotating the bits above the cleared
      ones by one place. */
  method RotateTimes(buf: array<byte>, shift: int, endOffset: int, ghost e: int, ghost top: seq<bool>)
    requires buf.Length > 0 && endOffset < 8 && e == (if endOffset > 0 then endOffset else 0)
    requires |top| + e == 8 * buf.Length && Bits(buf[..]) == top + Zeros(e)
    modifies buf
    ensures Bits(buf[..]) == Rotated(top, if shift > 0 then shift else 0) + Zeros(e)
  {
    var i := 0;
    ghost var rotated := top;
    while i < shift
      invariant 0 <= i <= (if shift > 0 then shift else 0)
      invariant rotated == Rotated(top, i) && Bits(buf[..]) == rotated + Zeros(e)
    {
      RotatePass(buf, endOffset, e, rotated);
      rotated := RotateOnce(rotated);
      i := i + 1;
    }
  }

  /** The masking step of leftRoundShift: the last byte of buf keeps only its first 8 - endOffset
      bits, so the bits of buf become its first 8 * |buf| - endOffset bits followed by zeros. */
  method ClearLastBits(buf: array<byte>, endOffset: int)
    requires buf.Length > 0 && 0 < endOffset < 8
    modifies buf
    ensures Bits(buf[..]) == Bits(old(buf[..]))[..8 * buf.Length - endOffset] + Zeros(endOffset)
  {
    ghost var prev := buf[..];
    var mask: byte := 0xff << (endOffset as bv8);
    buf[buf.Length - 1] := buf[buf.Length - 1] & mask;
    ClearStep(prev, buf[..], endOffset, mask);
  }

  lemma ClearStep(prev: seq<byte>, now: seq<byte>, e: int, mask: byte)
    requires |prev| > 0 && 0 < e < 8 && mask == 0xff << (e as bv8)
    requires now == prev[|prev| - 1 := prev[|prev| - 1] & mask]
    ensures Bits(now) == Bits(prev)[..8 * |prev| - e] + Zeros(e)
  {
    MaskedByte(prev[|prev| - 1], e, mask);
    MaskedBits(prev, e, prev[|prev| - 1] & mask);
  }

  /** One pass of the outer loop of leftRoundShift: the inner loop, then the bit that fell off the
      front or-ed in above the endOffset cleared bits. On the bits, r followed by e zeros becomes r
      rotated by one followed by e zeros. */
  method RotatePass(buf: array<byte>, endOffset: int, ghost e: int, ghost r: seq<bool>)
    requires buf.Length > 0 && endOffset < 8 && e == (if endOffset > 0 then endOffset else 0)
    requires |r| + e == 8 * buf.Length && Bits(buf[..]) == r + Zeros(e)
    modifies buf
    ensures Bits(buf[..]) == RotateOnce(r) + Zeros(e)
  {
    ghost var prev := buf[..];
    var leading := ShiftBytesLeft(buf);
    var bit: byte := if endOffset > 0 then leading << (endOffset as bv8) else leading;
    ghost var shifted := buf[..];
    buf[buf.Length - 1] := buf[buf.Length - 1] | bit;
    OuterPass(prev, shifted, buf[..], r, e, leading, bit);
  }

  /** A byte string with the bits RoundShifted describes is RoundShifted. */
  lemma ShiftedResult(block: seq<byte>, shift: int, endOffset: int, x: seq<byte>)
    requires endOffset < 8
    requires |block| > 0 || (shift <= 0 && endOffset <= 0)
    requires var e := if endOffset > 0 then endOffset else 0;
      Bits(x) == Rotated(Bits(block)[..8 * |block| - e], if shift > 0 then shift else 0) + Zeros(e)
    ensures x == RoundShifted(block, shift, endOffset)
  {
    PackOfBits(x);
  }

  /** With endOffset 4, as for the left key half: the low nibble of the last byte is zero and the
      first 28 bits are rotated left by shift. */
  lemma LeftHalfShift(block: seq<byte>, shift: nat)
    requires |block| == 4
    ensures RoundShifted(block, shift, 4)[3] & 0x0f == 0
    ensures Bits(RoundShifted(block, shift, 4))[..28] == Rotated(Bits(block)[..28], shift)
  {
    var bits := Rotated(Bits(block)[..28], shift) + Zeros(4);
    var r := RoundShifted(block, shift, 4);
    BitsOfPack(bits);
    assert Bits(r)[..28] == Rotated(Bits(block)[..28], shift);
    forall m | 4 <= m < 8 ensures !BitOf(r[3], m) {
      BitsAt(r, 3, m);
    }
    LowNibbleClear(r[3]);
  }

  lemma LowNibbleClear(x: byte)
    requires !BitOf(x, 4) && !BitOf(x, 5) && !BitOf(x, 6) && !BitOf(x, 7)
    ensures x & 0x0f == 0
  {
  }

  /** With endOffset 0, as for the right key half: a plain rotation of all the bits. */
  lemma WholeShift(block: seq<byte>, shift: nat)
    requires |block| > 0
    ensures Bits(RoundShifted(block, shift, 0)) == Rotated(Bits(block), shift)
  {
    assert Bits(block)[..8 * |block|] == Bits(block);
    BitsOfPack(Rotated(Bits(block), shift) + Zeros(0));
    assert Rotated(Bits(block), shift) + Zeros(0) == Rotated(Bits(block), shift);
  }

  // ---------------------------------------------------------------------------------------------
  // Joining the halves

  /** The 56-bit key rebuilt from the two rotated halves: the first 28 bits of left, then bits 4 to
      31 of right, the nibble at the seam straddling byte 3. */
  function Joined(left: seq<byte>, right: seq<byte>): (r: seq<byte>)
    requires |left| >= 4 && |right| >= 4
    ensures |r| == 7
  {
    Pack(Bits(left)[..28] + Bits(right)[4..32])
  }

  /** Joined byte by byte: three bytes of left, the high nibble of left[3] with the low nibble of
      right[0], then right[1..4]. */
  lemma JoinedBytes(left: seq<byte>, right: seq<byte>)
    requires |left| >= 4 && |right| >= 4
    ensures Joined(left, right) == left[..3] + [(left[3] & 0xf0) | (0x0f & right[0])] + right[1..4]
  {
    var y := (left[3] & 0xf0) | (0x0f & right[0]);
    var x := left[..3] + [y] + right[1..4];
    BitsOfThree(left[..3], y, right[1..4]);
    BitsSlice(left, 0, 3);
    assert left[0..3] == left[..3];
    BitsSlice(right, 1, 4);
    SeamBits(left, right);
    BitsOfOne(y);
    Regroup(Bits(left), Bits(right));
    PackOfBits(x);
  }

  lemma BitsOfThree(a: seq<byte>, y: byte, b: seq<byte>)
    ensures Bits(a + [y] + b) == Bits(a) + Bits([y]) + Bits(b)
  {
    BitsAppend(a + [y], b);
    BitsAppend(a, [y]);
  }

  lemma Regroup(l: seq<bool>, r: seq<bool>)
    requires |l| >= 28 && |r| >= 32
    ensures l[0..24] + (l[24..28] + r[4..8]) + r[8..32] == l[..28] + r[4..32]
  {
    assert l[..28] == l[0..24] + l[24..28];
    assert r[4..32] == r[4..8] + r[8..32];
  }

  /** The seam byte of joinKeys: bits 24 to 27 of left followed by bits 4 to 7 of right. */
  lemma SeamBits(left: seq<byte>, right: seq<byte>)
    requires |left| >= 4 && |right| >= 4
    ensures ByteBits((left[3] & 0xf0) | (0x0f & right[0])) == Bits(left)[24..28] + Bits(right)[4..8]
  {
    var y := (left[3] & 0xf0) | (0x0f & right[0]);
    forall m | 0 <= m < 8 ensures ByteBits(y)[m] == (Bits(left)[24..28] + Bits(right)[4..8])[m] {
      NibbleBits(left[3], right[0], m);
      if m < 4 {
        BitsAt(left, 3, m);
      } else {
        BitsAt(right, 0, m);
      }
    }
  }

  /** Go's joinKeys: copies three bytes of left, merges the seam byte, copies three bytes of right. */
  method JoinKeys(left: seq<byte>, right: seq<byte>) returns (result: seq<byte>)
    requires |left| >= 4 && |right| >= 4
    ensures result == Joined(left, right)
  {
    var buf := new byte[7];
    for i := 0 to 3
      invariant forall k :: 0 <= k < i ==> buf[k] == left[k]
    {
      buf[i] := left[i];
    }
    buf[3] := (left[3] & 0xf0) | (0x0f & right[0]);
    for i := 1 to 4
      invariant forall k :: 0 <= k < 3 ==> buf[k] == left[k]
      invariant buf[3] == (left[3] & 0xf0) | (0x0f & right[0])
      invariant forall k :: 1 <= k < i ==> buf[3 + k] == right[k]
    {
      buf[3 + i] := right[i];
    }
    result := buf[..];
    JoinedFrom(result, left, right);
  }

  /** Seven bytes laid out as joinKeys writes them are the joined key. */
  lemma JoinedFrom(x: seq<byte>, left: seq<byte>, right: seq<byte>)
    requires |left| >= 4 && |right| >= 4 && |x| == 7
    requires forall k :: 0 <= k < 3 ==> x[k] == left[k]
    requires x[3] == (left[3] & 0xf0) | (0x0f & right[0])
    requires forall k :: 1 <= k < 4 ==> x[3 + k] == right[k]
    ensures x == Joined(left, right)
  {
    JoinedBytes(left, right);
    assert x == left[..3] + [(left[3] & 0xf0) | (0x0f & right[0])] + right[1..4];
  }

  /** Splitting a 56-bit key into the bytes 0 to 3 and 3 to 6, as getRoundSubkey does, and joining
      the halves again gives the key back. */
  lemma JoinSplit(key: seq<byte>)
    requires |key| == 7
    ensures Joined(key[..4], key[3..]) == key
  {
    var want := Bits(key[..4])[..28] + Bits(key[3..])[4..32];
    forall p | 0 <= p < 56 ensures want[p] == Bits(key)[p] {
      var q, m := p / 8, p % 8;
      assert p == 8 * q + m;
      BitsAt(key, q, m);
      if p < 28 {
        BitsAt(key[..4], q, m);
      } else {
        assert p - 24 == 8 * (q - 3) + m;
        BitsAt(key[3..], q - 3, m);
      }
    }
    assert want == Bits(key);
    PackOfBits(key);
  }

  // ---------------------------------------------------------------------------------------------
  // PC-1 and the round keys

  /** Go's key64To56: permuted choice 1 takes 56 bits of the 64-bit key. */
  function Key64To56(key: seq<byte>): (r: seq<byte>)
    requires |key| >= 8
    ensures |r| == 7
  {
    KeyPermutationWellFormed();
    Permuted(key, KeyPermutation)
  }

  /** Permuted choice 1 never reads the last bit of a key byte (the parity bit), so keys that differ
      only there give the same 56 bits. */
  lemma ParityIgnored(a: seq<byte>, b: seq<byte>)
    requires |a| == |b| >= 8
    requires forall q :: 0 <= q < |a| ==> a[q] & 0xfe == b[q] & 0xfe
    ensures Key64To56(a) == Key64To56(b)
  {
    KeyPermutationWellFormed();
    forall i | 0 <= i < 56 ensures Bits(a)[KeyPermutation[i] - 1] == Bits(b)[KeyPermutation[i] - 1] {
      SameDataBit(a, b, KeyPermutation[i] - 1);
    }
    PermutedAgree(a, b, KeyPermutation);
  }

  lemma SameDataBit(a: seq<byte>, b: seq<byte>, p: int)
    requires |a| == |b| && 0 <= p < 8 * |a| && p % 8 != 7
    requires forall q :: 0 <= q < |a| ==> a[q] & 0xfe == b[q] & 0xfe
    ensures Bits(a)[p] == Bits(b)[p]
  {
    var q, m := p / 8, p % 8;
    assert p == 8 * q + m;
    BitsAt(a, q, m);
    BitsAt(b, q, m);
    HighSevenBits(a[q], b[q], m);
  }

  /** The first n bytes of src, padded with zero bytes, as Go's make followed by copy leaves them. */
  function Copied(src: seq<byte>, n: nat): (r: seq<byte>)
    ensures |r| == n
    ensures forall i :: 0 <= i < n && i < |src| ==> r[i] == src[i]
    ensures forall i :: |src| <= i < n ==> r[i] == 0
  {
    seq(n, i requires 0 <= i < n => if i < |src| then src[i] else 0)
  }

  /** The 56 bits of a round before permuted choice 2, as getRoundSubkey computes them: bytes 0 to 3
      of the key are rotated with the low nibble of byte 3 cleared, bytes 3 to 6 are rotated as a
      whole 32-bit word, and the two are joined. The shift is the one of this round alone. */
  function ShiftedKey(key: seq<byte>, round: int): (r: seq<byte>)
    requires |key| >= 4 && 0 <= round < 16
    ensures |r| == 7
  {
    KeyShifts();
    var shift := KeyShiftsPerRound[round];
    var left := RoundShifted(key[..4], shift, 4);
    var right := RoundShifted(Copied(key[3..], 4), shift, 0);
    Joined(left, right)
  }

  /** Go's getRoundSubkey: permuted choice 2 of the shifted key. */
  function GetRoundSubkey(key: seq<byte>, round: int): (r: seq<byte>)
    requires |key| >= 4 && 0 <= round < 16
    ensures |r| == 6
  {
    CompressionPermutationWellFormed();
    Permuted(ShiftedKey(key, round), CompressionPermutation)
  }

  /** The bits of the shifted 56-bit key K: the first 28 bits of K rotated by the round's shift,
      then bits 28 to 55 of the rotation of bits 24 to 55 of K. */
  lemma ShiftedKeyBits(key: seq<byte>, round: int)
    requires |key| == 7 && 0 <= round < 16
    ensures KeyShiftsPerRound[round] >= 0
    ensures var shift := KeyShiftsPerRound[round];
      Bits(ShiftedKey(key, round)) == Rotated(Bits(key)[..28], shift) + Rotated(Bits(key)[24..56], shift)[4..]
  {
    KeyShifts();
    var shift := KeyShiftsPerRound[round];
    var left := RoundShifted(key[..4], shift, 4);
    var right := RoundShifted(Copied(key[3..], 4), shift, 0);
    LeftHalfShift(key[..4], shift);
    BitsSlice(key, 0, 4);
    assert key[0..4] == key[..4];
    assert Bits(key[..4])[..28] == Bits(key)[..28];
    assert Copied(key[3..], 4) == key[3..7];
    WholeShift(key[3..7], shift);
    BitsSlice(key, 3, 7);
    BitsOfPack(Bits(left)[..28] + Bits(right)[4..32]);
  }

  /** The bits of a round key: permuted choice 2 of the shifted key bits. */
  lemma RoundSubkeyBits(key: seq<byte>, round: int)
    requires |key| == 7 && 0 <= round < 16
    ensures KeyShiftsPerRound[round] >= 0 && IsTable(CompressionPermutation, 56)
    ensures var shift := KeyShiftsPerRound[round];
      Bits(GetRoundSubkey(key, round))
      == PermuteBits(Rotated(Bits(key)[..28], shift) + Rotated(Bits(key)[24..56], shift)[4..], CompressionPermutation)
  {
    CompressionPermutationWellFormed();
    ShiftedKeyBits(key, round);
    PermutedBits(ShiftedKey(key, round), CompressionPermutation);
  }

  /** The right half does not rotate on its own: the last shift bits of the shifted key are bits 24
      and on of K, which belong to the left half (a rotation of the 28-bit right half alone would
      bring bits 28 and on there). */
  lemma RightHalfCrossesSeam(key: seq<byte>, round: int, j: int)
    requires |key| == 7 && 0 <= round < 16
    requires 0 <= j < KeyShiftsPerRound[round]
    ensures Bits(ShiftedKey(key, round))[56 - KeyShiftsPerRound[round] + j] == Bits(key)[24 + j]
  {
    KeyShifts();
    var shift := KeyShiftsPerRound[round];
    var x := Bits(key)[24..56];
    ShiftedKeyBits(key, round);
    RotatedSplit(x, shift);
    SplitTail(Rotated(Bits(key)[..28], shift), x, shift, j);
  }

  lemma SplitTail(a: seq<bool>, x: seq<bool>, s: int, j: int)
    requires |a| == 28 && |x| == 32 && 0 <= j < s <= 4
    ensures (a + (x[s..] + x[..s])[4..])[56 - s + j] == x[j]
  {
    assert (a + (x[s..] + x[..s])[4..])[56 - s + j] == (x[s..] + x[..s])[32 - s + j];
  }

  /** The sixteen round keys of a 64-bit key, each taken from the 56 bits of permuted choice 1. */
  function RoundKeys(key: seq<byte>): (r: seq<seq<byte>>)
    requires |key| >= 8
    ensures |r| == 16 && forall k :: 0 <= k < 16 ==> |r[k]| == 6
  {
    seq(16, k requires 0 <= k < 16 => GetRoundSubkey(Key64To56(key), k))
  }

  /** Go's GenerateRoundKeys: permuted choice 1 once, then one round key per round. */
  method GenerateRoundKeys(key: seq<byte>) returns (result: seq<seq<byte>>)
    requires |key| >= 8
    ensures result == RoundKeys(key)
  {
    var transformedKey := Key64To56(key);
    var keys := new seq<byte>[16];
    for i := 0 to 16
      invariant forall k :: 0 <= k < i ==> keys[k] == GetRoundSubkey(transformedKey, k)
    {
      keys[i] := GetRoundSubkey(transformedKey, i);
    }
    result := keys[..];
  }

  /** Each round key depends on its round's shift alone, the shifts not adding up from round to
      round: rounds 0, 1, 8 and 15 all get the key of round 0 and the other rounds that of round 2. */
  lemma RoundKeysRepeat(key: seq<byte>)
    requires |key| >= 8
    ensures forall k :: 0 <= k < 16 ==>
      RoundKeys(key)[k] == if k == 0 || k == 1 || k == 8 || k == 15 then RoundKeys(key)[0] else RoundKeys(key)[2]
  {
    KeyShifts();
  }
}
