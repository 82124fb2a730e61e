/** The cipher function f of one round: expansion, key mixing, the S-box layer and the P-box. */
module Feistel {
  import opened Bytes
  import opened Tables
  import opened Permutation

  // ---------------------------------------------------------------------------------------------
  // Exclusive or of blocks

  /** Byte-wise exclusive or of a with the first |a| bytes of b. */
  function Xor(a: seq<byte>, b: seq<byte>): (r: seq<byte>)
    requires |b| >= |a|
    ensures |r| == |a|
  {
    seq(|a|, i requires 0 <= i < |a| => a[i] ^ b[i])
  }

  /** Bit-wise exclusive or of a with the first |a| bits of b. */
  function XorBits(a: seq<bool>, b: seq<bool>): (r: seq<bool>)
    requires |b| >= |a|
    ensures |r| == |a|
  {
    seq(|a|, i requires 0 <= i < |a| => a[i] != b[i])
  }

  /** The byte-wise exclusive or is the bit-wise one. */
  lemma XorIsBitwise(a: seq<byte>, b: seq<byte>)
    requires |b| >= |a|
    ensures Bits(Xor(a, b)) == XorBits(Bits(a), Bits(b))
  {
    forall p | 0 <= p < 8 * |a| ensures Bits(Xor(a, b))[p] == (Bits(a)[p] != Bits(b)[p]) {
      var q, k := p / 8, p % 8;
      assert 0 <= q < |a| && 0 <= k < 8 && p == 8 * q + k;
      BitsAt(Xor(a, b), q, k);
      BitsAt(a, q, k);
      BitsAt(b, q, k);
      XorBit(a[q], b[q], k);
    }
  }

  /** Mixing in the same key twice gives the block back. */
  lemma XorInvolutive(a: seq<byte>, b: seq<byte>)
    requires |b| >= |a|
    ensures Xor(Xor(a, b), b) == a
  {
    forall i | 0 <= i < |a| ensures Xor(Xor(a, b), b)[i] == a[i] {
      XorCancel(a[i], b[i]);
    }
  }

  lemma XorCancel(x: byte, y: byte)
    ensures (x ^ y) ^ y == x
  {
  }

  /** Go's xorBlocks: a fresh buffer as long as block1, filled byte by byte. */
  method XorBlocks(block1: seq<byte>, block2: seq<byte>) returns (result: seq<byte>)
    requires |block2| >= |block1|
    ensures result == Xor(block1, block2)
  {
    var buf := new byte[|block1|];
    for i := 0 to |block1|
      invariant forall k :: 0 <= k < i ==> buf[k] == block1[k] ^ block2[k]
    {
      buf[i] := block1[i] ^ block2[i];
    }
    result := buf[..];
  }

  // ---------------------------------------------------------------------------------------------
  // S-boxes

  /** Go's getBit: bit pos of the block, as the byte 0 or 1. */
  function GetBit(block: seq<byte>, pos: int): (r: byte)
    requires 0 <= pos < 8 * |block|
    ensures r == if Bits(block)[pos] then 1 else 0
  {
    var posByte := pos / 8;
    var posBit := pos - posByte * 8;
    ReadBit(block[posByte], posBit);
    BitsAt(block, posByte, posBit);
    0x01 & (block[posByte] >> ((7 - posBit) as bv8))
  }

  function BitValue(x: bool): (r: int)
  {
    if x then 1 else 0
  }

  /** The outer two bits of the six-bit group at bit p select the row of an S-box. */
  function SBoxRow(bits: seq<bool>, p: int): (r: int)
    requires 0 <= p && p + 6 <= |bits|
    ensures 0 <= r < 4
  {
    2 * BitValue(bits[p]) + BitValue(bits[p + 5])
  }

  /** The inner four bits of the six-bit group at bit p select the column of an S-box. */
  function SBoxCol(bits: seq<bool>, p: int): (r: int)
    requires 0 <= p && p + 6 <= |bits|
    ensures 0 <= r < 16
  {
    8 * BitValue(bits[p + 1]) + 4 * BitValue(bits[p + 2]) + 2 * BitValue(bits[p + 3]) + BitValue(bits[p + 4])
  }

  /** The 4-bit value S-box s gives for the six-bit group at bit 6s: the entry in row SBoxRow,
      column SBoxCol of the table of sixteen columns. */
  function SBoxOutput(bits: seq<bool>, s: int): (r: byte)
    requires 0 <= s < 8 && 6 * s + 6 <= |bits|
  {
    SBoxEntry(s, 16 * SBoxRow(bits, 6 * s) + SBoxCol(bits, 6 * s))
  }

  /** Entry i of S-box s. */
  function SBoxEntry(s: int, i: int): (r: byte)
    requires 0 <= s < 8 && 0 <= i < 64
  {
    SBoxEntriesAreNibbles();
    SBoxes[s][i]
  }

  /** An S-box output fits in four bits. */
  lemma SBoxOutputIsNibble(bits: seq<bool>, s: int)
    requires 0 <= s < 8 && 6 * s + 6 <= |bits|
    ensures SBoxOutput(bits, s) < 16
  {
    SBoxEntriesAreNibbles();
  }

  /** The row and column index computed on bytes as getSBoxValue does it. */
  lemma SBoxIndex(a: byte, b: byte, c: byte, d: byte, e: byte, f: byte)
    requires a <= 1 && b <= 1 && c <= 1 && d <= 1 && e <= 1 && f <= 1
    ensures (((a << 1) | f) * 16 + ((b << 3) | (c << 2) | (d << 1) | e)) as int
         == 32 * a as int + 16 * f as int + 8 * b as int + 4 * c as int + 2 * d as int + e as int
  {
  }

  lemma BitValueOfGetBit(block: seq<byte>, pos: int)
    requires 0 <= pos < 8 * |block|
    ensures GetBit(block, pos) as int == BitValue(Bits(block)[pos])
  {
  }

  /** The table index getSBoxValue computes from bits beginPos .. beginPos + 5 is the row and
      column that the outer and the inner bits of the group select. */
  lemma GetSBoxIndex(block: seq<byte>, beginPos: int)
    requires 0 <= beginPos && beginPos + 6 <= 8 * |block|
    ensures var row := (GetBit(block, beginPos) << 1) | GetBit(block, beginPos + 5);
      var col := (GetBit(block, beginPos + 1) << 3) | (GetBit(block, beginPos + 2) << 2) |
                 (GetBit(block, beginPos + 3) << 1) | GetBit(block, beginPos + 4);
      (row * 16 + col) as int == 16 * SBoxRow(Bits(block), beginPos) + SBoxCol(Bits(block), beginPos)
  {
    SBoxIndex(GetBit(block, beginPos), GetBit(block, beginPos + 1), GetBit(block, beginPos + 2),
              GetBit(block, beginPos + 3), GetBit(block, beginPos + 4), GetBit(block, beginPos + 5));
    BitValueOfGetBit(block, beginPos);
    BitValueOfGetBit(block, beginPos + 1);
    BitValueOfGetBit(block, beginPos + 2);
    BitValueOfGetBit(block, beginPos + 3);
    BitValueOfGetBit(block, beginPos + 4);
    BitValueOfGetBit(block, beginPos + 5);
  }

  /** Go's getSBoxValue: S-box step applied to bits 6 * step .. 6 * step + 5 of the block. */
  function GetSBoxValue(block: seq<byte>, step: int): (r: byte)
    requires 0 <= step < 8 && 6 * step + 6 <= 8 * |block|
    ensures r == SBoxOutput(Bits(block), step) && r < 16
  {
    var beginPos := step * 6;
    var endPos := beginPos + 5;
    var row := (GetBit(block, beginPos) << 1) | GetBit(block, endPos);
    var col := (GetBit(block, beginPos + 1) << 3) | (GetBit(block, beginPos + 2) << 2) |
               (GetBit(block, beginPos + 3) << 1) | GetBit(block, beginPos + 4);
    GetSBoxIndex(block, beginPos);
    assert beginPos == 6 * step;
    SBoxEntriesAreNibbles();
    SBoxEntry(step, (row * 16 + col) as int)
  }

  /** The outputs of the eight S-boxes, S-box s reading the six-bit group at bit 6s. */
  function SBoxOutputs(bits: seq<bool>): (r: seq<byte>)
    requires |bits| >= 48
    ensures |r| == 8
  {
    seq(8, s requires 0 <= s < 8 => SBoxOutput(bits, s))
  }

  lemma SBoxOutputsAreNibbles(bits: seq<bool>)
    requires |bits| >= 48
    ensures forall s :: 0 <= s < 8 ==> SBoxOutputs(bits)[s] < 16
  {
    forall s | 0 <= s < 8 ensures SBoxOutputs(bits)[s] < 16 {
      SBoxOutputIsNibble(bits, s);
    }
  }

  /** Joins two 4-bit values into a byte, the first in the high nibble. */
  function JoinNibble(hi: byte, lo: byte): (r: byte)
  {
    (hi << 4) | lo
  }

  /** Joins n pairs of neighbouring 4-bit values into n bytes, the first of each pair in the high
      nibble. */
  function PackNibbles(outs: seq<byte>, n: nat): (r: seq<byte>)
    requires |outs| == 2 * n
    ensures |r| == n
  {
    seq(n, k requires 0 <= k < n => JoinNibble(outs[2 * k], outs[2 * k + 1]))
  }

  /** The S-box layer on the first six bytes of a block: the eight 4-bit outputs, two to a byte. */
  function SBoxLayer(block: seq<byte>): (r: seq<byte>)
    requires |block| >= 6
    ensures |r| == 4
  {
    PackNibbles(SBoxOutputs(Bits(block)), 4)
  }

  /** The S-box layer on bits: the first 48 bits become 32. */
  function Substitution(bits: seq<bool>): (r: seq<bool>)
    requires |bits| >= 48
    ensures |r| == 32
  {
    Bits(PackNibbles(SBoxOutputs(bits), 4))
  }

  /** In the bits of values joined pairwise, bit m of the nibble of an even-numbered value. */
  lemma HighNibbleBit(outs: seq<byte>, n: nat, k: int, m: int)
    requires |outs| == 2 * n && 0 <= k < n && 0 <= m < 4 && outs[2 * k + 1] < 16
    ensures Bits(PackNibbles(outs, n))[4 * (2 * k) + m] == BitOf(outs[2 * k], 4 + m)
  {
    BitsAt(PackNibbles(outs, n), k, m);
    JoinNibbles(outs[2 * k], outs[2 * k + 1], m);
    assert 4 * (2 * k) + m == 8 * k + m;
  }

  /** In the bits of values joined pairwise, bit m of the nibble of an odd-numbered value. */
  lemma LowNibbleBit(outs: seq<byte>, n: nat, k: int, m: int)
    requires |outs| == 2 * n && 0 <= k < n && 0 <= m < 4 && outs[2 * k + 1] < 16
    ensures Bits(PackNibbles(outs, n))[4 * (2 * k + 1) + m] == BitOf(outs[2 * k + 1], 4 + m)
  {
    BitsAt(PackNibbles(outs, n), k, 4 + m);
    JoinNibbles(outs[2 * k], outs[2 * k + 1], 4 + m);
    assert 4 * (2 * k + 1) + m == 8 * k + (4 + m);
  }

  /** In the bits of 4-bit values joined pairwise, bit 4s + m is bit m of value s. */
  lemma NibbleBit(outs: seq<byte>, n: nat, s: int, m: int)
    requires |outs| == 2 * n && 0 <= s < 2 * n && 0 <= m < 4
    requires forall t :: 0 <= t < |outs| ==> outs[t] < 16
    ensures Bits(PackNibbles(outs, n))[4 * s + m] == BitOf(outs[s], 4 + m)
  {
    var k := s / 2;
    if s % 2 == 0 {
      assert s == 2 * k;
      HighNibbleBit(outs, n, k, m);
    } else {
      assert s == 2 * k + 1;
      LowNibbleBit(outs, n, k, m);
    }
  }

  /** The S-box layer as the standard states it: bit 4s + m of its 32 bits is bit m of the 4-bit
      output of S-box s. */
  lemma SubstitutionBit(bits: seq<bool>, s: int, m: int)
    requires |bits| >= 48 && 0 <= s < 8 && 0 <= m < 4
    ensures Substitution(bits)[4 * s + m] == BitOf(SBoxOutput(bits, s), 4 + m)
  {
    SBoxOutputsAreNibbles(bits);
    NibbleBit(SBoxOutputs(bits), 4, s, m);
  }

  /** Joining one more pair of values appends one byte. */
  lemma PackNibblesAppend(outs: seq<byte>, n: nat, left: byte, right: byte)
    requires |outs| == 2 * n
    ensures PackNibbles(outs + [left, right], n + 1) == PackNibbles(outs, n) + [JoinNibble(left, right)]
  {
    forall k | 0 <= k <= n
      ensures PackNibbles(outs + [left, right], n + 1)[k] == (PackNibbles(outs, n) + [JoinNibble(left, right)])[k]
    {
      if k < n {
        assert (outs + [left, right])[2 * k] == outs[2 * k];
        assert (outs + [left, right])[2 * k + 1] == outs[2 * k + 1];
      } else {
        assert (outs + [left, right])[2 * k] == left;
        assert (outs + [left, right])[2 * k + 1] == right;
      }
    }
  }

  /** One pass of applySBoxes' loop: writing the join of values 2n and 2n + 1 of all to byte n
      extends the packed prefix of the buffer by one byte. */
  lemma ApplySBoxesStep(all: seq<byte>, buf: seq<byte>, n: nat, left: byte, right: byte)
    requires 2 * n + 2 <= |all| && n < |buf|
    requires buf[..n] == PackNibbles(all[..2 * n], n)
    requires left == all[2 * n] && right == all[2 * n + 1]
    ensures buf[n := JoinNibble(left, right)][..n + 1] == PackNibbles(all[..2 * n + 2], n + 1)
  {
    assert all[..2 * n + 2] == all[..2 * n] + [left, right];
    PackNibblesAppend(all[..2 * n], n, left, right);
    assert buf[n := JoinNibble(left, right)][..n + 1] == buf[..n] + [JoinNibble(left, right)];
  }

  /** The loop counter of applySBoxes steps through the even numbers below 8. */
  lemma EvenCounter(i: int, n: int)
    requires i == 2 * n && 0 <= i < 8
    ensures n < 4 && i + 1 < 8 && i / 2 == n
  {
  }

  /** Go's applySBoxes: fills a four-byte buffer two S-boxes at a time. */
  method ApplySBoxes(block: seq<byte>) returns (result: seq<byte>)
    requires |block| >= 6
    ensures result == SBoxLayer(block)
  {
    var buf := new byte[4];
    var i := 0;
    ghost var n := 0;
    ghost var all := SBoxOutputs(Bits(block));
    while i < 8
      invariant i == 2 * n && 0 <= n <= 4
      invariant buf[..][..n] == PackNibbles(all[..i], n)
    {
      EvenCounter(i, n);
      ApplySBoxPair(buf, block, i, n, all);
      i := i + 2;
      n := n + 1;
    }
    result := buf[..];
    assert result == result[..n];
    assert all[..i] == all;
  }

  /** One pass of applySBoxes' loop: byte i / 2 of the buffer becomes the outputs of S-boxes i and
      i + 1 joined. */
  method ApplySBoxPair(buf: array<byte>, block: seq<byte>, i: int, ghost n: nat, ghost all: seq<byte>)
    requires |block| >= 6 && buf.Length == 4 && i == 2 * n && n < 4
    requires all == SBoxOutputs(Bits(block)) && buf[..][..n] == PackNibbles(all[..i], n)
    modifies buf
    ensures buf[..][..n + 1] == PackNibbles(all[..i + 2], n + 1)
    ensures buf[n + 1..] == old(buf[n + 1..])
  {
    EvenCounter(i, n);
    var leftNibble := GetSBoxValue(block, i);
    var rightNibble := GetSBoxValue(block, i + 1);
    ApplySBoxesStep(all, buf[..], n, leftNibble, rightNibble);
    buf[i / 2] := (leftNibble << 4) | rightNibble;
  }

  // ---------------------------------------------------------------------------------------------
  // The round function

  /** Go's feistelFunction: f(R, K) = P(S(E(R) xor K)) on the first four bytes of the block and the
      first six bytes of the key. */
  function FeistelFunction(key: seq<byte>, block: seq<byte>): (r: seq<byte>)
    requires |key| >= 6 && |block| >= 4
    ensures |r| == 4
  {
    ExpansionPermutationWellFormed();
    PBoxPermutationWellFormed();
    var expandedBlock := Permuted(block, ExpansionPermutation);
    var mixedBlock := Xor(expandedBlock, key);
    var transformedBlock := SBoxLayer(mixedBlock);
    Permuted(transformedBlock, PBoxPermutation)
  }

  /** The round function on bits, as the standard writes it: the P-box applied to the S-box layer of
      the expanded half block xor-ed with the 48 key bits. */
  lemma FeistelBits(key: seq<byte>, block: seq<byte>)
    requires |key| >= 6 && |block| >= 4
    ensures IsTable(ExpansionPermutation, |Bits(block)|) && IsTable(PBoxPermutation, 32)
    ensures Bits(FeistelFunction(key, block))
         == PermuteBits(Substitution(XorBits(PermuteBits(Bits(block), ExpansionPermutation), Bits(key))),
                        PBoxPermutation)
  {
    ExpansionPermutationWellFormed();
    PBoxPermutationWellFormed();
    var e := Permuted(block, ExpansionPermutation);
    var m := Xor(e, key);
    var s := SBoxLayer(m);
    PermutedBits(block, ExpansionPermutation);
    XorIsBitwise(e, key);
    var eb := PermuteBits(Bits(block), ExpansionPermutation);
    assert Bits(m) == XorBits(eb, Bits(key));
    PermutedBits(s, PBoxPermutation);
  }
}
