/** The bit permutation that every table of the cipher is applied with. */
module Permutation {
  import opened Bytes
  import opened Tables

  /** Output bit i is input bit t[i] - 1 (the tables count bit positions from 1). */
  function PermuteBits(bits: seq<bool>, t: seq<int>): (r: seq<bool>)
    requires forall i :: 0 <= i < |t| ==> 1 <= t[i] <= |bits|
    ensures |r| == |t|
  {
    seq(|t|, i requires 0 <= i < |t| => bits[t[i] - 1])
  }

  /** The byte string that table t selects from the bits of block. */
  function Permuted(block: seq<byte>, t: seq<int>): (r: seq<byte>)
    requires IsTable(t, 8 * |block|)
    ensures |r| == |t| / 8
  {
    Pack(PermuteBits(Bits(block), t))
  }

  /** Bit i of the permuted block is bit t[i] - 1 of the block. */
  lemma PermutedBits(block: seq<byte>, t: seq<int>)
    requires IsTable(t, 8 * |block|)
    ensures Bits(Permuted(block, t)) == PermuteBits(Bits(block), t)
  {
    BitsOfPack(PermuteBits(Bits(block), t));
  }

  /** A table reads only the positions it names: blocks that agree there permute to the same bytes. */
  lemma PermutedAgree(a: seq<byte>, b: seq<byte>, t: seq<int>)
    requires |a| == |b| && IsTable(t, 8 * |a|)
    requires forall i :: 0 <= i < |t| ==> Bits(a)[t[i] - 1] == Bits(b)[t[i] - 1]
    ensures Permuted(a, t) == Permuted(b, t)
  {
    assert PermuteBits(Bits(a), t) == PermuteBits(Bits(b), t);
  }

  /** The first n bits of buf hold the first n bits that table t selects from block. */
  predicate Filled(buf: seq<byte>, block: seq<byte>, t: seq<int>, n: int)
    requires IsTable(t, 8 * |block|) && 0 <= n <= |t| && |buf| == |t| / 8
  {
    forall p :: 0 <= p < n ==> BitOf(buf[p / 8], p % 8) == Bits(block)[t[p] - 1]
  }

  /** Writing bit n correctly into byte n / 8, and leaving its other bits alone, fills one more bit. */
  lemma FilledStep(buf: seq<byte>, block: seq<byte>, t: seq<int>, n: int, x: byte)
    requires IsTable(t, 8 * |block|) && 0 <= n < |t| && |buf| == |t| / 8
    requires Filled(buf, block, t, n)
    requires BitOf(x, n % 8) == Bits(block)[t[n] - 1]
    requires forall j :: 0 <= j < 8 && j != n % 8 ==> BitOf(x, j) == BitOf(buf[n / 8], j)
    ensures Filled(buf[n / 8 := x], block, t, n + 1)
  {
    var after := buf[n / 8 := x];
    forall p | 0 <= p < n + 1 ensures BitOf(after[p / 8], p % 8) == Bits(block)[t[p] - 1] {
      if p / 8 == n / 8 && p != n {
        assert p % 8 != n % 8;
      }
    }
  }

  /** The two byte operations of one step of permutate: bit k of y goes to bit r of x. */
  lemma CopyBit(y: byte, k: int, x: byte, r: int, j: int)
    requires 0 <= k < 8 && 0 <= r < 8 && 0 <= j < 8
    ensures BitOf((x & !(0x01 << ((7 - r) as bv8))) | ((0x01 & (y >> ((7 - k) as bv8))) << ((7 - r) as bv8)), j)
         == if j == r then BitOf(y, k) else BitOf(x, j)
  {
    ReadBit(y, k);
    WriteBit(x, 0x01 & (y >> ((7 - k) as bv8)), r, j);
  }

  /** One pass of the loop of permutate, with the indices it computes: bit i gets filled. */
  lemma PermutateStep(buf: seq<byte>, block: seq<byte>, t: seq<int>, i: int, r: int, q: int, k: int, x: byte)
    requires IsTable(t, 8 * |block|) && 0 <= i < |t| && |buf| == |t| / 8
    requires Filled(buf, block, t, i)
    requires r == i - (i / 8) * 8 && q == (t[i] - 1) / 8 && k == (t[i] - 1) - q * 8
    requires 0 <= q < |block| && 0 <= k < 8 && 0 <= r < 8
    requires x == (buf[i / 8] & !(0x01 << ((7 - r) as bv8))) | ((0x01 & (block[q] >> ((7 - k) as bv8))) << ((7 - r) as bv8))
    ensures Filled(buf[i / 8 := x], block, t, i + 1)
  {
    assert r == i % 8 && k == (t[i] - 1) % 8;
    CopyBits(block[q], k, buf[i / 8], r, x);
    BitsAt(block, q, k);
    FilledStep(buf, block, t, i, x);
  }

  /** All eight bits of the byte that one step of permutate writes. */
  lemma CopyBits(y: byte, k: int, x: byte, r: int, z: byte)
    requires 0 <= k < 8 && 0 <= r < 8
    requires z == (x & !(0x01 << ((7 - r) as bv8))) | ((0x01 & (y >> ((7 - k) as bv8))) << ((7 - r) as bv8))
    ensures forall j :: 0 <= j < 8 ==> BitOf(z, j) == if j == r then BitOf(y, k) else BitOf(x, j)
  {
    forall j | 0 <= j < 8 ensures BitOf(z, j) == if j == r then BitOf(y, k) else BitOf(x, j) {
      CopyBit(y, k, x, r, j);
    }
  }

  /** A buffer whose every bit is filled is the permuted block. */
  lemma FilledIsPermuted(buf: seq<byte>, block: seq<byte>, t: seq<int>)
    requires IsTable(t, 8 * |block|) && |buf| == |t| / 8
    requires Filled(buf, block, t, |t|)
    ensures buf == Permuted(block, t)
  {
    assert Bits(buf) == PermuteBits(Bits(block), t);
    PackOfBits(buf);
  }

  /** Go's permutate: builds the result one bit at a time, reading bit t[i] - 1 of the block with a
      shift and a mask and writing it into bit i of the result with a clearing mask and an or. */
  method Permutate(block: seq<byte>, table: seq<int>) returns (result: seq<byte>)
    requires IsTable(table, 8 * |block|)
    ensures result == Permuted(block, table)
  {
    var buf := new byte[|table| / 8];
    var i := 0;
    while i < |table|
      invariant 0 <= i <= |table|
      invariant Filled(buf[..], block, table, i)
    {
      var resByteIndex := i / 8;
      var resBitIndex := i - resByteIndex * 8;
      var blockByteIndex := (table[i] - 1) / 8;
      var blockBitIndex := (table[i] - 1) - blockByteIndex * 8;
      var blockByte := block[blockByteIndex];
      var resByte := buf[resByteIndex];
      var bit: byte := (0x01 & (blockByte >> ((7 - blockBitIndex) as bv8))) << ((7 - resBitIndex) as bv8);
      var x := (resByte & !(0x01 << ((7 - resBitIndex) as bv8))) | bit;
      PermutateStep(buf[..], block, table, i, resBitIndex, blockByteIndex, blockBitIndex, x);
      buf[resByteIndex] := x;
      i := i + 1;
    }
    result := buf[..];
    FilledIsPermuted(result, block, table);
  }

  /** Table u undoes table t when t[u[i] - 1] == i + 1 for every output position i of u. */
  lemma PermuteBitsUndo(bits: seq<bool>, t: seq<int>, u: seq<int>)
    requires forall i :: 0 <= i < |t| ==> 1 <= t[i] <= |bits|
    requires |u| == |bits|
    requires forall i :: 0 <= i < |u| ==> 1 <= u[i] <= |t| && t[u[i] - 1] == i + 1
    ensures PermuteBits(PermuteBits(bits, t), u) == bits
  {
  }

  /** The final permutation undoes the initial one. */
  lemma FinalUndoesInitial(block: seq<byte>)
    requires |block| == 8
    ensures IsTable(InitialPermutation, 8 * |block|) && IsTable(FinalPermutation, 8 * |Permuted(block, InitialPermutation)|)
    ensures Permuted(Permuted(block, InitialPermutation), FinalPermutation) == block
  {
    InitialPermutationWellFormed();
    FinalPermutationWellFormed();
    FinalInvertsInitial();
    var mid := Permuted(block, InitialPermutation);
    PermutedBits(block, InitialPermutation);
    PermutedBits(mid, FinalPermutation);
    PermuteBitsUndo(Bits(block), InitialPermutation, FinalPermutation);
    BitsInjective(Permuted(mid, FinalPermutation), block);
  }

  /** The initial permutation undoes the final one. */
  lemma InitialUndoesFinal(block: seq<byte>)
    requires |block| == 8
    ensures IsTable(FinalPermutation, 8 * |block|) && IsTable(InitialPermutation, 8 * |Permuted(block, FinalPermutation)|)
    ensures Permuted(Permuted(block, FinalPermutation), InitialPermutation) == block
  {
    InitialPermutationWellFormed();
    FinalPermutationWellFormed();
    InitialInvertsFinal();
    var mid := Permuted(block, FinalPermutation);
    PermutedBits(block, FinalPermutation);
    PermutedBits(mid, InitialPermutation);
    PermuteBitsUndo(Bits(block), FinalPermutation, InitialPermutation);
    BitsInjective(Permuted(mid, InitialPermutation), block);
  }
}
