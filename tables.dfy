/** The constant tables of the cipher: the permutations, the key rotation amounts and the eight
    S-boxes, as they appear in FIPS PUB 46-3 (the permutations in its main text, the S-boxes and P in
    its Appendix 1). Every permutation table lists 1-based positions into its source bit string. */
module Tables {
  import opened Bytes

  /** Initial permutation IP: output bit i is input bit InitialPermutation[i] (1-based). */
  const InitialPermutation: seq<int> :=
    [58, 50, 42, 34, 26, 18, 10, 2, 60, 52, 44, 36, 28, 20, 12, 4]
    + [62, 54, 46, 38, 30, 22, 14, 6, 64, 56, 48, 40, 32, 24, 16, 8]
    + [57, 49, 41, 33, 25, 17, 9, 1, 59, 51, 43, 35, 27, 19, 11, 3]
    + [61, 53, 45, 37, 29, 21, 13, 5, 63, 55, 47, 39, 31, 23, 15, 7]

  /** Final permutation, the inverse of IP (see Tables.FinalInvertsInitial). */
  const FinalPermutation: seq<int> :=
    [40, 8, 48, 16, 56, 24, 64, 32, 39, 7, 47, 15, 55, 23, 63, 31]
    + [38, 6, 46, 14, 54, 22, 62, 30, 37, 5, 45, 13, 53, 21, 61, 29]
    + [36, 4, 44, 12, 52, 20, 60, 28, 35, 3, 43, 11, 51, 19, 59, 27]
    + [34, 2, 42, 10, 50, 18, 58, 26, 33, 1, 41, 9, 49, 17, 57, 25]

  /** Key permutation PC-1: 64 key bits to 56, leaving out the parity bits 8, 16, ..., 64. */
  const KeyPermutation: seq<int> :=
    [57, 49, 41, 33, 25, 17, 9, 1, 58, 50, 42, 34, 26, 18]
    + [10, 2, 59, 51, 43, 35, 27, 19, 11, 3, 60, 52, 44, 36]
    + [63, 55, 47, 39, 31, 23, 15, 7, 62, 54, 46, 38, 30, 22]
    + [14, 6, 61, 53, 45, 37, 29, 21, 13, 5, 28, 20, 12, 4]

  /** Left rotation applied to the key halves for each round. */
  const KeyShiftsPerRound: seq<int> :=
    [1, 1, 2, 2, 2, 2, 2, 2, 1, 2, 2, 2, 2, 2, 2, 1]

  /** Compression permutation PC-2: 56 rotated key bits to a 48-bit round key. */
  const CompressionPermutation: seq<int> :=
    [14, 17, 11, 24, 1, 5, 3, 28, 15, 6, 21, 10]
    + [23, 19, 12, 4, 26, 8, 16, 7, 27, 20, 13, 2]
    + [41, 52, 31, 37, 47, 55, 30, 40, 51, 45, 33, 48]
    + [44, 49, 39, 56, 34, 53, 46, 42, 50, 36, 29, 32]

  /** Expansion permutation E: a 32-bit half block to 48 bits. */
  const ExpansionPermutation: seq<int> :=
    [32, 1, 2, 3, 4, 5, 4, 5, 6, 7, 8, 9]
    + [8, 9, 10, 11, 12, 13, 12, 13, 14, 15, 16, 17]
    + [16, 17, 18, 19, 20, 21, 20, 21, 22, 23, 24, 25]
    + [24, 25, 26, 27, 28, 29, 28, 29, 30, 31, 32, 1]

  /** Permutation P applied to the 32-bit output of the S-boxes. */
  const PBoxPermutation: seq<int> :=
    [16, 7, 20, 21, 29, 12, 28, 17, 1, 15, 23, 26, 5, 18, 31, 10]
    + [2, 8, 24, 14, 32, 27, 3, 9, 19, 13, 30, 6, 22, 11, 4, 25]

  /** S-box k maps a row (0..3) and a column (0..15) to SBoxes[k][16 * row + column], a value below
      16. The entries are held as bytes: the lookup converts each to a byte, which is exact for
      values below 16 (see SBoxEntriesAreNibbles). */
  const SBox1: seq<byte> :=
    [14, 4, 13, 1, 2, 15, 11, 8, 3, 10, 6, 12, 5, 9, 0, 7]
    + [0, 15, 7, 4, 14, 2, 13, 1, 10, 6, 12, 11, 9, 5, 3, 8]
    + [4, 1, 14, 8, 13, 6, 2, 11, 15, 12, 9, 7, 3, 10, 5, 0]
    + [15, 12, 8, 2, 4, 9, 1, 7, 5, 11, 3, 14, 10, 0, 6, 13]
  const SBox2: seq<byte> :=
    [15, 1, 8, 14, 6, 11, 3, 4, 9, 7, 2, 13, 12, 0, 5, 10]
    + [3, 13, 4, 7, 15, 2, 8, 14, 12, 0, 1, 10, 6, 9, 11, 5]
    + [0, 14, 7, 11, 10, 4, 13, 1, 5, 8, 12, 6, 9, 3, 2, 15]
    + [13, 8, 10, 1, 3, 15, 4, 2, 11, 6, 7, 12, 0, 5, 14, 9]
  const SBox3: seq<byte> :=
    [10, 0, 9, 14, 6, 3, 15, 5, 1, 13, 12, 7, 11, 4, 2, 8]
    + [13, 7, 0, 9, 3, 4, 6, 10, 2, 8, 5, 14, 12, 11, 15, 1]
    + [13, 6, 4, 9, 8, 15, 3, 0, 11, 1, 2, 12, 5, 10, 14, 7]
    + [1, 10, 13, 0, 6, 9, 8, 7, 4, 15, 14, 3, 11, 5, 2, 12]
  const SBox4: seq<byte> :=
    [7, 13, 14, 3, 0, 6, 9, 10, 1, 2, 8, 5, 11, 12, 4, 15]
    + [13, 8, 11, 5, 6, 15, 0, 3, 4, 7, 2, 12, 1, 10, 14, 9]
    + [10, 6, 9, 0, 12, 11, 7, 13, 15, 1, 3, 14, 5, 2, 8, 4]
    + [3, 15, 0, 6, 10, 1, 13, 8, 9, 4, 5, 11, 12, 7, 2, 14]
  const SBox5: seq<byte> :=
    [2, 12, 4, 1, 7, 10, 11, 6, 8, 5, 3, 15, 13, 0, 14, 9]
    + [14, 11, 2, 12, 4, 7, 13, 1, 5, 0, 15, 10, 3, 9, 8, 6]
    + [4, 2, 1, 11, 10, 13, 7, 8, 15, 9, 12, 5, 6, 3, 0, 14]
    + [11, 8, 12, 7, 1, 14, 2, 13, 6, 15, 0, 9, 10, 4, 5, 3]
  const SBox6: seq<byte> :=
    [12, 1, 10, 15, 9, 2, 6, 8, 0, 13, 3, 4, 14, 7, 5, 11]
    + [10, 15, 4, 2, 7, 12, 9, 5, 6, 1, 13, 14, 0, 11, 3, 8]
    + [9, 14, 15, 5, 2, 8, 12, 3, 7, 0, 4, 10, 1, 13, 11, 6]
    + [4, 3, 2, 12, 9, 5, 15, 10, 11, 14, 1, 7, 6, 0, 8, 13]
  const SBox7: seq<byte> :=
    [4, 11, 2, 14, 15, 0, 8, 13, 3, 12, 9, 7, 5, 10, 6, 1]
    + [13, 0, 11, 7, 4, 9, 1, 10, 14, 3, 5, 12, 2, 15, 8, 6]
    + [1, 4, 11, 13, 12, 3, 7, 14, 10, 15, 6, 8, 0, 5, 9, 2]
    + [6, 11, 13, 8, 1, 4, 10, 7, 9, 5, 0, 15, 14, 2, 3, 12]
  const SBox8: seq<byte> :=
    [13, 2, 8, 4, 6, 15, 11, 1, 10, 9, 3, 14, 5, 0, 12, 7]
    + [1, 15, 13, 8, 10, 3, 7, 4, 12, 5, 6, 11, 0, 14, 9, 2]
    + [7, 11, 4, 1, 9, 12, 14, 2, 0, 6, 10, 13, 15, 3, 5, 8]
    + [2, 1, 14, 7, 4, 10, 8, 13, 15, 12, 9, 0, 3, 5, 6, 11]

  const SBoxes: seq<seq<byte>> := [SBox1, SBox2, SBox3, SBox4, SBox5, SBox6, SBox7, SBox8]

  /** A permutation table that fills whole output bytes and reads only bits 1..width of its source. */
  predicate IsTable(t: seq<int>, width: int)
  {
    |t| % 8 == 0 && forall i :: 0 <= i < |t| ==> 1 <= t[i] <= width
  }

  /** Names each index below 64, so that the solver can read a literal table at it. */
  lemma IndexCases(i: int)
    requires 0 <= i < 64
    ensures i == 0 || i == 1 || i == 2 || i == 3 || i == 4 || i == 5 || i == 6 || i == 7
         || i == 8 || i == 9 || i == 10 || i == 11 || i == 12 || i == 13 || i == 14 || i == 15
         || i == 16 || i == 17 || i == 18 || i == 19 || i == 20 || i == 21 || i == 22 || i == 23
         || i == 24 || i == 25 || i == 26 || i == 27 || i == 28 || i == 29 || i == 30 || i == 31
         || i == 32 || i == 33 || i == 34 || i == 35 || i == 36 || i == 37 || i == 38 || i == 39
         || i == 40 || i == 41 || i == 42 || i == 43 || i == 44 || i == 45 || i == 46 || i == 47
         || i == 48 || i == 49 || i == 50 || i == 51 || i == 52 || i == 53 || i == 54 || i == 55
         || i == 56 || i == 57 || i == 58 || i == 59 || i == 60 || i == 61 || i == 62 || i == 63
  {
  }

  lemma InitialPermutationWellFormed()
    ensures |InitialPermutation| == 64 && IsTable(InitialPermutation, 64)
  {
    forall i | 0 <= i < 64 ensures 1 <= InitialPermutation[i] <= 64 {
      IndexCases(i);
    }
  }

  lemma FinalPermutationWellFormed()
    ensures |FinalPermutation| == 64 && IsTable(FinalPermutation, 64)
  {
    forall i | 0 <= i < 64 ensures 1 <= FinalPermutation[i] <= 64 {
      IndexCases(i);
    }
  }

  /** PC-1 reads 56 of the 64 key bits and never the last bit of a key byte, the parity bit. */
  lemma KeyPermutationWellFormed()
    ensures |KeyPermutation| == 56 && IsTable(KeyPermutation, 64)
    ensures forall i :: 0 <= i < 56 ==> (KeyPermutation[i] - 1) % 8 != 7
  {
    forall i | 0 <= i < 56 ensures 1 <= KeyPermutation[i] <= 64 && (KeyPermutation[i] - 1) % 8 != 7 {
      IndexCases(i);
    }
  }

  lemma CompressionPermutationWellFormed()
    ensures |CompressionPermutation| == 48 && IsTable(CompressionPermutation, 56)
  {
    forall i | 0 <= i < 48 ensures 1 <= CompressionPermutation[i] <= 56 {
      IndexCases(i);
    }
  }

  lemma ExpansionPermutationWellFormed()
    ensures |ExpansionPermutation| == 48 && IsTable(ExpansionPermutation, 32)
  {
    forall i | 0 <= i < 48 ensures 1 <= ExpansionPermutation[i] <= 32 {
      IndexCases(i);
    }
  }

  lemma PBoxPermutationWellFormed()
    ensures |PBoxPermutation| == 32 && IsTable(PBoxPermutation, 32)
  {
    forall i | 0 <= i < 32 ensures 1 <= PBoxPermutation[i] <= 32 {
      IndexCases(i);
    }
  }

  /** Where each of the 32 bits lands under P: bit b + 1 is entry PBoxPositions[b] of the table.
      A proof device for PBoxPermutes; the cipher never reads it. */
  const PBoxPositions: seq<int> :=
    [8, 16, 22, 30, 12, 27, 1, 17, 23, 15, 29, 5, 25, 19, 9, 0]
    + [7, 13, 24, 2, 3, 28, 10, 18, 31, 11, 21, 6, 4, 26, 14, 20]

  /** Where each of the 56 key bits lands under PC-2, or -1 for the eight bits it drops. A proof
      device for CompressionSelects; the key schedule never reads it. */
  const CompressionPositions: seq<int> :=
    [4, 23, 6, 15, 5, 9, 19, 17, -1, 11, 2, 14, 22, 0]
    + [8, 18, 1, -1, 13, 21, 10, -1, 12, 3, -1, 16, 20, 7]
    + [46, 30, 26, 47, 34, 40, -1, 45, 27, -1, 38, 31, 24, 43]
    + [-1, 36, 33, 42, 28, 35, 37, 44, 32, 25, 41, -1, 29, 39]

  /** The key bits PC-2 leaves out. */
  const CompressionDropped: set<int> := {9, 18, 22, 25, 35, 38, 43, 54}

  /** Table t takes bit b: some entry of t names it. */
  predicate Takes(t: seq<int>, b: int)
  {
    exists i :: 0 <= i < |t| && t[i] == b
  }

  /** P is a permutation of the 32 bits: no bit is taken twice and every bit is taken. */
  lemma PBoxPermutes()
    ensures forall i, j :: 0 <= i < j < 32 ==> PBoxPermutation[i] != PBoxPermutation[j]
    ensures forall b :: 1 <= b <= 32 ==> Takes(PBoxPermutation, b)
  {
    PBoxPositionsInvert();
    PBoxPositionsHit();
    forall b | 1 <= b <= 32 ensures Takes(PBoxPermutation, b) {
      TakesAt(PBoxPermutation, b, PBoxPositions[b - 1]);
    }
  }

  lemma PBoxPositionsInvert()
    ensures forall i :: 0 <= i < 32 ==> 1 <= PBoxPermutation[i] <= 32 && PBoxPositions[PBoxPermutation[i] - 1] == i
  {
    forall i | 0 <= i < 32 ensures 1 <= PBoxPermutation[i] <= 32 && PBoxPositions[PBoxPermutation[i] - 1] == i {
      IndexCases(i);
    }
  }

  lemma PBoxPositionsHit()
    ensures forall b :: 0 <= b < 32 ==> 0 <= PBoxPositions[b] < 32 && PBoxPermutation[PBoxPositions[b]] == b + 1
  {
    forall b | 0 <= b < 32 ensures 0 <= PBoxPositions[b] < 32 && PBoxPermutation[PBoxPositions[b]] == b + 1 {
      IndexCases(b);
    }
  }

  /** PC-2 takes 48 distinct bits of the 56: every key bit except the eight in CompressionDropped. */
  lemma CompressionSelects()
    ensures forall i, j :: 0 <= i < j < 48 ==> CompressionPermutation[i] != CompressionPermutation[j]
    ensures forall i :: 0 <= i < 48 ==> CompressionPermutation[i] !in CompressionDropped
    ensures forall b :: 1 <= b <= 56 && b !in CompressionDropped ==> Takes(CompressionPermutation, b)
  {
    CompressionDistinct();
    CompressionCovers();
  }

  lemma CompressionDistinct()
    ensures forall i, j :: 0 <= i < j < 48 ==> CompressionPermutation[i] != CompressionPermutation[j]
    ensures forall i :: 0 <= i < 48 ==> CompressionPermutation[i] !in CompressionDropped
  {
    CompressionPositionsInvertLow();
    CompressionPositionsInvertHigh();
  }

  lemma CompressionCovers()
    ensures forall b :: 1 <= b <= 56 && b !in CompressionDropped ==> Takes(CompressionPermutation, b)
  {
    CompressionPositionsHitLow();
    CompressionPositionsHitHigh();
    forall b | 1 <= b <= 56 && b !in CompressionDropped ensures Takes(CompressionPermutation, b) {
      TakesAt(CompressionPermutation, b, CompressionPositions[b - 1]);
    }
  }

  lemma TakesAt(t: seq<int>, b: int, i: int)
    requires 0 <= i < |t| && t[i] == b
    ensures Takes(t, b)
  {
  }

  lemma CompressionPositionsInvertLow()
    ensures forall i :: 0 <= i < 24 ==>
      1 <= CompressionPermutation[i] <= 56 && CompressionPositions[CompressionPermutation[i] - 1] == i
      && CompressionPermutation[i] !in CompressionDropped
  {
    forall i | 0 <= i < 24
      ensures 1 <= CompressionPermutation[i] <= 56
        && CompressionPositions[CompressionPermutation[i] - 1] == i && CompressionPermutation[i] !in CompressionDropped
    {
      IndexCases(i);
    }
  }

  lemma CompressionPositionsInvertHigh()
    ensures forall i :: 24 <= i < 48 ==>
      1 <= CompressionPermutation[i] <= 56 && CompressionPositions[CompressionPermutation[i] - 1] == i
      && CompressionPermutation[i] !in CompressionDropped
  {
    forall i | 24 <= i < 48
      ensures 1 <= CompressionPermutation[i] <= 56
        && CompressionPositions[CompressionPermutation[i] - 1] == i && CompressionPermutation[i] !in CompressionDropped
    {
      IndexCases(i);
    }
  }

  lemma CompressionPositionsHitLow()
    ensures forall b :: 0 <= b < 28 && b + 1 !in CompressionDropped ==>
      0 <= CompressionPositions[b] < 48 && CompressionPermutation[CompressionPositions[b]] == b + 1
  {
    forall b | 0 <= b < 28 && b + 1 !in CompressionDropped
      ensures 0 <= CompressionPositions[b] < 48 && CompressionPermutation[CompressionPositions[b]] == b + 1
    {
      IndexCases(b);
    }
  }

  lemma CompressionPositionsHitHigh()
    ensures forall b :: 28 <= b < 56 && b + 1 !in CompressionDropped ==>
      0 <= CompressionPositions[b] < 48 && CompressionPermutation[CompressionPositions[b]] == b + 1
  {
    forall b | 28 <= b < 56 && b + 1 !in CompressionDropped
      ensures 0 <= CompressionPositions[b] < 48 && CompressionPermutation[CompressionPositions[b]] == b + 1
    {
      IndexCases(b);
    }
  }

  /** The initial permutation followed by the final one puts every bit back: bit i of the result
      is bit InitialPermutation[FinalPermutation[i] - 1] - 1 of the input, which is bit i. */
  lemma FinalInvertsInitial()
    ensures forall i :: 0 <= i < 64 ==> 1 <= FinalPermutation[i] <= 64 && InitialPermutation[FinalPermutation[i] - 1] == i + 1
  {
    FinalPermutationWellFormed();
    FinalInvertsInitialLow();
    FinalInvertsInitialHigh();
  }

  /** The final permutation followed by the initial one puts every bit back. */
  lemma InitialInvertsFinal()
    ensures forall i :: 0 <= i < 64 ==> 1 <= InitialPermutation[i] <= 64 && FinalPermutation[InitialPermutation[i] - 1] == i + 1
  {
    InitialPermutationWellFormed();
    InitialInvertsFinalLow();
    InitialInvertsFinalHigh();
  }

  lemma FinalInvertsInitialLow()
    ensures forall i :: 0 <= i < 32 ==> InitialPermutation[FinalPermutation[i] - 1] == i + 1
  {
    forall i | 0 <= i < 32 ensures InitialPermutation[FinalPermutation[i] - 1] == i + 1 {
      IndexCases(i);
    }
  }

  lemma FinalInvertsInitialHigh()
    ensures forall i :: 32 <= i < 64 ==> InitialPermutation[FinalPermutation[i] - 1] == i + 1
  {
    forall i | 32 <= i < 64 ensures InitialPermutation[FinalPermutation[i] - 1] == i + 1 {
      IndexCases(i);
    }
  }

  lemma InitialInvertsFinalLow()
    ensures forall i :: 0 <= i < 32 ==> FinalPermutation[InitialPermutation[i] - 1] == i + 1
  {
    forall i | 0 <= i < 32 ensures FinalPermutation[InitialPermutation[i] - 1] == i + 1 {
      IndexCases(i);
    }
  }

  lemma InitialInvertsFinalHigh()
    ensures forall i :: 32 <= i < 64 ==> FinalPermutation[InitialPermutation[i] - 1] == i + 1
  {
    forall i | 32 <= i < 64 ensures FinalPermutation[InitialPermutation[i] - 1] == i + 1 {
      IndexCases(i);
    }
  }

  /** Rounds 0, 1, 8 and 15 rotate the key by one bit, all others by two. */
  lemma KeyShifts()
    ensures |KeyShiftsPerRound| == 16
    ensures forall r :: 0 <= r < 16 ==> KeyShiftsPerRound[r] == if r == 0 || r == 1 || r == 8 || r == 15 then 1 else 2
  {
    forall r | 0 <= r < 16 ensures KeyShiftsPerRound[r] == if r == 0 || r == 1 || r == 8 || r == 15 then 1 else 2 {
      IndexCases(r);
    }
  }

  /** Names each column index below 16, so that the solver can read an S-box row at it. */
  lemma ColumnCases(c: int)
    requires 0 <= c < 16
    ensures c == 0 || c == 1 || c == 2 || c == 3 || c == 4 || c == 5 || c == 6 || c == 7
         || c == 8 || c == 9 || c == 10 || c == 11 || c == 12 || c == 13 || c == 14 || c == 15
  {
  }

  lemma SBox1Nibbles()
    ensures |SBox1| == 64 && forall j :: 0 <= j < 64 ==> SBox1[j] < 16
  {
    forall j | 0 <= j < 16 ensures SBox1[j] < 16 { ColumnCases(j); }
    forall j | 16 <= j < 32 ensures SBox1[j] < 16 { ColumnCases(j - 16); }
    forall j | 32 <= j < 48 ensures SBox1[j] < 16 { ColumnCases(j - 32); }
    forall j | 48 <= j < 64 ensures SBox1[j] < 16 { ColumnCases(j - 48); }
  }

  lemma SBox2Nibbles()
    ensures |SBox2| == 64 && forall j :: 0 <= j < 64 ==> SBox2[j] < 16
  {
    forall j | 0 <= j < 16 ensures SBox2[j] < 16 { ColumnCases(j); }
    forall j | 16 <= j < 32 ensures SBox2[j] < 16 { ColumnCases(j - 16); }
    forall j | 32 <= j < 48 ensures SBox2[j] < 16 { ColumnCases(j - 32); }
    forall j | 48 <= j < 64 ensures SBox2[j] < 16 { ColumnCases(j - 48); }
  }

  lemma SBox3Nibbles()
    ensures |SBox3| == 64 && forall j :: 0 <= j < 64 ==> SBox3[j] < 16
  {
    forall j | 0 <= j < 16 ensures SBox3[j] < 16 { ColumnCases(j); }
    forall j | 16 <= j < 32 ensures SBox3[j] < 16 { ColumnCases(j - 16); }
    forall j | 32 <= j < 48 ensures SBox3[j] < 16 { ColumnCases(j - 32); }
    forall j | 48 <= j < 64 ensures SBox3[j] < 16 { ColumnCases(j - 48); }
  }

  lemma SBox4Nibbles()
    ensures |SBox4| == 64 && forall j :: 0 <= j < 64 ==> SBox4[j] < 16
  {
    forall j | 0 <= j < 16 ensures SBox4[j] < 16 { ColumnCases(j); }
    forall j | 16 <= j < 32 ensures SBox4[j] < 16 { ColumnCases(j - 16); }
    forall j | 32 <= j < 48 ensures SBox4[j] < 16 { ColumnCases(j - 32); }
    forall j | 48 <= j < 64 ensures SBox4[j] < 16 { ColumnCases(j - 48); }
  }

  lemma SBox5Nibbles()
    ensures |SBox5| == 64 && forall j :: 0 <= j < 64 ==> SBox5[j] < 16
  {
    forall j | 0 <= j < 16 ensures SBox5[j] < 16 { ColumnCases(j); }
    forall j | 16 <= j < 32 ensures SBox5[j] < 16 { ColumnCases(j - 16); }
    forall j | 32 <= j < 48 ensures SBox5[j] < 16 { ColumnCases(j - 32); }
    forall j | 48 <= j < 64 ensures SBox5[j] < 16 { ColumnCases(j - 48); }
  }

  lemma SBox6Nibbles()
    ensures |SBox6| == 64 && forall j :: 0 <= j < 64 ==> SBox6[j] < 16
  {
    forall j | 0 <= j < 16 ensures SBox6[j] < 16 { ColumnCases(j); }
    forall j | 16 <= j < 32 ensures SBox6[j] < 16 { ColumnCases(j - 16); }
    forall j | 32 <= j < 48 ensures SBox6[j] < 16 { ColumnCases(j - 32); }
    forall j | 48 <= j < 64 ensures SBox6[j] < 16 { ColumnCases(j - 48); }
  }

  lemma SBox7Nibbles()
    ensures |SBox7| == 64 && forall j :: 0 <= j < 64 ==> SBox7[j] < 16
  {
    forall j | 0 <= j < 16 ensures SBox7[j] < 16 { ColumnCases(j); }
    forall j | 16 <= j < 32 ensures SBox7[j] < 16 { ColumnCases(j - 16); }
    forall j | 32 <= j < 48 ensures SBox7[j] < 16 { ColumnCases(j - 32); }
    forall j | 48 <= j < 64 ensures SBox7[j] < 16 { ColumnCases(j - 48); }
  }

  lemma SBox8Nibbles()
    ensures |SBox8| == 64 && forall j :: 0 <= j < 64 ==> SBox8[j] < 16
  {
    forall j | 0 <= j < 16 ensures SBox8[j] < 16 { ColumnCases(j); }
    forall j | 16 <= j < 32 ensures SBox8[j] < 16 { ColumnCases(j - 16); }
    forall j | 32 <= j < 48 ensures SBox8[j] < 16 { ColumnCases(j - 32); }
    forall j | 48 <= j < 64 ensures SBox8[j] < 16 { ColumnCases(j - 48); }
  }

  /** Every entry of every S-box is a 4-bit value. */
  lemma SBoxEntriesAreNibbles()
    ensures |SBoxes| == 8
    ensures forall k, j :: 0 <= k < 8 && 0 <= j < 64 ==> |SBoxes[k]| == 64 && SBoxes[k][j] < 16
  {
    SBox1Nibbles(); SBox2Nibbles(); SBox3Nibbles(); SBox4Nibbles();
    SBox5Nibbles(); SBox6Nibbles(); SBox7Nibbles(); SBox8Nibbles();
  }
}
