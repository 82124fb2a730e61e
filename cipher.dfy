/** Encryption and decryption of one 64-bit block: the initial permutation, the Feistel rounds, the
    swap of the halves and the final permutation. */
module Cipher {
  import opened Bytes
  import opened Tables
  import opened Permutation
  import opened Feistel
  import opened KeySchedule

  /** The two 32-bit halves of the block between rounds. */
  datatype Halves = Halves(left: seq<byte>, right: seq<byte>)

  predicate HalvesOk(h: Halves)
  {
    |h.left| == 4 && |h.right| == 4
  }

  /** Every round key has the six bytes the round function mixes in. */
  predicate KeysOk(roundKeys: seq<seq<byte>>)
  {
    forall k :: 0 <= k < |roundKeys| ==> |roundKeys[k]| >= 6
  }

  /** One round: the new left half is the old right half, the new right half is the old left half
      xor-ed with f of the old right half under the round key. */
  function Round(h: Halves, key: seq<byte>): (r: Halves)
    requires HalvesOk(h) && |key| >= 6
    ensures HalvesOk(r) && r.left == h.right
  {
    Halves(h.right, Xor(h.left, FeistelFunction(key, h.right)))
  }

  /** The rounds under roundKeys, in order. */
  function Rounds(h: Halves, roundKeys: seq<seq<byte>>): (r: Halves)
    requires HalvesOk(h) && KeysOk(roundKeys)
    ensures HalvesOk(r)
    decreases |roundKeys|
  {
    if |roundKeys| == 0 then h
    else Round(Rounds(h, roundKeys[..|roundKeys| - 1]), roundKeys[|roundKeys| - 1])
  }

  function Swap(h: Halves): (r: Halves)
  {
    Halves(h.right, h.left)
  }

  /** The halves of the initially permuted block. */
  function Split(block: seq<byte>): (r: Halves)
    requires |block| >= 8
    ensures HalvesOk(r)
  {
    InitialPermutationWellFormed();
    var p := Permuted(block, InitialPermutation);
    Halves(p[..4], p[4..])
  }

  /** The block that Go's EncryptBlock returns: the final permutation of the right half followed by
      the left half, after every round. */
  function Encrypted(block: seq<byte>, roundKeys: seq<seq<byte>>): (r: seq<byte>)
    requires |block| >= 8 && KeysOk(roundKeys)
    ensures |r| == 8
  {
    FinalPermutationWellFormed();
    var h := Rounds(Split(block), roundKeys);
    Permuted(h.right + h.left, FinalPermutation)
  }

  /** The round keys in the opposite order. */
  function Reversed(roundKeys: seq<seq<byte>>): (r: seq<seq<byte>>)
    ensures |r| == |roundKeys|
    ensures forall j :: 0 <= j < |r| ==> r[j] == roundKeys[|roundKeys| - 1 - j]
  {
    seq(|roundKeys|, j requires 0 <= j < |roundKeys| => roundKeys[|roundKeys| - 1 - j])
  }

  /** The block that Go's DecryptBlock returns: encryption under the reversed keys. */
  function Decrypted(block: seq<byte>, roundKeys: seq<seq<byte>>): (r: seq<byte>)
    requires |block| >= 8 && KeysOk(roundKeys)
    ensures |r| == 8
  {
    Encrypted(block, Reversed(roundKeys))
  }

  // ---------------------------------------------------------------------------------------------
  // The Go functions

  /** Go's EncryptBlock: the initial permutation, then one round per key, then the final
      permutation of the swapped halves. */
  method EncryptBlock(block: seq<byte>, roundKeys: seq<seq<byte>>) returns (result: seq<byte>)
    requires |block| >= 8 && KeysOk(roundKeys)
    ensures result == Encrypted(block, roundKeys)
  {
    InitialPermutationWellFormed();
    FinalPermutationWellFormed();
    var permuted := Permutate(block, InitialPermutation);
    var left := permuted[0..4];
    var right := permuted[4..];
    for k := 0 to |roundKeys|
      invariant Halves(left, right) == Rounds(Split(block), roundKeys[..k])
    {
      assert roundKeys[..k + 1][..k] == roundKeys[..k];
      var lastRight := right;
      var transformedRight := FeistelFunction(roundKeys[k], right);
      right := XorBlocks(left, transformedRight);
      left := lastRight;
    }
    assert roundKeys[..|roundKeys|] == roundKeys;
    result := Permutate(right + left, FinalPermutation);
  }

  /** Go's DecryptBlock: copies the round keys in reverse order and encrypts with them. */
  method DecryptBlock(block: seq<byte>, roundKeys: seq<seq<byte>>) returns (result: seq<byte>)
    requires |block| >= 8 && KeysOk(roundKeys)
    ensures result == Decrypted(block, roundKeys)
  {
    var invertedKeys := new seq<byte>[|roundKeys|];
    var i, j := |roundKeys| - 1, 0;
    while i >= 0
      invariant -1 <= i < |roundKeys| && j == |roundKeys| - 1 - i
      invariant forall m :: 0 <= m < j ==> invertedKeys[m] == roundKeys[|roundKeys| - 1 - m]
    {
      invertedKeys[j] := roundKeys[i];
      i, j := i - 1, j + 1;
    }
    assert invertedKeys[..] == Reversed(roundKeys);
    result := EncryptBlock(block, invertedKeys[..]);
  }

  // ---------------------------------------------------------------------------------------------
  // Decryption undoes encryption

  /** A round run on the swapped output of the same round gives the swapped input back. */
  lemma RoundUndo(h: Halves, key: seq<byte>)
    requires HalvesOk(h) && |key| >= 6
    ensures Round(Swap(Round(h, key)), key) == Swap(h)
  {
    XorInvolutive(h.left, FeistelFunction(key, h.right));
  }

  lemma KeysOkPrepend(key: seq<byte>, rest: seq<seq<byte>>)
    requires |key| >= 6 && KeysOk(rest)
    ensures KeysOk([key] + rest)
  {
  }

  /** Running the rounds of key :: rest is running rest after the round of key. */
  lemma {:induction false} RoundsPrepend(h: Halves, key: seq<byte>, rest: seq<seq<byte>>)
    requires HalvesOk(h) && |key| >= 6 && KeysOk(rest)
    ensures KeysOk([key] + rest)
    ensures Rounds(h, [key] + rest) == Rounds(Round(h, key), rest)
    decreases |rest|
  {
    KeysOkPrepend(key, rest);
    var all := [key] + rest;
    if |rest| == 0 {
      assert all[..0] == [];
    } else {
      var front := rest[..|rest| - 1];
      assert all[..|all| - 1] == [key] + front;
      RoundsPrepend(h, key, front);
    }
  }

  lemma KeysOkReversed(roundKeys: seq<seq<byte>>)
    requires KeysOk(roundKeys)
    ensures KeysOk(Reversed(roundKeys))
  {
  }

  /** Reversing moves the last key to the front. */
  lemma ReversedLast(roundKeys: seq<seq<byte>>)
    requires |roundKeys| > 0
    ensures Reversed(roundKeys) == [roundKeys[|roundKeys| - 1]] + Reversed(roundKeys[..|roundKeys| - 1])
  {
  }

  /** The rounds under the reversed keys, run on the swapped result of the rounds, give the swapped
      input back. */
  lemma {:induction false} RoundsUndo(h: Halves, roundKeys: seq<seq<byte>>)
    requires HalvesOk(h) && KeysOk(roundKeys)
    ensures KeysOk(Reversed(roundKeys))
    ensures Rounds(Swap(Rounds(h, roundKeys)), Reversed(roundKeys)) == Swap(h)
    decreases |roundKeys|
  {
    KeysOkReversed(roundKeys);
    if |roundKeys| > 0 {
      var front := roundKeys[..|roundKeys| - 1];
      var key := roundKeys[|roundKeys| - 1];
      var g := Rounds(h, front);
      ReversedLast(roundKeys);
      KeysOkReversed(front);
      RoundsPrepend(Swap(Round(g, key)), key, Reversed(front));
      RoundUndo(g, key);
      RoundsUndo(h, front);
    }
  }

  /** The initial permutation undoes the final one, so the halves of an encrypted block are the
      swapped halves the rounds ended with. */
  lemma SplitOfFinal(h: Halves)
    requires HalvesOk(h)
    ensures IsTable(FinalPermutation, 64)
    ensures Split(Permuted(h.right + h.left, FinalPermutation)) == Swap(h)
  {
    FinalPermutationWellFormed();
    InitialUndoesFinal(h.right + h.left);
  }

  /** The final permutation undoes the initial one on the joined halves of a block. */
  lemma JoinOfSplit(block: seq<byte>)
    requires |block| == 8
    ensures IsTable(FinalPermutation, 64)
    ensures Permuted(Split(block).left + Split(block).right, FinalPermutation) == block
  {
    InitialPermutationWellFormed();
    FinalPermutationWellFormed();
    var p := Permuted(block, InitialPermutation);
    assert p[..4] + p[4..] == p;
    FinalUndoesInitial(block);
  }

  /** Decrypting an encrypted block with the same round keys gives the block back. */
  lemma DecryptUndoesEncrypt(block: seq<byte>, roundKeys: seq<seq<byte>>)
    requires |block| == 8 && KeysOk(roundKeys)
    ensures Decrypted(Encrypted(block, roundKeys), roundKeys) == block
  {
    var h := Rounds(Split(block), roundKeys);
    SplitOfFinal(h);
    RoundsUndo(Split(block), roundKeys);
    JoinOfSplit(block);
  }

  /** Encrypting a decrypted block with the same round keys gives the block back. */
  lemma EncryptUndoesDecrypt(block: seq<byte>, roundKeys: seq<seq<byte>>)
    requires |block| == 8 && KeysOk(roundKeys)
    ensures Encrypted(Decrypted(block, roundKeys), roundKeys) == block
  {
    KeysOkReversed(roundKeys);
    DecryptUndoesEncrypt(block, Reversed(roundKeys));
    ReversedTwice(roundKeys);
  }

  lemma ReversedTwice(roundKeys: seq<seq<byte>>)
    ensures Reversed(Reversed(roundKeys)) == roundKeys
  {
  }

  /** With the sixteen round keys of a 64-bit key, decryption undoes encryption. */
  lemma KeyRoundTrip(key: seq<byte>, block: seq<byte>)
    requires |key| >= 8 && |block| == 8
    ensures KeysOk(RoundKeys(key))
    ensures Decrypted(Encrypted(block, RoundKeys(key)), RoundKeys(key)) == block
  {
    DecryptUndoesEncrypt(block, RoundKeys(key));
  }
}
