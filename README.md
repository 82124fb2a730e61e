# A verified model of the crypt-des DES engine

This project models the DES engine in `des/des.go` of crypt-des, a Go command-line tool. The engine
has four layers:

- **Bit permutation.** `permutate` builds a byte string bit by bit from a 1-indexed,
  most-significant-bit-first table. `getBit` reads one bit.
- **Key schedule.**
  - `key64To56` applies permuted choice 1.
  - `leftRoundShift` rotates a key half.
  - `joinKeys` re-joins the two halves, which share a nibble.
  - `getRoundSubkey` applies permuted choice 2 to one round's shifted key.
  - `GenerateRoundKeys` produces the sixteen round keys.
- **Round function.** `xorBlocks`, `getSBoxValue`, `applySBoxes` and `feistelFunction`.
- **Block transform.** `EncryptBlock` runs the initial permutation, one Feistel round per key, the
  swap of the halves and the final permutation. `DecryptBlock` runs the same transform with the key
  order reversed.

## Form of the model

The Dafny modules follow the layers:

| module | contents |
|---|---|
| `Bytes` | the bit view |
| `Tables` | the constant tables |
| `Permutation` | `permutate` |
| `Feistel` | the round function |
| `KeySchedule` | the key schedule |
| `Cipher` | the block transform |

**Bytes and bits.**
- Bytes are `bv8`. Go slices are `seq<byte>`.
- `Bits(s)` is the most-significant-bit-first bit string of `s`. Bit `p` is bit `p % 8`, counting
  from the high end, of byte `p / 8`.
- `Pack` is the inverse of `Bits`.
- Properties about bit positions are stated on these bit strings, the form the DES tables are
  written in. Byte layouts, xor and the round trips are stated on bytes.

**Imperative Go functions become methods.**
- These are `permutate`, `leftRoundShift`, `joinKeys`, `xorBlocks`, `applySBoxes`,
  `GenerateRoundKeys`, `EncryptBlock` and `DecryptBlock`.
- `permutate`, `leftRoundShift`, `joinKeys`, `xorBlocks`, `applySBoxes` and `GenerateRoundKeys`
  fill a fresh Dafny `array` with the loop of the Go code.
- `DecryptBlock` fills an array with the round keys in reverse order, as the Go code does, and then
  calls `EncryptBlock`.
- `EncryptBlock` reassigns `left` and `right` in its round loop, as the Go code does.
- Each is proved equal to a specification function.
- The properties are proved about that function.

**Pure Go functions become Dafny functions.**
- These are `getBit`, `getSBoxValue`, `key64To56`, `getRoundSubkey` and `feistelFunction`.
- `GetBit` and `GetSBoxValue` are written with the expressions of the Go code.
- Where the Go code calls one of the imperative functions, the Dafny function calls the
  specification function that the corresponding method is proved equal to: `Permuted` for
  `permutate`, `RoundShifted` for `leftRoundShift`, `Joined` for `joinKeys`, `Xor` for
  `xorBlocks` and `SBoxLayer` for `applySBoxes`. `Copied` stands for Go's `copy`. `GetRoundSubkey`
  reaches `Copied`, `RoundShifted` and `Joined` through `ShiftedKey`, which follows des/des.go:153-159.

**The key schedule follows the code, not the DES standard.** On two points the Go code differs
from FIPS PUB 46-3:

1. *Rotation is not cumulative.* `GenerateRoundKeys` passes the same permuted-choice-1 output to
   every `getRoundSubkey` call (des/des.go:214-217). Each `getRoundSubkey` call rotates that output
   once, by its own round's shift (des/des.go:157-158). As a result, rounds 0, 1, 8 and 15 get one
   key and all other rounds get a second key (`KeySchedule.RoundKeysRepeat`).
2. *The right half is rotated as a 32-bit word.* That word is bytes 3 to 6, so it includes the high
   nibble of byte 3 (key bits 24 to 27), which belongs to the left half (des/des.go:156, 158).
   - The bits that wrap around into its last positions are key bits 24 and on, taken from the left
     half (`KeySchedule.RightHalfCrossesSeam`).
   - A 28-bit rotation of the right half would bring bits 28 and on there instead.

Separately, `leftRoundShift` accepts a `beginOffset` parameter and never reads it (des/des.go:118).

## Model

| member | source | states |
|---|---|---|
| Tables.InitialPermutationWellFormed | des/des.go:3-8 | IP has 64 entries, each naming one of the 64 input bits |
| Tables.FinalPermutationWellFormed | des/des.go:10-15 | FP has 64 entries, each naming one of the 64 input bits |
| Tables.KeyPermutationWellFormed | des/des.go:17-22 | PC-1 has 56 entries in 1..64, and none names the last bit of a byte (the parity bit) |
| Tables.KeyShifts | des/des.go:24-26 | the shift is 1 in rounds 0, 1, 8 and 15 and 2 in the other twelve rounds |
| Tables.CompressionPermutationWellFormed | des/des.go:28-33 | PC-2 has 48 entries, each naming one of the 56 key bits |
| Tables.CompressionSelects | des/des.go:28-33 | PC-2 names 48 distinct key bits: every bit of 1..56 except 9, 18, 22, 25, 35, 38, 43 and 54 |
| Tables.ExpansionPermutationWellFormed | des/des.go:35-40 | E takes 48 bits from the 32 bits of a half block |
| Tables.SBoxEntriesAreNibbles | des/des.go:42-91 | there are 8 S-boxes of 64 entries each, and every entry is below 16 |
| Tables.PBoxPermutationWellFormed | des/des.go:93-96 | P has 32 entries, each naming one of the 32 bits |
| Tables.PBoxPermutes | des/des.go:93-96 | P is a permutation: its entries are distinct and every bit of 1..32 is named |
| Tables.FinalInvertsInitial | des/des.go:3-15 | FP composed with IP is the identity on the 64 positions |
| Tables.InitialInvertsFinal | des/des.go:3-15 | IP composed with FP is the identity on the 64 positions |
| Permutation.Permutate | des/des.go:98-111 | the bit-by-bit loop returns the permuted block: len(table)/8 bytes whose bit i is input bit table[i]-1 |
| Permutation.PermutedBits | des/des.go:98-111 | on bits, permutate is the table lookup: bit i of the result is input bit t[i]-1 |
| Permutation.PermutedAgree | des/des.go:98-111 | permutate reads only the positions the table names: blocks that agree there give equal results |
| Permutation.FilledStep | des/des.go:105-108 | writing the copied bit into result byte i/8 extends the filled prefix by one bit and keeps the other bits of that byte |
| Permutation.PermuteBitsUndo | des/des.go:98-111 | a table u with t[u[i]-1] == i+1 for every i undoes table t |
| Permutation.FinalUndoesInitial | des/des.go:3-15 | permutate(permutate(b, IP), FP) == b for every 8-byte block b |
| Permutation.InitialUndoesFinal | des/des.go:3-15 | permutate(permutate(b, FP), IP) == b for every 8-byte block b |
| Feistel.XorBlocks | des/des.go:164-170 | the loop returns the byte-wise xor, as long as block1 |
| Feistel.XorIsBitwise | des/des.go:164-170 | on bits, the byte-wise xor is the bit-wise xor |
| Feistel.XorInvolutive | des/des.go:164-170 | xor-ing twice with the same block gives the block back |
| Feistel.GetBit | des/des.go:172-177 | getBit returns 1 exactly when bit pos of the block is set, and 0 otherwise |
| Feistel.SBoxRow | des/des.go:185 | the row is taken from the outer two bits of a group and lies in 0..3 |
| Feistel.SBoxCol | des/des.go:186-190 | the column is taken from the four inner bits of a group and lies in 0..15 |
| Feistel.GetSBoxIndex | des/des.go:180-190 | the index getSBoxValue computes from getBit results is 16 × row + column of the six-bit group at bit beginPos |
| Feistel.GetSBoxValue | des/des.go:179-193 | the value is the entry of S-box step in the row and column of the group at bit 6·step, and it is below 16 |
| Feistel.SBoxOutputIsNibble | des/des.go:191 | every S-box output fits in four bits |
| Feistel.ApplySBoxes | des/des.go:195-203 | the loop returns 4 bytes, where byte k is output 2k shifted left by four, or-ed with output 2k+1 |
| Feistel.ApplySBoxPair | des/des.go:198-200 | after one pass, bytes 0..i/2 of the buffer are the packed S-box outputs 0..i+1 (byte i/2 is outputs i and i+1 joined), and the bytes after i/2 are unchanged |
| Feistel.ApplySBoxesStep | des/des.go:198-200 | writing the joined pair to byte n extends the packed prefix of the buffer |
| Feistel.SubstitutionBit | des/des.go:195-203 | bit 4s+m of the S-box layer is bit m of the 4-bit output of S-box s |
| Feistel.FeistelFunction | des/des.go:205-211 | f takes the first four bytes of the half block and six bytes of key, and returns 4 bytes |
| Feistel.FeistelBits | des/des.go:205-211 | on bits, f is P applied to the S-box layer of E(R) xor K |
| KeySchedule.RotatedSplit | des/des.go:124-136 | rotating by k ≤ \|x\| moves the first k bits, in order, behind the others |
| KeySchedule.RotatedPeriod | des/des.go:124-136 | rotating by the full length is the identity |
| KeySchedule.RotatedAfter | des/des.go:124-136 | rotating by a and then by b is rotating by a+b |
| KeySchedule.ShiftBytesLeft | des/des.go:125-130 | the inner loop moves every bit one place towards the front, carrying from each byte into the one before it, and returns the bit that left the front |
| KeySchedule.ShiftedLeftBits | des/des.go:126-130 | after the inner loop, the bits are the old bits without the first one, plus a zero at the end |
| KeySchedule.CarryIsTopBit | des/des.go:127 | the carry into a byte is the top bit of the byte after it |
| KeySchedule.ClearLastBits | des/des.go:121-123 | masking the last byte with 0xff << endOffset zeroes the last endOffset bits and keeps the rest |
| KeySchedule.ShiftPassBits | des/des.go:131-135 | or-ing the bit that left the front in above the cleared bits turns r followed by e zeros into r rotated once, followed by e zeros |
| KeySchedule.OuterPass | des/des.go:125-135 | one pass of the outer loop rotates the bits above the cleared ones by one place |
| KeySchedule.RotatePass | des/des.go:125-135 | one pass of the outer loop, run on the buffer, rotates the bits above the cleared ones by one place |
| KeySchedule.RotateTimes | des/des.go:124-136 | shift passes rotate those bits by shift places, and by none when shift ≤ 0 |
| KeySchedule.LeftRoundShift | des/des.go:118-138 | the result has the input's length, and its bits are the input's first 8·len−endOffset bits rotated left by shift, followed by endOffset zeros |
| KeySchedule.LeftHalfShift | des/des.go:118-138 | with endOffset 4 on 4 bytes, the low nibble of the last byte is zero and the first 28 bits are rotated by shift |
| KeySchedule.WholeShift | des/des.go:118-138 | with endOffset 0, the result is a plain circular left rotation of all the bits |
| KeySchedule.JoinKeys | des/des.go:140-150 | the loops return the first 28 bits of left followed by bits 4..31 of right |
| KeySchedule.JoinedBytes | des/des.go:140-150 | byte by byte: left[0..2], then (left[3] & 0xf0) \| (right[0] & 0x0f), then right[1..3] |
| KeySchedule.JoinSplit | des/des.go:155-156 | joinKeys(k[0:4], k[3:7]) == k for every 7-byte key k |
| KeySchedule.Key64To56 | des/des.go:113-116 | PC-1 returns 7 bytes |
| KeySchedule.ParityIgnored | des/des.go:113-116 | keys that differ only in the last bit of each byte give the same PC-1 output |
| KeySchedule.Copied | des/des.go:153-156 | make followed by copy keeps the first n source bytes and zero-fills the rest |
| KeySchedule.ShiftedKey | des/des.go:153-159 | the 7-byte key after this round's rotation of both halves and their join, before PC-2; its bits are stated by ShiftedKeyBits |
| KeySchedule.ShiftedKeyBits | des/des.go:152-159 | the shifted 56-bit key is the first 28 bits of K rotated by the round's shift, then bits 4..31 of bits 24..55 of K rotated by that shift |
| KeySchedule.GetRoundSubkey | des/des.go:152-162 | getRoundSubkey returns 6 bytes |
| KeySchedule.RoundSubkeyBits | des/des.go:152-162 | on bits, a round key is PC-2 of the shifted key bits, and it depends only on the key and on this round's shift |
| KeySchedule.RightHalfCrossesSeam | des/des.go:156-159 | the last shift bits of the shifted key are key bits 24.., which come from the left half |
| KeySchedule.RoundKeys | des/des.go:213-220 | there are 16 round keys of 6 bytes each |
| KeySchedule.GenerateRoundKeys | des/des.go:213-220 | the loop returns round key k as getRoundSubkey of the PC-1 output for round k |
| KeySchedule.RoundKeysRepeat | des/des.go:24-26 | the rotation is not cumulative: rounds 0, 1, 8 and 15 share one key, and the other rounds share another |
| Cipher.Round | des/des.go:227-230 | one round's new left half is the old right half, and both halves stay 4 bytes |
| Cipher.Split | des/des.go:223-225 | the initially permuted block splits into two 4-byte halves |
| Cipher.Encrypted | des/des.go:222-234 | EncryptBlock's result is 8 bytes |
| Cipher.Reversed | des/des.go:237-240 | entry j of the reversed key list is entry len−1−j |
| Cipher.EncryptBlock | des/des.go:222-234 | the round loop returns FP of the swapped halves after every round |
| Cipher.DecryptBlock | des/des.go:236-242 | the loop builds the keys reversed, and the result is EncryptBlock under them |
| Cipher.RoundUndo | des/des.go:227-230 | a round run on the swapped output of the same round gives the swapped input back |
| Cipher.RoundsPrepend | des/des.go:226-231 | the rounds of key followed by rest are the round of key, then the rounds of rest |
| Cipher.RoundsUndo | des/des.go:226-231 | the rounds under the reversed keys, run on the swapped result, give the swapped input back |
| Cipher.SplitOfFinal | des/des.go:223-232 | the halves of an encrypted block are the swapped halves the rounds ended with |
| Cipher.JoinOfSplit | des/des.go:223-232 | FP of the two halves of an initially permuted block gives the block back |
| Cipher.DecryptUndoesEncrypt | des/des.go:222-242 | DecryptBlock(EncryptBlock(b, ks), ks) == b for every 8-byte b and every list ks of keys of at least 6 bytes |
| Cipher.EncryptUndoesDecrypt | des/des.go:222-242 | EncryptBlock(DecryptBlock(b, ks), ks) == b under the same conditions |
| Cipher.KeyRoundTrip | des/des.go:213-242 | with the round keys of any 8-byte key, decryption undoes encryption |

## Left out

- **main.go.** It handles flags, files, standard input and output, hex encoding, random key
  generation and the interactive prompt. That is I/O and library calls, not cipher logic.
- **Padding.** The trailer-byte padding in main.go is interleaved with reader and writer state.
- **Triple-DES.** main.go refers to a Triple-DES API and to `CipherBlock`, but `des/des.go` does not
  define them, so there is nothing to model.
- **Known-answer vectors.** The key schedule differs from the standard (see above), so standard
  ciphertexts do not apply.
- **Timing, side channels and performance.** None of these is a property of the code's results.
- **Preconditions for Go range panics.** The `requires` clauses on `Permutate`, `XorBlocks`,
  `GetBit`, `GetSBoxValue`, `ApplySBoxes`, `FeistelFunction`, `JoinKeys`, `Key64To56`,
  `GetRoundSubkey`, `EncryptBlock` and `DecryptBlock` stand for the indexing that would panic in
  Go on short input. The model does not describe the panic. Calls that pass them have the Go
  behaviour.
- **KeySchedule.LeftRoundShift:**
  - It requires endOffset < 8. For endOffset ≥ 8, Go's byte shift would zero the last byte and
    drop the carried bit; this is not modelled.
  - It requires a non-empty block unless both shift and endOffset are ≤ 0, because Go indexes the
    last byte.
  - beginOffset is accepted and ignored, as in Go.
- **Go's runtime details.** `i >> 1` and `i >> 3` on non-negative indices are written as `/ 2` and
  `/ 8`. Go's `uint(...)` shift conversions are written as `as bv8` on amounts below 8.
- **S-box entries.** Go stores them as `int` and converts the chosen one with `byte(...)`. The
  model stores them as bytes; this is exact because every entry is below 16
  (`Tables.SBoxEntriesAreNibbles`).
- **Aliasing.**
  - Slices are modelled as values. EncryptBlock's `left` and `right` share the permuted block's
    storage in Go, but they are only read, so sharing does not change the result.
  - `append(right, left...)` is modelled as sequence concatenation.
  - Inputs are never changed: every method writes a fresh array.
- **Loops and loop bodies as members.** Some parts of Go functions are separate methods of the
  model. This keeps each proof small. The statements inside them are Go's, in Go's order.
  - `KeySchedule.ClearLastBits` is the masking `if` of leftRoundShift (des/des.go:121-123).
  - `KeySchedule.RotateTimes` is leftRoundShift's outer loop, `shift` passes (des/des.go:124-136).
  - `KeySchedule.RotatePass` is one pass of that outer loop: the inner loop, then the or-ing of the
    carried bit into the last byte (des/des.go:125-135).
  - `KeySchedule.ShiftBytesLeft` is the whole inner carry loop (des/des.go:126-130).
  - `Feistel.ApplySBoxPair` is one pass of applySBoxes' loop (des/des.go:198-200).
- **Cipher.DecryptUndoesEncrypt:** the round trip is stated for round keys of at least 6 bytes,
  the length `feistelFunction` reads. Go's `xorBlocks` would panic on shorter keys.
