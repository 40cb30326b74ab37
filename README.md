# Proof of work, modelled in Dafny

This project models the proof-of-work puzzle of a small Go block chain
(`proofofwork.go`). A block's header fields and a candidate nonce are
serialised into bytes and hashed with SHA-256. The digest, read as a
big-endian unsigned integer, must be strictly below a target. The target is
`1 << (256 - targetBits)`, which is 2^240 for the fixed difficulty
`targetBits = 16`. Mining (`Run`) tries nonces 0, 1, 2, ... up to
`maxNonce` and keeps the first one that meets the target. Validation
(`Validate`) re-hashes the nonce stored in the block and applies the same
comparison.

Two modules:

- `Encoding` (`encoding.dfy`): bytes, powers of two, big-endian decoding of
  a byte string to a natural number (what `big.Int.SetBytes` computes), the
  fixed-width big-endian encoding, and `IntToHex` with its inverse.
- `PoW` (`proofofwork.dfy`): the `Block` and `ProofOfWork` values,
  `NewProofOfWork`, `PrepareData`, the search `Run` (a method with a loop),
  its reference definition `FirstSolution`, `Validate`, and the lemmas tying
  miner and validator together.

SHA-256 is a parameter `sha` of every operation that hashes. Its type is
any total function from byte strings to 32-byte digests, so every property
proved here holds for every such hash function. `big.Int`'s `Cmp(...) == -1`
is modelled as `<` on naturals.

Modelling decisions:

- `Block.HashTransactions()` is not part of this model. The block value
  carries the digest it returns, as the field `txDigest`. This assumes that
  the transactions digest does not depend on the block's `Nonce` and is the
  same on every call. `prepareData` calls it once per nonce tried (line 40).
  Changing the stored nonce (`b.(nonce := n)`) therefore keeps `txDigest`,
  and `MinerValidatorAgree` and `MinedNonceValidates` rest on this.
- `IntToHex` is defined in a file that is not part of this model. It is
  modelled as the 8-byte big-endian two's-complement encoding of an
  `int64`, which is what writing an `int64` with `binary.BigEndian` yields.
  That encoding is an assumption of the model. It is defined as the only
  8-byte string whose big-endian value is the integer modulo 2^64.
  `ToBigEndian` constructs one, which shows that it exists, and
  `BigEndianInjective` shows that it is unique. The definition picks that
  string by its property (`:|`), which Dafny's compilers cannot execute. The
  model is therefore for verification only: `Run`, `Validate` and
  `PrepareData` are not compiled.
- Go's `int` is taken to be 64 bits wide. Nonces, timestamps and
  `maxNonce` are `Int64` values.
- `maxNonce` (a package variable equal to `math.MaxInt64`, lines 11-13) is a
  parameter of `Run`. The constant `MaxNonce` gives its value, and
  `RunWithDefaultBound` is `Run` called with it. `targetBits` is the
  constant `TargetBits`.
- The comment above `NewProofOfWork` (line 24) writes the target as a 1
  followed by 58 hexadecimal zeros, which is 2^232. The code shifts by
  256 - 16 = 240, so the target is 2^240, a 1 followed by 60 hexadecimal
  zeros. The model follows the code (`StandardTarget`).
- `Run` is modelled as the code is written, including its edge cases. The
  search never fails with an error: on exhaustion it returns
  `nonce == maxNonce`. The digest it then returns is the digest of the last
  nonce tried (`maxNonce - 1`). Only when no nonce is tried
  (`maxNonce <= 0`) is the digest the all-zero initial value. A negative
  `maxNonce` gives nonce 0.
- The code has a fixed difficulty, so there is no invalid-difficulty error.

## Model

| member | source | states |
|---|---|---|
| `Encoding.BigEndian` | proofofwork.go:67 | the value `SetBytes` gives a byte string, read most significant byte first; it is below 2^(8·length) |
| `Encoding.BigEndianAppend` | proofofwork.go:67 | reading `a + b` gives the value of `a` shifted left by the width of `b`, plus the value of `b` |
| `Encoding.LeadingZeroBytes` | proofofwork.go:23-28 | a byte string is below 2^(8·(length − k)) if and only if its first k bytes are all zero |
| `Encoding.IntToHex` | proofofwork.go:41-43 | the encoding of an int64 is exactly 8 bytes and its big-endian value is the integer modulo 2^64 (two's complement) |
| `Encoding.IntToHexRoundTrip` | proofofwork.go:41-43 | decoding the 8 bytes as a two's-complement int64 gives back the encoded integer |
| `PoW.NewProofOfWork` | proofofwork.go:26-33 | the puzzle keeps the block, and its target is 2^(256 − targetBits) whatever the block |
| `PoW.StandardTarget` | proofofwork.go:26-28 | the standard target is 2^240, written out as a 1 followed by 60 hexadecimal zeros |
| `PoW.PrepareData` | proofofwork.go:36-49 | the data is previous hash, transactions digest, 8-byte timestamp, 8-byte difficulty 16 and 8-byte nonce, back to back in this order; its length is the sum of theirs |
| `PoW.PrepareDataNonce` | proofofwork.go:36-49 | data for two nonces have the same length and agree on all but the last 8 bytes; they are equal if and only if the nonces are equal |
| `PoW.MeetsTarget` | proofofwork.go:67-69 | the strict comparison `Cmp(target) == -1` on the digest's big-endian value: a digest equal to the target fails; a zero target admits no digest; any positive target admits the all-zero digest; a target of at least 2^256 admits every digest |
| `PoW.Solves` | proofofwork.go:60-69 | one nonce's test (header bytes, then SHA-256, then the comparison); with the standard target it passes if and only if the digest starts with two zero bytes |
| `PoW.DigestMeetsTarget` | proofofwork.go:23-28 | with the standard target, a 32-byte digest passes the strict comparison if and only if its first two bytes (16 bits) are zero |
| `PoW.FirstSolution` | proofofwork.go:55-73 | the least nonce from the start value on whose digest meets the target, below `maxNonce`; every smaller nonce fails; it never passes `maxNonce` unless the bound is below the start |
| `PoW.Run` | proofofwork.go:52-78 | the returned nonce is the reference search's answer from 0; it is never negative and never above a non-negative `maxNonce`; every smaller nonce was hashed and failed; below `maxNonce` the returned hash is the digest of that nonce's data and meets the target; on exhaustion it is the digest of nonce `maxNonce − 1`, or all zeros when no nonce was tried |
| `PoW.SearchComplete` | proofofwork.go:55-74 | the search stops below `maxNonce` if and only if some nonce in [0, `maxNonce`) meets the target, so it gives up only when no nonce in range works |
| `PoW.RunWithDefaultBound` | proofofwork.go:11-13 | with `maxNonce = math.MaxInt64` the nonce returned is at most that bound; it equals the bound if and only if no nonce below it meets the target; otherwise the hash is that nonce's digest and meets the target |
| `PoW.RunWithoutBudget` | proofofwork.go:53-58 | with `maxNonce = 0` the loop body never runs: nonce 0 and the all-zero hash |
| `PoW.Validate` | proofofwork.go:81-91 | true if and only if the digest of the stored nonce's data meets the target (the rule of line 69); with the standard target, if and only if that digest starts with two zero bytes |
| `PoW.MinerValidatorAgree` | proofofwork.go:52-91 | a nonce meets the target for block `b` if and only if `b` with that nonce stored validates |
| `PoW.MinedNonceValidates` | proofofwork.go:52-91 | a nonce found below `maxNonce`, once stored in the block, makes `Validate` return true |

## Left out

- SHA-256 (`sha256.Sum256`, lines 62 and 85): a foreign library call, modelled as an arbitrary function parameter returning 32 bytes.
- `Block.HashTransactions()` (line 40): not part of this model; its result is a field of the block value.
- `IntToHex` (called on lines 41-43): its definition is not in `proofofwork.go`. The model assumes the 8-byte big-endian two's-complement encoding, as described above.
- Compilation: `IntToHex` picks its bytes by their defining property, which Dafny cannot compile, so the model is for verification only.
- Progress printing (lines 57, 64-66, 75): console output. Its cadence test `math.Remainder(float64(nonce), 100000)` is floating-point arithmetic. Neither affects the nonce or hash returned.
- `big.Int` internals: `SetBytes` is big-endian decoding to a natural number, `Lsh` of 1 is a power of two, and `Cmp(...) == -1` is `<`.
- The `Block` structure beyond the fields read, block persistence and chain linkage: no code for them is in this model.
- Concurrent mining: the code searches sequentially, with no concurrency.
- The `ProofOfWork` struct holds a pointer to the block. The model holds the block by value, because the code never updates the block through it.
