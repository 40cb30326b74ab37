/**
 * The proof-of-work puzzle of a block: the target derived from the fixed
 * difficulty, the header bytes that are hashed for a candidate nonce, the
 * linear nonce search (mining) and the re-check of a stored nonce
 * (validation).
 *
 * SHA-256 is not modelled: every operation that hashes takes the hash
 * function as a parameter `sha`, an arbitrary total function from byte
 * strings to 32-byte digests, so every property here holds for any such
 * function.
 */
module PoW {
  import opened Encoding

  /** Number of leading zero bits a block hash must have. */
  const TargetBits: nat := 16

  /** Default upper bound of the nonce search (Go's `math.MaxInt64`). */
  const MaxNonce: Int64 := MaxInt64

  const DigestSize: nat := 32

  /** A SHA-256 digest: exactly 32 bytes. */
  type Digest = s: seq<Byte> | |s| == DigestSize witness seq(32, _ => 0)

  /** The hash function (`sha256.Sum256`), left uninterpreted. */
  type Hash = seq<Byte> -> Digest

  /** The all-zero digest, the initial value of a Go `[32]byte`. */
  const ZeroDigest: Digest := seq(32, _ => 0)

  /**
   * The fields of a block that the puzzle reads. `txDigest` stands for the
   * value `HashTransactions()` returns for the block's transactions.
   */
  datatype Block = Block(
    prevBlockHash: seq<Byte>,
    txDigest: seq<Byte>,
    timestamp: Int64,
    nonce: Int64)

  datatype ProofOfWork = ProofOfWork(block: Block, target: nat)

  /**
   * The puzzle for block `b`: the target is 1 shifted left by
   * 256 - TargetBits, the same for every block.
   */
  function NewProofOfWork(b: Block): (pow: ProofOfWork)
    ensures pow.block == b
    ensures pow.target == Pow2(256 - TargetBits)
  {
    ProofOfWork(b, 1 * Pow2(256 - TargetBits))
  }

  /** The standard target is 2^240: a 1 followed by 60 hexadecimal zeros. */
  lemma StandardTarget(b: Block)
    ensures NewProofOfWork(b).target == 0x1_0000_0000_0000_0000_0000_0000_0000_0000_0000_0000_0000_0000_0000_0000_0000
  {
    Pow2Of64();
    Pow2Mul(64, 64, 0x1_0000_0000_0000_0000, 0x1_0000_0000_0000_0000);
    Pow2Mul(128, 64, 0x1_0000_0000_0000_0000_0000_0000_0000_0000, 0x1_0000_0000_0000_0000);
    Pow2Mul(8, 8, 0x100, 0x100);
    Pow2Mul(16, 16, 0x1_0000, 0x1_0000);
    Pow2Mul(192, 32, 0x1_0000_0000_0000_0000_0000_0000_0000_0000_0000_0000_0000_0000, 0x1_0000_0000);
    Pow2Mul(224, 16, 0x1_0000_0000_0000_0000_0000_0000_0000_0000_0000_0000_0000_0000_0000_0000, 0x1_0000);
  }

  /**
   * The bytes hashed for a candidate nonce: previous hash, transactions
   * digest, timestamp, difficulty and nonce, joined with no separator.
   */
  function PrepareData(pow: ProofOfWork, nonce: Int64): (data: seq<Byte>)
    ensures |data| == |pow.block.prevBlockHash| + |pow.block.txDigest| + 24
  {
    pow.block.prevBlockHash
      + pow.block.txDigest
      + IntToHex(pow.block.timestamp)
      + IntToHex(TargetBits)
      + IntToHex(nonce)
  }

  /** Where each field lies in the header bytes: the five parts follow one another with no gap. */
  lemma PrepareDataLayout(pow: ProofOfWork, nonce: Int64)
    ensures var data, p, t := PrepareData(pow, nonce), |pow.block.prevBlockHash|, |pow.block.txDigest|;
      && data[..p] == pow.block.prevBlockHash
      && data[p..p + t] == pow.block.txDigest
      && data[p + t..p + t + 8] == IntToHex(pow.block.timestamp)
      && data[p + t + 8..p + t + 16] == IntToHex(TargetBits)
      && data[p + t + 16..] == IntToHex(nonce)
  {
  }

  /**
   * Two nonces give header bytes that agree everywhere but in the last
   * 8 bytes, and those determine the nonce: distinct nonces are hashed
   * over distinct data.
   */
  lemma PrepareDataNonce(pow: ProofOfWork, n1: Int64, n2: Int64)
    ensures |PrepareData(pow, n1)| == |PrepareData(pow, n2)|
    ensures PrepareData(pow, n1)[..|PrepareData(pow, n1)| - 8] == PrepareData(pow, n2)[..|PrepareData(pow, n2)| - 8]
    ensures PrepareData(pow, n1) == PrepareData(pow, n2) <==> n1 == n2
  {
  }

  /**
   * The strict comparison `hashInt.Cmp(target) == -1` on the big-endian
   * value of a digest. A digest equal to the target fails; a zero target
   * admits nothing, any positive target admits the all-zero digest, and a
   * target of 2^256 or more admits every digest.
   */
  function MeetsTarget(pow: ProofOfWork, hash: Digest): (meets: bool)
    ensures BigEndian(hash) == pow.target ==> !meets
    ensures pow.target == 0 ==> !meets
    ensures 0 < pow.target && (forall i :: 0 <= i < |hash| ==> hash[i] == 0) ==> meets
    ensures Pow2(8 * |hash|) <= pow.target ==> meets
  {
    BigEndianZero(hash);
    BigEndian(hash) < pow.target
  }

  /**
   * Nonce `n` solves the puzzle: the digest of its header bytes meets the
   * target. With the standard target that means the digest starts with two
   * zero bytes.
   */
  function Solves(sha: Hash, pow: ProofOfWork, n: Int64): (solves: bool)
    ensures pow == NewProofOfWork(pow.block) ==>
      (solves <==> sha(PrepareData(pow, n))[0] == 0 && sha(PrepareData(pow, n))[1] == 0)
  {
    DigestMeetsTarget(pow.block, sha(PrepareData(pow, n)));
    MeetsTarget(pow, sha(PrepareData(pow, n)))
  }

  /**
   * With the standard target 2^(256 - TargetBits), a digest meets it
   * exactly when its first TargetBits = 16 bits, its first two bytes, are zero.
   */
  lemma DigestMeetsTarget(b: Block, hash: Digest)
    ensures MeetsTarget(NewProofOfWork(b), hash) <==> hash[0] == 0 && hash[1] == 0
  {
    LeadingZeroBytes(hash, 2);
  }

  /**
   * The reference for the search: the first nonce from `from` on, below
   * `maxNonce`, that solves the puzzle, or `max(from, maxNonce)` if none does.
   */
  function FirstSolution(sha: Hash, pow: ProofOfWork, from: Int64, maxNonce: Int64): (n: Int64)
    requires 0 <= from
    ensures from <= n
    ensures n <= maxNonce || n == from
    ensures forall m: Int64 :: from <= m < n ==> !Solves(sha, pow, m)
    ensures n < maxNonce ==> Solves(sha, pow, n)
    decreases maxNonce - from
  {
    if maxNonce <= from || Solves(sha, pow, from) then from
    else FirstSolution(sha, pow, from + 1, maxNonce)
  }

  /**
   * Mining: tries nonces 0, 1, 2, ... and stops at the first whose digest
   * meets the target, or when `maxNonce` is reached. On success the nonce
   * and its digest are returned; on exhaustion the nonce is `maxNonce` (0 if
   * `maxNonce` is negative) and the digest is the last one computed, or all
   * zero if no nonce was tried.
   */
  method Run(sha: Hash, pow: ProofOfWork, maxNonce: Int64) returns (nonce: Int64, hash: Digest)
    ensures nonce == FirstSolution(sha, pow, 0, maxNonce)
    ensures 0 <= nonce && (nonce <= maxNonce || nonce == 0)
    ensures forall m: Int64 :: 0 <= m < nonce ==> !Solves(sha, pow, m)
    ensures nonce < maxNonce ==> hash == sha(PrepareData(pow, nonce)) && MeetsTarget(pow, hash)
    ensures nonce >= maxNonce ==>
      hash == if maxNonce <= 0 then ZeroDigest else sha(PrepareData(pow, maxNonce - 1))
  {
    hash := ZeroDigest;
    nonce := 0;
    while nonce < maxNonce
      invariant 0 <= nonce && (nonce <= maxNonce || nonce == 0)
      invariant FirstSolution(sha, pow, nonce, maxNonce) == FirstSolution(sha, pow, 0, maxNonce)
      invariant hash == if nonce == 0 then ZeroDigest else sha(PrepareData(pow, nonce - 1))
      decreases maxNonce - nonce
    {
      var data := PrepareData(pow, nonce);
      hash := sha(data);
      var hashInt := BigEndian(hash);
      if hashInt < pow.target {
        break;
      } else {
        FirstSolutionStep(sha, pow, nonce, maxNonce);
        nonce := nonce + 1;
      }
    }
    FirstSolutionStart(sha, pow, nonce, maxNonce);
  }

  /** A nonce below the bound that fails passes the search on to the next nonce. */
  lemma FirstSolutionStep(sha: Hash, pow: ProofOfWork, from: Int64, maxNonce: Int64)
    requires 0 <= from < maxNonce
    requires !Solves(sha, pow, from)
    ensures FirstSolution(sha, pow, from, maxNonce) == FirstSolution(sha, pow, from + 1, maxNonce)
  {
  }

  /** Where the search is already at its answer or has run out, it answers at once. */
  lemma FirstSolutionStart(sha: Hash, pow: ProofOfWork, from: Int64, maxNonce: Int64)
    requires 0 <= from
    requires maxNonce <= from || Solves(sha, pow, from)
    ensures FirstSolution(sha, pow, from, maxNonce) == from
  {
  }

  /** Validation: re-hashes the block's stored nonce and applies the same strict comparison. */
  function Validate(sha: Hash, pow: ProofOfWork): (isValid: bool)
    ensures isValid <==> Solves(sha, pow, pow.block.nonce)
    ensures pow == NewProofOfWork(pow.block) ==>
      (isValid <==> var hash := sha(PrepareData(pow, pow.block.nonce)); hash[0] == 0 && hash[1] == 0)
  {
    var data := PrepareData(pow, pow.block.nonce);
    var hash := sha(data);
    DigestMeetsTarget(pow.block, hash);
    var hashInt := BigEndian(hash);
    hashInt < pow.target
  }

  /**
   * Miner and validator agree: a nonce solves the puzzle of block `b`
   * exactly when the block carrying that nonce validates. The header bytes
   * do not depend on the block's stored nonce.
   */
  lemma MinerValidatorAgree(sha: Hash, b: Block, n: Int64)
    ensures Solves(sha, NewProofOfWork(b), n) <==> Validate(sha, NewProofOfWork(b.(nonce := n)))
  {
  }

  /**
   * A nonce mined for block `b` within the bound makes the block valid
   * once it is stored in the block.
   */
  lemma MinedNonceValidates(sha: Hash, b: Block, maxNonce: Int64)
    ensures var n := FirstSolution(sha, NewProofOfWork(b), 0, maxNonce);
      n < maxNonce ==> Validate(sha, NewProofOfWork(b.(nonce := n)))
  {
  }

  /**
   * The search gives up only when it must: it stops below `maxNonce`
   * exactly when some nonce in [0, maxNonce) solves the puzzle.
   */
  lemma SearchComplete(sha: Hash, pow: ProofOfWork, maxNonce: Int64)
    ensures FirstSolution(sha, pow, 0, maxNonce) < maxNonce <==>
      exists m: Int64 :: 0 <= m < maxNonce && Solves(sha, pow, m)
  {
    var n := FirstSolution(sha, pow, 0, maxNonce);
    if n < maxNonce {
      assert 0 <= n < maxNonce && Solves(sha, pow, n);
    }
  }

  /**
   * Mining with the default bound `MaxNonce` (`math.MaxInt64`): the nonce
   * is at most the bound, and it is the bound exactly when no nonce from 0
   * to `MaxNonce - 1` solves the puzzle.
   */
  method RunWithDefaultBound(sha: Hash, pow: ProofOfWork) returns (nonce: Int64, hash: Digest)
    ensures 0 <= nonce <= MaxNonce
    ensures nonce == MaxNonce <==> forall m: Int64 :: 0 <= m < MaxNonce ==> !Solves(sha, pow, m)
    ensures nonce < MaxNonce ==> hash == sha(PrepareData(pow, nonce)) && MeetsTarget(pow, hash)
  {
    nonce, hash := Run(sha, pow, MaxNonce);
    SearchComplete(sha, pow, MaxNonce);
  }

  /** With `maxNonce` zero no nonce is tried: the result is nonce 0 with the all-zero digest. */
  method RunWithoutBudget(sha: Hash, pow: ProofOfWork) returns (nonce: Int64, hash: Digest)
    ensures nonce == 0 && hash == ZeroDigest
  {
    nonce, hash := Run(sha, pow, 0);
  }
}
