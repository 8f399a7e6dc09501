/**
  The proof-of-work puzzle (go-backend/blockchain.go, `IsValidProof` and
  `ProofOfWork`).

  A proof is valid against the previous proof when the SHA-256 sum of the
  decimal text of the previous proof followed immediately by the decimal text
  of the candidate starts with four zero bytes. The search tries 0, 1, 2, ...
  and stops at the first valid candidate.
*/
module Mining {
  import opened Decimal
  import opened Hex

  /** Number of leading zero bytes the digest of a valid guess must have. */
  const Difficulty := 4

  /** Largest value of a Go `int` on the 64-bit platforms the server targets. */
  const MaxInt := 0x7fff_ffff_ffff_ffff

  /** `fmt.Sprintf("%d%d", lastProof, proof)`. */
  function Guess(lastProof: int, proof: int): string
  {
    Itoa(lastProof) + Itoa(proof)
  }

  /** `IsValidProof(lastProof, proof)`: the first four bytes of the guess's digest are zero. */
  predicate IsValidProof(sha256: string -> Digest, lastProof: int, proof: int)
  {
    sha256(Guess(lastProof, proof))[..Difficulty] == [0, 0, 0, 0]
  }

  /** How many bytes at the front of `d` are zero: an independent reading of the difficulty test. */
  function LeadingZeroBytes(d: seq<byte>): (n: nat)
    ensures n <= |d|
    ensures forall i :: 0 <= i < n ==> d[i] == 0
    ensures n < |d| ==> d[n] != 0
  {
    if |d| == 0 || d[0] != 0 then 0 else 1 + LeadingZeroBytes(d[1..])
  }

  /** A proof is valid exactly when the guess's digest has at least `Difficulty` leading zero bytes. */
  lemma ValidIffLeadingZeros(sha256: string -> Digest, lastProof: int, proof: int)
    ensures IsValidProof(sha256, lastProof, proof) <==> LeadingZeroBytes(sha256(Guess(lastProof, proof))) >= Difficulty
  {
  }

  /** The verdict is a function of the guess string alone. */
  lemma VerdictDependsOnGuess(sha256: string -> Digest, a: int, b: int, c: int, d: int)
    requires Guess(a, b) == Guess(c, d)
    ensures IsValidProof(sha256, a, b) == IsValidProof(sha256, c, d)
  {
  }

  /**
    The two numbers are written with no separator, so different pairs can share
    a guess: (1, 23) and (12, 3) receive the same verdict for every digest.
  */
  lemma GuessCollides(sha256: string -> Digest)
    ensures Guess(1, 23) == Guess(12, 3) == "123"
    ensures IsValidProof(sha256, 1, 23) == IsValidProof(sha256, 12, 3)
  {
  }

  /** `p` is the smallest non-negative proof valid against `lastProof`. */
  ghost predicate IsLeastProof(sha256: string -> Digest, lastProof: int, p: int)
  {
    && 0 <= p
    && IsValidProof(sha256, lastProof, p)
    && forall q :: 0 <= q < p ==> !IsValidProof(sha256, lastProof, q)
  }

  /** At most one value is the least valid proof, so the search is deterministic. */
  lemma LeastProofUnique(sha256: string -> Digest, lastProof: int, p: int, q: int)
    requires IsLeastProof(sha256, lastProof, p) && IsLeastProof(sha256, lastProof, q)
    ensures p == q
  {
  }

  /**
    `ProofOfWork(lastProof)`. The Go code loops without bound; here some valid proof
    `known` that a Go `int` can hold must exist, which also guarantees that
    `proof++` never wraps around.
  */
  method ProofOfWork(sha256: string -> Digest, lastProof: int, ghost known: int) returns (proof: int)
    requires 0 <= known <= MaxInt && IsValidProof(sha256, lastProof, known)
    ensures IsLeastProof(sha256, lastProof, proof)
    ensures proof <= known <= MaxInt
  {
    proof := 0;
    while !IsValidProof(sha256, lastProof, proof)
      invariant 0 <= proof <= known
      invariant forall q :: 0 <= q < proof ==> !IsValidProof(sha256, lastProof, q)
      decreases known - proof
    {
      proof := proof + 1;
    }
  }
}
