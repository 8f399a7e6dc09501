/**
  Blocks and their content hash (go-backend/blockchain.go, `Block`,
  `CalculateHash`, `CreateGenesisBlock`, `CreateBlock`).

  The hash of a block is the lower-case hexadecimal rendering of the SHA-256 sum
  of its record: the decimal index, the timestamp, the rendering of the
  transaction list, the decimal proof and the previous hash, concatenated in
  that order with no separators.
*/
module Blocks {
  import opened Wrappers
  import opened Decimal
  import opened Hex

  /** Transactions are opaque strings; timestamps are opaque strings supplied by the caller. */
  datatype Block = Block(
    index: int,
    timestamp: string,
    transactions: seq<string>,
    proof: int,
    prevHash: string)

  /** The proof carried by the genesis block. */
  const GenesisProof := 100

  /** The elements of `txs` separated by single spaces. */
  function Join(txs: seq<string>): string
  {
    if |txs| == 0 then ""
    else if |txs| == 1 then txs[0]
    else txs[0] + " " + Join(txs[1..])
  }

  /** What `fmt.Sprint` prints for a `[]string`: the elements space-separated inside brackets. */
  function Render(txs: seq<string>): string
  {
    "[" + Join(txs) + "]"
  }

  /** The string whose digest is the block's hash. */
  function Record(b: Block): string
  {
    Itoa(b.index) + b.timestamp + Render(b.transactions) + Itoa(b.proof) + b.prevHash
  }

  /** `b.CalculateHash()`, for the digest function `sha256`. */
  function CalculateHash(sha256: string -> Digest, b: Block): (h: string)
    ensures |h| == 2 * DigestLength
    ensures forall i :: 0 <= i < |h| ==> IsHexDigit(h[i])
    ensures Decode(h) == Some(sha256(Record(b)))
  {
    DecodeEncode(sha256(Record(b)));
    Encode(sha256(Record(b)))
  }

  /** `CreateGenesisBlock()`, stamped with `now`. */
  function Genesis(now: string): (g: Block)
    ensures g.index == 0 && g.proof == GenesisProof
    ensures g.transactions == [] && g.prevHash == ""
    ensures g.timestamp == now
  {
    Block(0, now, [], GenesisProof, "")
  }

  /** `b` follows `prev`: its index is one more and it records the hash of `prev`. */
  predicate LinksTo(sha256: string -> Digest, prev: Block, b: Block) {
    b.index == prev.index + 1 && b.prevHash == CalculateHash(sha256, prev)
  }

  /** `CreateBlock(prev, txs, proof)`, stamped with `now`. */
  function CreateBlock(sha256: string -> Digest, prev: Block, txs: seq<string>, proof: int, now: string): (b: Block)
    ensures LinksTo(sha256, prev, b)
    ensures b.transactions == txs && b.proof == proof && b.timestamp == now
  {
    Block(prev.index + 1, now, txs, proof, CalculateHash(sha256, prev))
  }

  /** A block is the one `CreateBlock` builds exactly when it links to `prev` and carries the given contents. */
  lemma CreateBlockCharacterized(sha256: string -> Digest, prev: Block, txs: seq<string>, proof: int, now: string, b: Block)
    ensures b == CreateBlock(sha256, prev, txs, proof, now)
        <==> LinksTo(sha256, prev, b) && b.transactions == txs && b.proof == proof && b.timestamp == now
  {
  }

  /** The hash is a function of the record alone: blocks with equal records hash equally. */
  lemma HashDependsOnRecord(sha256: string -> Digest, a: Block, b: Block)
    requires Record(a) == Record(b)
    ensures CalculateHash(sha256, a) == CalculateHash(sha256, b)
  {
  }

  /** Distinct hashes can only come from distinct digests of the records. */
  lemma HashesDifferIffDigestsDiffer(sha256: string -> Digest, a: Block, b: Block)
    ensures CalculateHash(sha256, a) == CalculateHash(sha256, b) <==> sha256(Record(a)) == sha256(Record(b))
  {
    EncodeInjective(sha256(Record(a)), sha256(Record(b)));
  }

  /**
    The record has no separators, so the boundary between index and timestamp
    is not recoverable: blocks 1 and 12 below differ but hash equally for every
    digest function.
  */
  lemma IndexTimestampCollide(sha256: string -> Digest)
    ensures Block(1, "2", [], 0, "") != Block(12, "", [], 0, "")
    ensures CalculateHash(sha256, Block(1, "2", [], 0, "")) == CalculateHash(sha256, Block(12, "", [], 0, ""))
  {
    assert Itoa(1) == "1";
    assert Itoa(12) == "12" by {
      assert NatDigits(12) == NatDigits(1) + [DigitChar(2)];
    }
    assert Record(Block(1, "2", [], 0, "")) == Record(Block(12, "", [], 0, ""));
  }

  /**
    The slice rendering does not delimit elements, so one transaction
    containing a space and two transactions render the same.
  */
  lemma TransactionsCollide(sha256: string -> Digest, index: int, now: string, proof: int, prevHash: string)
    ensures ["a b"] != ["a", "b"]
    ensures CalculateHash(sha256, Block(index, now, ["a b"], proof, prevHash))
         == CalculateHash(sha256, Block(index, now, ["a", "b"], proof, prevHash))
  {
    assert Join(["a", "b"]) == "a" + " " + Join(["b"]);
    assert Render(["a b"]) == Render(["a", "b"]);
  }
}
