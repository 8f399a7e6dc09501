/**
  The ledger state machine (go-backend/blockchain.go, `Blockchain`,
  `initBlockchain`, `AddTransactionToPool`, `ClearTransactionPool`, and the
  mining step of `mineBlockHandler`).

  The process-wide `blockchain` variable becomes an explicit `Ledger` value that
  each transition takes and returns. The digest function and the clock are
  parameters: `sha256` stands for SHA-256 and `now` for the text of
  `time.Now().String()` at the moment a block is created.
*/
module Ledgers {
  import opened Hex
  import opened Blocks
  import opened Mining

  /** The chain of blocks, genesis first, and the transactions waiting for the next block. */
  datatype Ledger = Ledger(chain: seq<Block>, pool: seq<string>)

  /** The result of a mining step: the new ledger and the block it appended, or the failure to read a last block. */
  datatype Outcome = Mined(ledger: Ledger, block: Block) | EmptyChain

  function Last(chain: seq<Block>): Block
    requires |chain| > 0
  {
    chain[|chain| - 1]
  }

  /** Every block after the genesis block sits at the position named by its index and records its predecessor's hash. */
  predicate ChainLinked(sha256: string -> Digest, chain: seq<Block>)
  {
    forall i :: 0 < i < |chain| ==> chain[i].index == i && chain[i].prevHash == CalculateHash(sha256, chain[i - 1])
  }

  /** Every block after the genesis block carries a proof that is valid against its predecessor's proof. */
  predicate ProofsChained(sha256: string -> Digest, chain: seq<Block>)
  {
    forall i :: 0 < i < |chain| ==> IsValidProof(sha256, chain[i - 1].proof, chain[i].proof)
  }

  /** The invariant kept by every transition: a genesis-rooted, hash-linked chain of valid proofs. */
  predicate WellFormed(sha256: string -> Digest, l: Ledger)
  {
    && |l.chain| > 0
    && l.chain[0].index == 0
    && l.chain[0].prevHash == ""
    && ChainLinked(sha256, l.chain)
    && ProofsChained(sha256, l.chain)
  }

  /** `initBlockchain()`: the genesis block alone and no pending transactions. */
  function Init(now: string): (l: Ledger)
    ensures l.chain == [Genesis(now)] && l.pool == []
  {
    Ledger([Genesis(now)], [])
  }

  /** `AddTransactionToPool(tx)`: the pool gains `tx` at its end and nothing else changes. */
  function AddTransaction(l: Ledger, tx: string): (r: Ledger)
    ensures r.chain == l.chain
    ensures |r.pool| == |l.pool| + 1 && r.pool[..|l.pool|] == l.pool && r.pool[|l.pool|] == tx
  {
    l.(pool := l.pool + [tx])
  }

  /** `ClearTransactionPool()`: no pending transactions remain; the chain is untouched. */
  function ClearPool(l: Ledger): (r: Ledger)
    ensures r.pool == [] && r.chain == l.chain
  {
    l.(pool := [])
  }

  /**
    Lines 129-133 of `mineBlockHandler` for a proof already found: build the
    successor of the last block from the whole pool, append it, then empty the
    pool. The proof is not checked here. On an empty chain the Go code indexes
    out of range; here that is the `EmptyChain` outcome.
  */
  function AppendAndClear(sha256: string -> Digest, l: Ledger, proof: int, now: string): (r: Outcome)
    ensures r.EmptyChain? <==> |l.chain| == 0
    ensures r.Mined? ==>
      && |r.ledger.chain| == |l.chain| + 1
      && r.ledger.chain[..|l.chain|] == l.chain
      && r.ledger.chain[|l.chain|] == r.block
      && LinksTo(sha256, Last(l.chain), r.block)
      && r.block.transactions == l.pool
      && r.block.proof == proof
      && r.block.timestamp == now
      && r.ledger.pool == []
  {
    if |l.chain| == 0 then EmptyChain
    else
      var b := CreateBlock(sha256, Last(l.chain), l.pool, proof, now);
      Mined(ClearPool(l.(chain := l.chain + [b])), b)
  }

  /**
    The whole mining step (lines 125-133): read the last proof, search for the
    least valid proof, append the new block built from the pool, clear the
    pool. `known` is any valid proof a Go `int` can hold; the Go code would
    search forever without one.
  */
  method Mine(sha256: string -> Digest, l: Ledger, now: string, ghost known: int) returns (r: Outcome)
    requires |l.chain| > 0 ==> 0 <= known <= MaxInt && IsValidProof(sha256, Last(l.chain).proof, known)
    ensures r.EmptyChain? <==> |l.chain| == 0
    ensures r.Mined? ==>
      && |r.ledger.chain| == |l.chain| + 1
      && r.ledger.chain[..|l.chain|] == l.chain
      && r.ledger.chain[|l.chain|] == r.block
      && LinksTo(sha256, Last(l.chain), r.block)
      && r.block.transactions == l.pool
      && IsLeastProof(sha256, Last(l.chain).proof, r.block.proof)
      && r.block.timestamp == now
      && r.ledger.pool == []
    ensures r.Mined? ==> r == AppendAndClear(sha256, l, r.block.proof, now)
    ensures WellFormed(sha256, l) ==> r.Mined? && WellFormed(sha256, r.ledger)
  {
    if |l.chain| == 0 {
      return EmptyChain;
    }
    var lastProof := l.chain[|l.chain| - 1].proof;
    var proof := ProofOfWork(sha256, lastProof, known);
    r := AppendAndClear(sha256, l, proof, now);
    if WellFormed(sha256, l) {
      AppendAndClearPreserves(sha256, l, proof, now);
    }
  }

  /** The initial ledger satisfies the invariant. */
  lemma InitWellFormed(sha256: string -> Digest, now: string)
    ensures WellFormed(sha256, Init(now))
  {
  }

  /** Adding a transaction keeps the invariant. */
  lemma AddTransactionPreserves(sha256: string -> Digest, l: Ledger, tx: string)
    requires WellFormed(sha256, l)
    ensures WellFormed(sha256, AddTransaction(l, tx))
  {
  }

  /** Clearing the pool keeps the invariant, and clearing twice is clearing once. */
  lemma ClearPoolPreserves(sha256: string -> Digest, l: Ledger)
    requires WellFormed(sha256, l)
    ensures WellFormed(sha256, ClearPool(l))
    ensures ClearPool(ClearPool(l)) == ClearPool(l)
  {
  }

  /** Appending a block that links to the last one, at the next position, keeps the chain linked. */
  lemma LinkedAppend(sha256: string -> Digest, c: seq<Block>, b: Block)
    requires |c| > 0 && c[0].index == 0 && ChainLinked(sha256, c)
    requires LinksTo(sha256, Last(c), b)
    ensures ChainLinked(sha256, c + [b])
  {
    var c' := c + [b];
    forall i | 0 < i < |c'|
      ensures c'[i].index == i && c'[i].prevHash == CalculateHash(sha256, c'[i - 1])
    {
      if i == |c| {
        assert c'[i - 1] == Last(c);
      }
    }
  }

  /** Appending a block whose proof is valid against the last one keeps the proofs chained. */
  lemma ProofsAppend(sha256: string -> Digest, c: seq<Block>, b: Block)
    requires |c| > 0 && ProofsChained(sha256, c)
    requires IsValidProof(sha256, Last(c).proof, b.proof)
    ensures ProofsChained(sha256, c + [b])
  {
    var c' := c + [b];
    forall i | 0 < i < |c'|
      ensures IsValidProof(sha256, c'[i - 1].proof, c'[i].proof)
    {
      if i == |c| {
        assert c'[i - 1] == Last(c);
      } else {
        assert c'[i] == c[i] && c'[i - 1] == c[i - 1];
      }
    }
  }

  /** A mining step with a proof valid against the last block succeeds and keeps the invariant. */
  lemma AppendAndClearPreserves(sha256: string -> Digest, l: Ledger, proof: int, now: string)
    requires WellFormed(sha256, l)
    requires IsValidProof(sha256, Last(l.chain).proof, proof)
    ensures AppendAndClear(sha256, l, proof, now).Mined?
    ensures WellFormed(sha256, AppendAndClear(sha256, l, proof, now).ledger)
  {
    var r := AppendAndClear(sha256, l, proof, now);
    LinkedAppend(sha256, l.chain, r.block);
    ProofsAppend(sha256, l.chain, r.block);
    assert r.ledger.chain == l.chain + [r.block];
  }

  /** Submitting `txs` one by one, in order. */
  function SubmitAll(l: Ledger, txs: seq<string>): (r: Ledger)
    ensures r.chain == l.chain && r.pool == l.pool + txs
    decreases |txs|
  {
    if |txs| == 0 then l
    else
      var r := SubmitAll(AddTransaction(l, txs[0]), txs[1..]);
      assert l.pool + [txs[0]] + txs[1..] == l.pool + txs;
      r
  }

  /**
    Submitting transactions to an empty pool and then mining puts exactly those
    transactions, in submission order, into the new block, and empties the pool.
  */
  lemma SubmitThenMine(sha256: string -> Digest, l: Ledger, txs: seq<string>, proof: int, now: string)
    requires |l.chain| > 0 && l.pool == []
    ensures AppendAndClear(sha256, SubmitAll(l, txs), proof, now).Mined?
    ensures AppendAndClear(sha256, SubmitAll(l, txs), proof, now).block.transactions == txs
    ensures AppendAndClear(sha256, SubmitAll(l, txs), proof, now).ledger.pool == []
  {
  }

  /**
    From a fresh ledger, one submitted transaction and one mining step with a
    valid proof give a two-block chain whose second block has index 1, links to
    the genesis block and holds exactly that transaction.
  */
  lemma FirstBlock(sha256: string -> Digest, start: string, tx: string, proof: int, now: string)
    requires IsValidProof(sha256, GenesisProof, proof)
    ensures AppendAndClear(sha256, AddTransaction(Init(start), tx), proof, now).Mined?
    ensures
      var r := AppendAndClear(sha256, AddTransaction(Init(start), tx), proof, now);
      && |r.ledger.chain| == 2
      && r.ledger.chain[0] == Genesis(start)
      && r.ledger.chain[1] == r.block
      && r.block.index == 1
      && r.block.prevHash == CalculateHash(sha256, Genesis(start))
      && r.block.transactions == [tx]
      && IsValidProof(sha256, r.ledger.chain[0].proof, r.block.proof)
      && WellFormed(sha256, r.ledger)
  {
  }
}
