# In-memory block ledger

A model of the ledger core of a small Go blockchain server, `go-backend/blockchain.go`.
The ledger holds a chain of blocks, starting with a fixed genesis block, and a pool of pending transactions.
Each block records the hash of its predecessor.
Transactions are appended to the pool.
Mining searches for the least non-negative proof whose SHA-256 guess starts with four zero bytes.
It then appends a block built from the whole pool and empties the pool.

Modules:

- `Decimal` (`decimal.dfy`) models `strconv.Itoa` and `%d`. It also has a reference parser and a round-trip lemma.
- `Hex` (`hex.dfy`) defines bytes and 32-byte digests. It models the `%x` hexadecimal rendering, with a decoder and a round-trip lemma.
- `Blocks` (`block.dfy`) defines `Block`, the hash record, `CalculateHash`, `Genesis` (`CreateGenesisBlock` in the Go code) and `CreateBlock`.
- `Mining` (`proof_of_work.dfy`) defines `IsValidProof` and `ProofOfWork`.
- `Ledgers` (`ledger.dfy`) defines the ledger value and its transitions: initialisation, adding a transaction, clearing the pool and the mining step.
  It also defines the chain invariant `WellFormed`: every block after genesis sits at the position named by its index, records its predecessor's hash, and carries a proof valid against its predecessor's proof.

The model is written in terms of two parameters:

- SHA-256 is the function parameter `sha256: string -> Digest`. Every property holds for every function that returns 32 bytes.
- The clock (`time.Now().String()`) is the string parameter `now`.

The process-wide `blockchain` variable becomes an explicit `Ledger` value that each transition takes and returns.

The record joins the fields with no separators, so changing a field does not always change the hash.
Distinct blocks can share a record, and therefore a hash, whatever the digest function:

- `Blocks.IndexTimestampCollide`: index 1 with timestamp "2" gives the same record as index 12 with timestamp "".
- `Blocks.TransactionsCollide`: the transaction list `["a b"]` renders the same as `["a", "b"]`.
- `Mining.GuessCollides`: the proof-of-work guess has the same problem. The pairs (1, 23) and (12, 3) both give "123".

The server's `Transaction` type has sender, receiver and amount fields (go-backend/blockchain.go:32-36).
The ledger stores only the text the handler builds from them (go-backend/blockchain.go:115).
Transactions here are plain strings.

## Model

| member | source | states |
|---|---|---|
| Decimal.Itoa | go-backend/blockchain.go:40 | the decimal text of an integer is "0" for zero; otherwise it starts with '-' exactly for negatives, is otherwise digits, and has no leading zero |
| Decimal.ParseItoa | go-backend/blockchain.go:40 | reading back the decimal text of any integer gives that integer |
| Decimal.ItoaInjective | go-backend/blockchain.go:74 | Two integers have the same decimal text if and only if they are equal. |
| Hex.Encode | go-backend/blockchain.go:43 | the `%x` rendering has two lower-case hex digits per byte |
| Hex.DecodeEncode | go-backend/blockchain.go:43 | decoding the hex rendering of any byte string gives back those bytes |
| Hex.EncodeInjective | go-backend/blockchain.go:43 | distinct digests have distinct hex renderings |
| Blocks.CalculateHash | go-backend/blockchain.go:39-44 | a block hash is 64 hex digits that decode to the SHA-256 sum of the block's record |
| Blocks.HashDependsOnRecord | go-backend/blockchain.go:39-44 | blocks with equal records (index, timestamp, rendered transactions, proof, previous hash) hash equally |
| Blocks.HashesDifferIffDigestsDiffer | go-backend/blockchain.go:39-44 | two block hashes are equal exactly when the digests of their records are equal |
| Blocks.IndexTimestampCollide | go-backend/blockchain.go:40 | two different blocks whose index/timestamp boundary moves share a hash for every digest function |
| Blocks.TransactionsCollide | go-backend/blockchain.go:40 | a one-element list containing a space and a two-element list give the same block hash |
| Blocks.Genesis | go-backend/blockchain.go:47-49 | the genesis block has index 0, proof 100, no transactions, an empty previous hash and the given timestamp |
| Blocks.CreateBlock | go-backend/blockchain.go:52-61 | the new block links to its predecessor (index one more, previous hash = predecessor's hash) and carries exactly the given transactions and proof |
| Blocks.CreateBlockCharacterized | go-backend/blockchain.go:52-61 | a block is the one built from a predecessor exactly when it links to it and carries the given transactions, proof and timestamp |
| Mining.LeadingZeroBytes | go-backend/blockchain.go:79 | the count of zero bytes at the front of a digest: all bytes before it are zero and the byte at it is not |
| Mining.ValidIffLeadingZeros | go-backend/blockchain.go:73-80 | a proof is valid exactly when the digest of "<lastProof><proof>" has at least four leading zero bytes |
| Mining.VerdictDependsOnGuess | go-backend/blockchain.go:73-80 | the verdict depends only on the decimal concatenation of the two proofs |
| Mining.GuessCollides | go-backend/blockchain.go:74 | (1, 23) and (12, 3) share the guess "123" and so the verdict |
| Mining.ProofOfWork | go-backend/blockchain.go:64-70 | the search returns a non-negative valid proof with no smaller non-negative valid proof, and never passes the largest Go int |
| Mining.LeastProofUnique | go-backend/blockchain.go:64-70 | there is at most one least valid proof, so the search result is determined by the previous proof |
| Ledgers.Init | go-backend/blockchain.go:93-97 | a new ledger's chain is exactly the genesis block stamped with the given time (index 0, proof 100, no transactions, empty previous hash) and its pool is empty |
| Ledgers.InitWellFormed | go-backend/blockchain.go:93-97 | a new ledger satisfies the chain invariant |
| Ledgers.AddTransaction | go-backend/blockchain.go:83-85 | the pool gains the transaction at its end, keeps its earlier entries, and the chain is unchanged |
| Ledgers.AddTransactionPreserves | go-backend/blockchain.go:83-85 | adding a transaction keeps the chain invariant |
| Ledgers.SubmitAll | go-backend/blockchain.go:83-85 | submitting a list of transactions one by one appends them to the pool in order and leaves the chain unchanged |
| Ledgers.ClearPool | go-backend/blockchain.go:88-90 | clearing leaves the pool empty and the chain unchanged |
| Ledgers.ClearPoolPreserves | go-backend/blockchain.go:88-90 | clearing keeps the chain invariant and is idempotent |
| Ledgers.AppendAndClear | go-backend/blockchain.go:129-133 | on a non-empty chain the chain grows by exactly one block and earlier blocks are unchanged; the new block links to the old last block, holds the whole pool and the given proof; the pool is empty afterwards; an empty chain fails |
| Ledgers.LinkedAppend | go-backend/blockchain.go:129-130 | appending any block that links to the last block keeps every block at the position named by its index and linked to its predecessor's hash |
| Ledgers.ProofsAppend | go-backend/blockchain.go:125-130 | appending a block whose proof is valid against the last block's proof keeps every proof valid against its predecessor's |
| Ledgers.AppendAndClearPreserves | go-backend/blockchain.go:125-133 | mining with a proof valid against the last block succeeds and keeps the chain invariant |
| Ledgers.Mine | go-backend/blockchain.go:125-133 | mining appends exactly one block, linked to the old last block, holding the whole pool and the least valid proof against the last proof; the pool is then empty; an empty chain fails; a ledger satisfying the chain invariant is mined successfully and still satisfies it |
| Ledgers.SubmitThenMine | go-backend/blockchain.go:125-133 | transactions submitted to an empty pool and then mined end up in the new block exactly, in submission order |
| Ledgers.FirstBlock | go-backend/blockchain.go:125-133 | from a fresh ledger, one transaction and one mining step give a two-block chain whose block 1 links to genesis, holds that transaction and has a proof valid against 100 |

## Left out

- HTTP handlers, JSON encoding and decoding, CORS setup and the server start are transport code with no ledger logic. Only the state change inside `mineBlockHandler` is modelled.
- SHA-256 itself is a parameter, not an implementation. The conversion of a Go string to bytes before hashing is folded into that parameter.
- The clock is a parameter: `time.Now().String()` becomes the caller-supplied `now`.
- The global `blockchain` variable is an explicit value. The unsynchronised access to it from concurrent handlers is not modelled.
- The unused `CurrentTransactions` field and the `Transaction` struct are not modelled. The transaction text built by the handler is not modelled either; transactions are opaque strings.
- Go `nil` and empty slices are not distinguished. The model treats both as an empty sequence, which matches how they hash (both render as "[]").
- Mining.ProofOfWork: it requires that a valid proof no larger than the largest 64-bit Go `int` exists. The Go code loops forever when none exists, or wraps `proof++` past that bound; neither case is modelled.
- Ledgers.Mine: it requires the same known valid proof against the last block, for the same reason.
- Block indices and proofs are unbounded integers. `prevBlock.Index + 1` cannot overflow before 2^63 blocks, so 64-bit wrap-around is not modelled for them.
- On an empty chain, the Go code panics with an index out of range. The model returns the `EmptyChain` outcome instead.
