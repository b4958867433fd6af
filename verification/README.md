# Ledger integrity core of postoi, in Dafny

This project models the integrity core of a minimal append-only ledger written in Rust. It has two parts:

- **Blocks** (`block.dfy`) covers one record. A block has an index, an optional stored hash, an optional previous hash, a timestamp and an opaque payload. The module defines how the content hash is computed (`CalculateHash`, `SetHash`). It builds the fixed genesis block (`Genesis`) and successor blocks (`GenerateNext`). It also validates one block against the block it claims to follow (`CheckIntegrity`). The checks run in a fixed order: index, then link, then the genesis payload, then the block's own hash.
- **Chain** (`chain.dfy`) covers the ledger. It holds a sequence of blocks. `CheckIntegrity` walks the sequence left to right, carrying the previous block along, and stops at the first failing position. `New` builds the one-block ledger. `ReplaceChain` applies the strict longest-valid-chain rule.
- **Wrappers** (`wrappers.dfy`) defines `Option` and `Outcome`. They stand for Rust's `Option<T>` and `Result<(), E>`.

Two things are parameters rather than definitions:

- **The hash function.** Every operation takes a hash function `h: HashInput -> string`. `HashInput` holds exactly the index, previous hash, timestamp and payload. So by construction the recomputed hash cannot depend on the stored hash. Every result therefore holds for *every* deterministic hash. Results that need a changed field to change the digest take `FieldwiseInjective(h)` as an explicit hypothesis. It says that changing any one hashed field, with the other three kept, changes the digest. Injectivity over all four fields together is never assumed, because the real hash input does not have it (see "## Left out").
- **The clock.** Where the system reads the wall clock, the model takes a timestamp argument `now`.

Pinned behaviours:

- **Empty candidate sequence.** An empty candidate is vacuously valid, because the loop runs zero times (`Chain.CheckIntegrity` ensures `|bs| == 0 ==> r == Pass`). `ReplaceChain` still always rejects it, because it is never longer than a ledger.
- **Link check.** A block's link is compared with its predecessor's *recomputed* hash, not with the predecessor's stored hash. `GenerateNext` copies the stored hash. So a successor validates against its predecessor exactly when the predecessor's stored hash is consistent. `Blocks.GenerateNext` states both directions.
- **Single-field tampering.** Changing one field of a valid block does not always give `InvalidHash`. The check order decides which violation is reported:
  - a changed index gives `InvalidIndex`;
  - a changed previous hash gives `InvalidPreviousHash`;
  - a changed payload at the genesis position gives `InvalidGenesis`;
  - only a changed timestamp, or a changed payload elsewhere, gives `InvalidHash`.
- **Order of the violation kinds.** The enum declares `InvalidGenesis` before `InvalidPreviousHash`. The checks run the other way round. `Blocks.Rank` records the order in which the checks run.

## Model

| member | source | states |
|---|---|---|
| Blocks.CalculateHashIgnoresStoredHash | src/blockchain/mod.rs:86-93 | The recomputed hash is the same whatever hash is stored |
| Blocks.SetHash | src/blockchain/mod.rs:82-84 | The result's stored hash equals its recomputed hash, no other field changes, and an already consistent block is left as it is |
| Blocks.CheckIntegrity | src/blockchain/mod.rs:95-124 | Decision list in check order: `InvalidIndex` iff the index does not follow (0 for genesis); `InvalidPreviousHash` iff the index is right but the link (None for genesis, else the predecessor's recomputed hash) is wrong; `InvalidGenesis` iff both hold but a genesis block has another payload; `InvalidHash` iff all those hold but the stored hash is not the recomputed one; `Pass` iff no violation exists. `InvalidGenesis` never occurs with a predecessor, and a block with no stored hash never passes |
| Blocks.ReportsHighestPrecedenceViolation | src/blockchain/mod.rs:95-124 | The reported violation is one the block exhibits, and it has the lowest rank (earliest check) among all the violations the block exhibits |
| Blocks.Genesis | src/blockchain/mod.rs:54-68 | The genesis block has index 0, no previous hash, payload "Neon genesis!", the given time and a consistent hash, and it passes the check with no predecessor |
| Blocks.GenerateNext | src/blockchain/mod.rs:70-80 | The successor has index one more, previous hash equal to the predecessor's stored hash, the given payload and time, and a consistent hash. It passes against its predecessor iff the predecessor's stored hash is consistent, and otherwise fails with `InvalidPreviousHash` |
| Blocks.TamperedIndexIsInvalidIndex | src/blockchain/mod.rs:98-111 | Changing only the index of a valid block gives `InvalidIndex` |
| Blocks.TamperedPreviousHashIsInvalidPreviousHash | src/blockchain/mod.rs:101-114 | Changing only the previous hash of a valid block gives `InvalidPreviousHash` |
| Blocks.TamperedTimestampIsInvalidHash | src/blockchain/mod.rs:86-123 | If changing one hashed field changes the digest, then changing only the timestamp of a valid block gives `InvalidHash` |
| Blocks.TamperedDataIsDetected | src/blockchain/mod.rs:86-123 | If changing one hashed field changes the digest, then changing only the payload of a valid block gives `InvalidGenesis` at the genesis position and `InvalidHash` elsewhere |
| Chain.Walk | src/blockchain/mod.rs:16-24 | From position i with the block seen before i: passes iff every later position passes; a failure names a position at or after i whose block fails with the reported violation, and every position before it passes |
| Chain.CheckIntegrity | src/blockchain/mod.rs:15-25 | `Pass` iff every block passes against its predecessor (none at position 0); otherwise the reported position is the first failing one and carries that block's violation; an empty sequence passes |
| Chain.FirstFailureIsReported | src/blockchain/mod.rs:15-25 | Converse of the first-failure contract: if position k is the first to fail, with violation v, the chain check returns exactly (k, v) |
| Chain.ValidChainIffWellLinked | src/blockchain/mod.rs:15-25 | A chain passes iff it is linked field by field: the head has index 0, no previous hash and the genesis payload; every stored hash is consistent; every later block has the next index and links to its predecessor's stored hash |
| Chain.ValidChainIndexIsPosition | src/blockchain/mod.rs:15-25 | In a valid chain the block at position i has index i |
| Chain.ValidPrefix | src/blockchain/mod.rs:15-25 | Every prefix of a valid chain is valid |
| Chain.New | src/blockchain/mod.rs:9-13 | The new ledger holds exactly the genesis block, satisfies the invariant (non-empty and valid) and passes the chain check |
| Chain.ReplaceChain | src/blockchain/mod.rs:27-34 | Accepted iff the candidate is valid and strictly longer. On acceptance the ledger becomes the candidate; on rejection it is unchanged. The invariant is preserved, the length never decreases, and an empty candidate is always rejected |
| Chain.AppendNextKeepsValid | src/blockchain/mod.rs:70-80 | Appending the successor of the last block keeps a non-empty valid chain valid |
| Chain.Build | src/blockchain/mod.rs:54-80 | A chain grown from genesis by one successor per mint has one block more than there are mints, and starts with the genesis block |
| Chain.BuildIsValid | src/blockchain/mod.rs:54-80 | Every chain grown from genesis by successive `generate_next` calls passes the chain check |
| Chain.BuildCarriesPayloads | src/blockchain/mod.rs:70-80 | In such a chain, position i (after genesis) has index i and carries the i-th minted payload |
| Chain.TamperedLinkIsReportedAt | src/blockchain/mod.rs:15-25 | In a valid chain, pointing block i > 0 at anything but its predecessor's hash is reported as `(i, InvalidPreviousHash)` |
| Chain.TamperedPayloadIsReportedAt | src/blockchain/mod.rs:15-25 | If changing one hashed field changes the digest, then changing the payload of block i > 0 of a valid chain is reported as `(i, InvalidHash)` |
| Chain.RemovedBlockIsReportedAt | src/blockchain/mod.rs:15-25 | Removing any block except the last from a valid chain is reported as `(i, InvalidIndex)` at the gap |
| Chain.MintThenReplace | src/blockchain/mod.rs:27-34 | Minting "A" onto a new ledger gives a valid two-block chain with index 1 linked to genesis. That chain replaces the one-block ledger, and the one-block chain cannot then replace it |

## Left out

- SHA-256 and the formatting of the hashed fields (a `format!` concatenation, then upper-case hex). These are foreign library calls. The hash is the parameter `h` over exactly the four hashed fields.
- Collisions between different (timestamp, payload) pairs. The hashed text is the four fields written one after another with no separator. The timestamp prints a fractional part only when that part is non-zero. So a time t with payload ".500x" and the time t + 500 ms with payload "x" give the same text, and therefore the same digest. The tampering lemmas only assume that changing one field changes the digest, which this formatting does provide.
- Wall-clock reads. They are nondeterministic I/O, so timestamps are parameters. The timestamp type is `int`, and it is only hashed.
- Blocks.GenerateNext: the index is an unbounded `nat`. The overflow of the machine-word `index + 1` at 2^64 - 1 is not modelled. A debug build panics there and a release build wraps.
- Blocks.CheckIntegrity: the same overflow of `previous.index + 1` is not modelled. The index is unbounded.
- The HTTP server, routing, JSON request and response shaping, and the reader/writer lock around the node. They are transport and concurrency plumbing outside the integrity core.
- The node record and its peer list. It is a constructor pairing an empty peer list with a new ledger.
- Minting onto the live ledger. The node's mint operation is not part of this model. Chain growth is modelled as `Build`, repeated `GenerateNext` on the last block, and `AppendNextKeepsValid`.
- Idempotence of validation is not stated as a lemma. Every operation here is a pure function, so repeated calls give the same result by construction.
