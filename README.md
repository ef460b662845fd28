# A hash-linked ledger with proof-of-work, in Dafny

This project models `blockchain.py`, a small educational blockchain. It has two parts:

- **`Block`** (module `Blocks`, file `block.dfy`). A block holds `index`, `timestamp`, `transactions`, `previous_hash`, `nonce` and `hash`. It computes its digest with `generate_hash`. In the model, `Block` is a class with those six mutable fields. The digest is `GenerateHash`. `Record()` gives the current fields as a `BlockRecord` value.
- **`Blockchain`** (module `Chain`, file `blockchain.dfy`). It owns the list of blocks and a difficulty. It creates the genesis block, mines and appends new blocks, and validates the list. In the model, `Blockchain` is a class whose `chain` field is a `seq<Block>` of references. Its methods are `AddNewBlock`, `ApplyProofOfWork` and `IsChainValid`. `ApplyProofOfWork` mutates the block it is given in place, as the source does.

These pieces are abstracted:

- **The hash.** SHA-256 over the f-string rendering of the five content fields is a parameter of type `Hasher`, a total function from a `Preimage` to a string. Nothing is assumed about it: no length, no alphabet, no injectivity. Every property below holds for every such function.
- **The clock.** `time.time()` is `Now()`, which may return any `Timestamp`.

The specification is split into pure predicates over `seq<BlockRecord>`:

- `HashIntact`: the stored hash equals the recomputed digest.
- `BlockPasses` and `ChainValid`: the two checks of `is_chain_valid`.
- `MeetsDifficulty`: `hash.startswith('0' * difficulty)`.
- `Appendable`: the properties of every block `add_new_block` appends.
- `SearchedInOrder`: a mining search tested the nonces one after another, each with its own clock reading.
- `Reachable`: a genesis block followed by appendable blocks. Every chain that the constructor and a sequence of `add_new_block` calls build is among these.
- `WellFormed`: the same set as `Reachable`, described position by position. It is the class invariant `Valid()` of `Blockchain`.

`IsChainValid` needs no invariant from its caller. It is proved equal to `ChainValid` on any chain, including a tampered one. It is also proved true on every chain that satisfies `Valid()`.

Two points of the code's behaviour that the model makes explicit:

- The genesis block is hashed once and not mined. Its hash need not meet the difficulty, and `is_chain_valid` never recomputes it (see `GenesisContentUnchecked`).
- Changing a field of a non-genesis block is not always caught. The code only compares the stored hash with a recomputed one, so detection needs the digest to change. `ContentTamperDetected` states exactly that condition.

## Model

| member | source | states |
|---|---|---|
| `Blocks.Repeat` | blockchain.py:34 | `'0' * d` is a string of length d whose every character is the given one |
| `Blocks.MeetsDifficultyIff` | blockchain.py:34 | `hash.startswith('0' * d)` holds exactly when the hash has at least d characters and the first d are all '0' |
| `Blocks.ZeroDifficultyAlwaysMet` | blockchain.py:34 | difficulty 0 accepts every hash, so the mining loop body never runs |
| `Blocks.Block.constructor` | blockchain.py:5-11 | a new block stores the given index, timestamp, transactions and previous hash, with nonce 0 and the digest of those fields with nonce 0 |
| `Blocks.Block.GenerateHash` | blockchain.py:13-17 | with no argument, the digest of the current content under the stored nonce; with a nonce n, the digest of the same content under n; the stored hash is never an input |
| `Blocks.Block.GenerateHashDefault` | blockchain.py:14-15 | `generate_hash()` equals `generate_hash(self.nonce)` |
| `Blocks.GenerateHashDependsOnlyOnContent` | blockchain.py:16-17 | two blocks that agree on index, timestamp, transactions and previous hash get the same digest for the same nonce |
| `Chain.Blockchain.constructor` | blockchain.py:20-22 | a new chain has exactly one block, a genesis block (index 0, `["Genesis Block"]`, previous hash "0", nonce 0, intact hash); difficulty is 2; the chain satisfies the invariant and is reachable |
| `Chain.Blockchain.WithDifficulty` | blockchain.py:20-22 | the same chain with a caller-chosen difficulty, which the source's comment invites users to set; it satisfies the invariant and is reachable |
| `Chain.Blockchain.CreateGenesisBlock` | blockchain.py:24-25 | the genesis block is fresh, with index 0, the marker transaction, the sentinel "0", nonce 0 and a hash that matches its fields |
| `Chain.Blockchain.AddNewBlock` | blockchain.py:27-31 | a fresh candidate is built with index = old length, the given transactions and the old tail's hash, then mined. The block is appended exactly when its final hash meets the difficulty. The hashes tested form a trace with the clock reading of each test: test k is the digest of the candidate's fields under nonce k and the k-th reading, the first reading is the one the block was built with, and every hash but the last fails (`SearchedInOrder`). So the appended nonce is the first that passes, a first hash that already passes is appended with nonce 0, and a failure means nonces 0 to `fuel` were all tested and all failed. On append, the chain grows by exactly that block, earlier blocks and their fields are unchanged, and the invariant is kept. Otherwise nothing changes. With difficulty 0 it always appends with nonce 0 |
| `Chain.Blockchain.ApplyProofOfWork` | blockchain.py:33-37 | the result says whether the hash now meets the difficulty. Index, transactions and previous hash never change. The nonce only grows, by one per attempt. After any attempt the hash is the digest of the fields under the new nonce. If the first hash already meets the difficulty, the block is left untouched. The ghost trace of tested hashes starts with the old hash, ends with the new one, and every hash but the last fails the difficulty. Test k ≥ 1 is the digest of the fields under nonce old+k and the timestamp read from the clock for that test, and the block keeps the last reading (`SearchedInOrder`) |
| `Chain.Blockchain.Append` | blockchain.py:31 | appending a block that may follow the tail grows the chain by exactly that block, leaves every earlier block's fields as they were, and keeps the invariant |
| `Chain.Blockchain.IsChainValid` | blockchain.py:39-49 | returns true exactly when every block at position i ≥ 1 has an intact hash and names block i-1's hash, it returns false together with the first failing position, as `FirstViolation` gives it. It returns true on every chain satisfying the invariant |
| `Chain.FirstViolation` | blockchain.py:40-48 | the first position i ≥ 1 where a check fails, if any: every earlier position passes both checks, and there is none exactly when all positions pass |
| `Chain.NoFirstViolationIffValid` | blockchain.py:40-49 | the scan from position 1 finds no violation exactly when the chain is valid |
| `Chain.FirstViolationSkips` | blockchain.py:40-48 | a scan that has passed positions `from` to i-1 reports the same first violation as a scan started at i: this is why the loop may return at the first failure |
| `Chain.AppendKeepsWellFormed` | blockchain.py:27-31 | appending a block with the next index, the tail's hash as its previous hash, an intact hash and a hash meeting the difficulty keeps the chain invariant |
| `Chain.ReachableIffWellFormed` | blockchain.py:20-31 | a chain is a genesis block followed by appendable blocks exactly when it has a genesis block, index = position, the difficulty met after genesis, and both validity checks passing. Every chain the constructor and `add_new_block` build is of this kind |
| `Chain.ReachableChainIsValid` | blockchain.py:21-49 | every reachable chain passes `is_chain_valid`, has `chain[i].index == i`, and has a hash with the difficulty zero-prefix at every position i ≥ 1 |
| `Chain.ContentTamperDetected` | blockchain.py:44-45 | replacing a non-genesis block by one whose stored hash differs from its recomputed digest makes the chain invalid |
| `Chain.RelinkDetected` | blockchain.py:47-48 | pointing a non-genesis block at any hash other than its predecessor's makes the chain invalid |
| `Chain.GenesisContentUnchecked` | blockchain.py:40 | validation starts at position 1: replacing the genesis block by any record with the same hash keeps a valid chain valid |

## Left out

- The interactive menu and transaction entry in the `__main__` block (blockchain.py:59-93) are console I/O and are not modelled.
- `display_chain` (blockchain.py:51-57) only prints and is not modelled.
- SHA-256, UTF-8 encoding and hex rendering are not modelled; they are the `Hasher` parameter.
- The textual f-string rendering of the fields is not modelled. `Preimage` keeps the five values apart, so the model does not capture that different field values can render to the same concatenated string.
- Hash injectivity is not assumed. The tamper lemmas therefore require that the digest actually changed.
- `time.time()` is `Now()`, which returns an arbitrary real. Floating-point behaviour and the rendering of the timestamp are not modelled.
- Chain.Blockchain.ApplyProofOfWork: the source loops without bound until the hash meets the difficulty. That termination holds only with probability one. The model makes at most `fuel` attempts, and `mined == false` means the source would still be searching.
- Chain.Blockchain.AddNewBlock: for the same reason it takes a `fuel` budget. `added == false` happens only after `fuel` failed attempts. It stands for a call that has not yet returned, and the chain is then left unchanged.
- Chain.Reachable: `Appendable` does not record that mining stops at the first passing nonce, because earlier timestamps are not kept in a block. `Reachable` therefore also admits chains that mining could not produce. The stopping rule is stated per call instead: the trace of `AddNewBlock` and `ApplyProofOfWork` ties test k to nonce k and proves that every earlier test failed.
- The source's `Block` keeps a reference to the caller's `transactions` list, so a caller that later mutates that list changes the block. The model stores transactions as an immutable `seq<string>` and does not capture that aliasing.
- `difficulty` is a mutable attribute in the source but is never reassigned there. The model makes it a `const`: the unnamed constructor sets it to 2, as the source does, and `WithDifficulty` sets it to any value the caller chooses.
- Chain.Blockchain.AddNewBlock: requires the class invariant `Valid()`. This rules out more than the empty chain on which `add_new_block` would raise `IndexError`. Appending to a chain whose blocks were changed after they were built, so that it no longer satisfies the invariant, is accepted by the source but not modelled. No chain built by the constructors and `AddNewBlock` breaks the invariant.
