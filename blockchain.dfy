/** The `Blockchain` class of blockchain.py: a list of blocks, each linked to
    its predecessor by hash, grown by proof-of-work and checked by
    `is_chain_valid`. */
module Chain {
  import opened Blocks

  /** The fields of a list of blocks, position by position. */
  function Records(blocks: seq<Block>): (r: seq<BlockRecord>)
    reads blocks
    ensures |r| == |blocks|
    ensures forall i :: 0 <= i < |blocks| ==> r[i] == blocks[i].Record()
  {
    seq(|blocks|, i requires 0 <= i < |blocks| reads blocks => blocks[i].Record())
  }

  /** What `create_genesis_block` produces, up to its timestamp. */
  predicate IsGenesis(sha: Hasher, g: BlockRecord)
  {
    && g.index == 0
    && g.transactions == ["Genesis Block"]
    && g.previousHash == "0"
    && g.nonce == 0
    && HashIntact(sha, g)
  }

  /** The two checks `is_chain_valid` makes of the block at position i:
      its hash is recomputed from its fields, and it names its
      predecessor's hash. */
  predicate BlockPasses(sha: Hasher, s: seq<BlockRecord>, i: nat)
    requires 1 <= i < |s|
  {
    HashIntact(sha, s[i]) && s[i].previousHash == s[i - 1].hash
  }

  /** Every block after the genesis block passes both checks. */
  predicate ChainValid(sha: Hasher, s: seq<BlockRecord>)
  {
    forall i :: 1 <= i < |s| ==> BlockPasses(sha, s, i)
  }

  /** The first position at or after `from` where a check fails: where
      `is_chain_valid` returns False. */
  function FirstViolation(sha: Hasher, s: seq<BlockRecord>, from: nat): (r: Option<nat>)
    requires 1 <= from
    ensures r.None? <==> forall i :: from <= i < |s| ==> BlockPasses(sha, s, i)
    ensures r.Some? ==> from <= r.value < |s| && !BlockPasses(sha, s, r.value)
    ensures r.Some? ==> forall i :: from <= i < r.value ==> BlockPasses(sha, s, i)
    decreases |s| - from
  {
    if |s| <= from then None
    else if !BlockPasses(sha, s, from) then Some(from)
    else FirstViolation(sha, s, from + 1)
  }

  /** The scan from position 1 finds nothing exactly when the chain is valid. */
  lemma NoFirstViolationIffValid(sha: Hasher, s: seq<BlockRecord>)
    ensures FirstViolation(sha, s, 1).None? <==> ChainValid(sha, s)
  {
  }

  /** Positions that pass can be skipped: scanning from `from` finds what
      scanning from `i` finds when every position in between passes. */
  lemma {:induction false} FirstViolationSkips(sha: Hasher, s: seq<BlockRecord>, from: nat, i: nat)
    requires 1 <= from <= i
    requires forall j :: from <= j < i && j < |s| ==> BlockPasses(sha, s, j)
    ensures FirstViolation(sha, s, from) == FirstViolation(sha, s, i)
    decreases i - from
  {
    if from < i && from < |s| {
      FirstViolationSkips(sha, s, from + 1, i);
    }
  }

  /** A proof-of-work search on a block with these fields tested the nonces
      `start`, `start + 1`, ... in turn: from test `from` on, test k hashed
      the fields under nonce `start + k` and the timestamp `stamps[k]`. */
  predicate SearchedInOrder(sha: Hasher, index: nat, transactions: seq<string>, previousHash: string,
                            start: nat, trace: seq<string>, stamps: seq<Timestamp>, from: nat)
  {
    && |stamps| == |trace|
    && forall k :: from <= k < |trace| ==>
         trace[k] == sha(Preimage(index, stamps[k], transactions, previousHash, start + k))
  }

  /** `b` is what `add_new_block` appends to `s`: the next index, the
      predecessor's hash, a hash that agrees with its content and meets the
      difficulty. */
  predicate Appendable(sha: Hasher, difficulty: nat, s: seq<BlockRecord>, b: BlockRecord)
  {
    && |s| >= 1
    && b.index == |s|
    && b.previousHash == s[|s| - 1].hash
    && HashIntact(sha, b)
    && MeetsDifficulty(b.hash, difficulty)
  }

  /** A genesis block, then appendable blocks one at a time. Every chain the
      constructor and `add_new_block` build is among these; the converse
      fails, because `Appendable` does not record that mining stops at the
      first passing nonce. */
  ghost predicate Reachable(sha: Hasher, difficulty: nat, s: seq<BlockRecord>)
    decreases |s|
  {
    if |s| == 1 then IsGenesis(sha, s[0])
    else |s| > 1 && Reachable(sha, difficulty, s[..|s| - 1])
                  && Appendable(sha, difficulty, s[..|s| - 1], s[|s| - 1])
  }

  /** The invariant of a chain, stated position by position. */
  predicate WellFormed(sha: Hasher, difficulty: nat, s: seq<BlockRecord>)
  {
    && |s| >= 1
    && IsGenesis(sha, s[0])
    && (forall i :: 0 <= i < |s| ==> s[i].index == i)
    && (forall i :: 1 <= i < |s| ==> MeetsDifficulty(s[i].hash, difficulty))
    && ChainValid(sha, s)
  }

  /** Appending an appendable block keeps a chain well formed. */
  lemma AppendKeepsWellFormed(sha: Hasher, difficulty: nat, s: seq<BlockRecord>, b: BlockRecord)
    requires WellFormed(sha, difficulty, s)
    requires Appendable(sha, difficulty, s, b)
    ensures WellFormed(sha, difficulty, s + [b])
  {
    var t := s + [b];
    forall i | 1 <= i < |t| ensures BlockPasses(sha, t, i) {
      if i < |s| {
        assert BlockPasses(sha, s, i);
      }
    }
  }

  /** The chains built up from a genesis block by appendable blocks are
      exactly the well-formed ones. */
  lemma {:induction false} ReachableIffWellFormed(sha: Hasher, difficulty: nat, s: seq<BlockRecord>)
    ensures Reachable(sha, difficulty, s) <==> WellFormed(sha, difficulty, s)
    decreases |s|
  {
    if |s| > 1 {
      var p := s[..|s| - 1];
      ReachableIffWellFormed(sha, difficulty, p);
      assert s == p + [s[|s| - 1]];
      if WellFormed(sha, difficulty, s) {
        assert WellFormed(sha, difficulty, p) by {
          forall i | 1 <= i < |p| ensures BlockPasses(sha, p, i) {
            assert BlockPasses(sha, s, i);
          }
        }
        assert BlockPasses(sha, s, |s| - 1);
      }
      if Reachable(sha, difficulty, s) {
        AppendKeepsWellFormed(sha, difficulty, p, s[|s| - 1]);
      }
    }
  }

  /** `is_chain_valid` holds of every chain the constructor and
      `add_new_block` build; each block's index is its position and every
      block after the genesis block meets the difficulty. */
  lemma ReachableChainIsValid(sha: Hasher, difficulty: nat, s: seq<BlockRecord>)
    requires Reachable(sha, difficulty, s)
    ensures ChainValid(sha, s)
    ensures forall i :: 0 <= i < |s| ==> s[i].index == i
    ensures forall i :: 1 <= i < |s| ==> MeetsDifficulty(s[i].hash, difficulty)
  {
    ReachableIffWellFormed(sha, difficulty, s);
  }

  /** Changing a block after the genesis block so that its stored hash no
      longer agrees with its fields makes the chain invalid. */
  lemma ContentTamperDetected(sha: Hasher, s: seq<BlockRecord>, i: nat, b: BlockRecord)
    requires 1 <= i < |s|
    requires b.hash != Recompute(sha, b)
    ensures !ChainValid(sha, s[i := b])
  {
    assert !BlockPasses(sha, s[i := b], i);
  }

  /** Pointing a block after the genesis block at any hash other than its
      predecessor's makes the chain invalid. */
  lemma RelinkDetected(sha: Hasher, s: seq<BlockRecord>, i: nat, h: string)
    requires 1 <= i < |s|
    requires h != s[i - 1].hash
    ensures !ChainValid(sha, s[i := s[i].(previousHash := h)])
  {
    assert !BlockPasses(sha, s[i := s[i].(previousHash := h)], i);
  }

  /** The genesis block's own fields are never checked: replacing it by any
      record with the same hash keeps a valid chain valid. */
  lemma GenesisContentUnchecked(sha: Hasher, s: seq<BlockRecord>, g: BlockRecord)
    requires |s| >= 1
    requires ChainValid(sha, s)
    requires g.hash == s[0].hash
    ensures ChainValid(sha, s[0 := g])
  {
    var t := s[0 := g];
    forall i | 1 <= i < |t| ensures BlockPasses(sha, t, i) {
      assert BlockPasses(sha, s, i);
    }
  }

  class Blockchain {
    /** The digest function `generate_hash` uses. */
    const sha: Hasher
    const difficulty: nat
    var chain: seq<Block>

    /** The fields of the blocks in the chain, in order. */
    ghost function View(): seq<BlockRecord>
      reads this, chain
    {
      Records(chain)
    }

    ghost predicate Valid()
      reads this, chain
    {
      WellFormed(sha, difficulty, View())
    }

    /** A chain holding only a genesis block, with difficulty 2. */
    constructor (sha: Hasher)
      ensures this.sha == sha && difficulty == 2
      ensures |chain| == 1 && fresh(chain[0])
      ensures IsGenesis(sha, View()[0])
      ensures Valid() && Reachable(sha, difficulty, View())
    {
      this.sha := sha;
      var genesis := CreateGenesisBlock(sha);
      chain := [genesis];
      difficulty := 2;
      new;
      ReachableIffWellFormed(sha, difficulty, View());
    }

    /** The same chain with another difficulty, as the source invites its
        users to set. */
    constructor WithDifficulty(sha: Hasher, difficulty: nat)
      ensures this.sha == sha && this.difficulty == difficulty
      ensures |chain| == 1 && fresh(chain[0])
      ensures IsGenesis(sha, View()[0])
      ensures Valid() && Reachable(sha, difficulty, View())
    {
      this.sha := sha;
      var genesis := CreateGenesisBlock(sha);
      chain := [genesis];
      this.difficulty := difficulty;
      new;
      ReachableIffWellFormed(sha, difficulty, View());
    }

    /** Index 0, the marker transaction, the sentinel previous hash "0",
        nonce 0 and the hash of those fields; it is not mined. */
    static method CreateGenesisBlock(sha: Hasher) returns (genesis: Block)
      ensures fresh(genesis)
      ensures IsGenesis(sha, genesis.Record())
    {
      var now := Now();
      genesis := new Block(sha, 0, now, ["Genesis Block"], "0");
    }

    /** Builds a block on the current tail, mines it and appends it. The
        search is cut off after `fuel` attempts. The ghost results expose the
        search: `candidate` is the mined block, `stamp` the clock reading it
        was built with, `trace` the hash it had at each test of the loop and
        `stamps` its timestamp then; test k hashes it under nonce k.
        `added` is exactly whether the candidate meets the difficulty; when
        it does not, all `fuel` attempts were made and failed, and the
        chain is left as it was. */
    method AddNewBlock(transactions: seq<string>, fuel: nat)
      returns (added: bool, ghost candidate: Block, ghost stamp: Timestamp,
               ghost trace: seq<string>, ghost stamps: seq<Timestamp>)
      requires Valid()
      modifies this
      ensures Valid()
      ensures fresh(candidate)
      ensures candidate.index == old(|chain|) && candidate.transactions == transactions
      ensures candidate.previousHash == old(View())[old(|chain|) - 1].hash
      ensures added <==> MeetsDifficulty(candidate.hash, difficulty)
      ensures |trace| == candidate.nonce + 1 <= fuel + 1
      ensures SearchedInOrder(sha, old(|chain|), transactions, candidate.previousHash, 0, trace, stamps, 0)
      ensures stamps[0] == stamp && candidate.timestamp == stamps[|stamps| - 1]
      ensures trace[|trace| - 1] == candidate.hash
      ensures forall k :: 0 <= k < |trace| - 1 ==> !MeetsDifficulty(trace[k], difficulty)
      ensures MeetsDifficulty(trace[0], difficulty) ==> added && candidate.nonce == 0 && candidate.timestamp == stamp
      ensures !added ==> candidate.nonce == fuel
      ensures added ==> |chain| == old(|chain|) + 1 && chain[..old(|chain|)] == old(chain)
      ensures added ==> chain[|chain| - 1] == candidate
      ensures added ==> View() == old(View()) + [candidate.Record()]
      ensures added ==> Appendable(sha, difficulty, old(View()), candidate.Record())
      ensures !added ==> chain == old(chain) && View() == old(View())
      ensures difficulty == 0 ==> added && candidate.nonce == 0
    {
      ghost var before := View();
      var lastBlock := chain[|chain| - 1];
      var now := Now();
      var newBlock := new Block(sha, |chain|, now, transactions, lastBlock.hash);
      candidate, stamp := newBlock, now;
      if difficulty == 0 {
        ZeroDifficultyAlwaysMet(newBlock.hash);
      }
      ghost var h0 := newBlock.hash;
      added, trace, stamps := ApplyProofOfWork(newBlock, fuel);
      assert SearchedInOrder(sha, |chain|, transactions, lastBlock.hash, 0, trace, stamps, 0) by {
        assert trace[0] == h0;
      }
      assert View() == before;
      if added {
        assert Appendable(sha, difficulty, before, newBlock.Record());
        Append(newBlock);
      }
    }

    /** `self.chain.append(block)`, for a block that may follow the tail:
        the chain grows by that block alone and stays well formed. */
    method Append(block: Block)
      requires Valid()
      requires Appendable(sha, difficulty, View(), block.Record())
      modifies this
      ensures chain == old(chain) + [block]
      ensures View() == old(View()) + [block.Record()]
      ensures Valid()
    {
      ghost var before := View();
      AppendKeepsWellFormed(sha, difficulty, before, block.Record());
      chain := chain + [block];
      assert View() == before + [block.Record()];
    }

    /** Mines `block` in place: while its hash does not start with
        `difficulty` zeros, bump the nonce, re-read the clock and rehash.
        At most `fuel` attempts are made; `mined` says whether the hash
        meets the difficulty on return. `trace` is the hash tested at each
        check of the loop condition and `stamps` the timestamp the block held
        then: attempt k hashes the fields under nonce old+k and the k-th clock
        reading, and every hash but the last failed. */
    method ApplyProofOfWork(block: Block, fuel: nat)
      returns (mined: bool, ghost trace: seq<string>, ghost stamps: seq<Timestamp>)
      modifies block
      ensures mined == MeetsDifficulty(block.hash, difficulty)
      ensures block.index == old(block.index)
      ensures block.transactions == old(block.transactions)
      ensures block.previousHash == old(block.previousHash)
      ensures old(block.nonce) <= block.nonce <= old(block.nonce) + fuel
      ensures !mined ==> block.nonce == old(block.nonce) + fuel
      ensures MeetsDifficulty(old(block.hash), difficulty) ==> unchanged(block)
      ensures block.nonce == old(block.nonce) ==> unchanged(block)
      ensures block.nonce != old(block.nonce) ==> HashIntact(sha, block.Record())
      ensures old(HashIntact(sha, block.Record())) ==> HashIntact(sha, block.Record())
      ensures |trace| == block.nonce - old(block.nonce) + 1
      ensures trace[0] == old(block.hash) && trace[|trace| - 1] == block.hash
      ensures forall k :: 0 <= k < |trace| - 1 ==> !MeetsDifficulty(trace[k], difficulty)
      ensures SearchedInOrder(sha, block.index, block.transactions, block.previousHash, old(block.nonce), trace, stamps, 1)
      ensures stamps[0] == old(block.timestamp) && block.timestamp == stamps[|stamps| - 1]
    {
      var attempts := 0;
      trace := [block.hash];
      stamps := [block.timestamp];
      while attempts < fuel && !MeetsDifficulty(block.hash, difficulty)
        invariant attempts <= fuel
        invariant block.nonce == old(block.nonce) + attempts
        invariant block.index == old(block.index)
        invariant block.transactions == old(block.transactions)
        invariant block.previousHash == old(block.previousHash)
        invariant attempts == 0 ==> unchanged(block)
        invariant attempts > 0 ==> !MeetsDifficulty(old(block.hash), difficulty)
        invariant attempts > 0 ==> HashIntact(sha, block.Record())
        invariant old(HashIntact(sha, block.Record())) ==> HashIntact(sha, block.Record())
        invariant |trace| == attempts + 1
        invariant trace[0] == old(block.hash) && trace[attempts] == block.hash
        invariant forall k :: 0 <= k < attempts ==> !MeetsDifficulty(trace[k], difficulty)
        invariant SearchedInOrder(sha, block.index, block.transactions, block.previousHash, old(block.nonce), trace, stamps, 1)
        invariant stamps[0] == old(block.timestamp) && block.timestamp == stamps[attempts]
      {
        block.nonce := block.nonce + 1;
        block.timestamp := Now();
        block.hash := block.GenerateHash(sha, Some(block.nonce));
        trace := trace + [block.hash];
        stamps := stamps + [block.timestamp];
        attempts := attempts + 1;
      }
      mined := MeetsDifficulty(block.hash, difficulty);
    }

    /** Walks positions 1 .. |chain|-1 and returns false at the first block
        whose hash does not recompute or whose previous hash is not its
        predecessor's hash; the genesis block is not checked. */
    method IsChainValid() returns (valid: bool, ghost failedAt: Option<nat>)
      ensures valid == ChainValid(sha, View())
      ensures failedAt == FirstViolation(sha, View(), 1)
      ensures valid <==> failedAt.None?
      ensures Valid() ==> valid
    {
      ghost var s := View();
      failedAt := None;
      var i := 1;
      while i < |chain|
        invariant 1 <= i && (i <= |chain| || |chain| == 0)
        invariant forall j :: 1 <= j < i && j < |s| ==> BlockPasses(sha, s, j)
      {
        var currentBlock := chain[i];
        var previousBlock := chain[i - 1];
        if currentBlock.hash != currentBlock.GenerateHash(sha, Some(currentBlock.nonce)) {
          assert !BlockPasses(sha, s, i);
          FirstViolationSkips(sha, s, 1, i);
          return false, Some(i);
        }
        if currentBlock.previousHash != previousBlock.hash {
          assert !BlockPasses(sha, s, i);
          FirstViolationSkips(sha, s, 1, i);
          return false, Some(i);
        }
        i := i + 1;
      }
      FirstViolationSkips(sha, s, 1, i);
      return true, None;
    }
  }
}
