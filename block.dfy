/** The `Block` record of blockchain.py: six fields and the content digest
    it computes over five of them. */
module Blocks {

  datatype Option<T> = None | Some(value: T)

  /** A value read from the system clock (`time.time()`); the model never
      looks inside it. */
  type Timestamp = real

  /** The clock. Every call may return any value. */
  method Now() returns (t: Timestamp)
  {
    t := *;
  }

  /** The five values that `generate_hash` renders, in this order, into the
      string it hashes. */
  datatype Preimage = Preimage(
    index: nat,
    timestamp: Timestamp,
    transactions: seq<string>,
    previousHash: string,
    nonce: nat)

  /** SHA-256 of the UTF-8 rendering of a preimage, as lowercase hex. The
      model takes it as a parameter and assumes nothing about it. */
  type Hasher = Preimage -> string

  /** The fields of one block at one moment, as a value. */
  datatype BlockRecord = BlockRecord(
    index: nat,
    timestamp: Timestamp,
    transactions: seq<string>,
    previousHash: string,
    nonce: nat,
    hash: string)
  {
    /** What is hashed for this block when the nonce `n` is used. */
    function Content(n: nat): Preimage
    {
      Preimage(index, timestamp, transactions, previousHash, n)
    }
  }

  /** The digest of a block's content with its stored nonce: what a verifier
      recomputes to compare with the stored hash. */
  function Recompute(sha: Hasher, b: BlockRecord): string
  {
    sha(b.Content(b.nonce))
  }

  /** The stored hash agrees with the content. */
  predicate HashIntact(sha: Hasher, b: BlockRecord)
  {
    b.hash == Recompute(sha, b)
  }

  /** `c * n` on a one-character string. */
  function Repeat(c: char, n: nat): (r: string)
    ensures |r| == n
    ensures forall k :: 0 <= k < n ==> r[k] == c
  {
    if n == 0 then [] else Repeat(c, n - 1) + [c]
  }

  /** `s.startswith(prefix)`. */
  predicate StartsWith(s: string, prefix: string)
  {
    |prefix| <= |s| && s[..|prefix|] == prefix
  }

  /** The proof-of-work test: `hash.startswith('0' * difficulty)`. */
  predicate MeetsDifficulty(hash: string, difficulty: nat)
  {
    StartsWith(hash, Repeat('0', difficulty))
  }

  /** A hash meets the difficulty exactly when its first `difficulty`
      characters exist and are all '0'. */
  lemma MeetsDifficultyIff(hash: string, difficulty: nat)
    ensures MeetsDifficulty(hash, difficulty) <==>
            difficulty <= |hash| && forall k :: 0 <= k < difficulty ==> hash[k] == '0'
  {
    var zeros := Repeat('0', difficulty);
    if difficulty <= |hash| && forall k :: 0 <= k < difficulty ==> hash[k] == '0' {
      assert hash[..difficulty] == zeros;
    }
  }

  /** Difficulty 0 accepts every hash, so mining stops before the first
      attempt. */
  lemma ZeroDifficultyAlwaysMet(hash: string)
    ensures MeetsDifficulty(hash, 0)
  {
  }

  class Block {
    var index: nat
    var timestamp: Timestamp
    var transactions: seq<string>
    var previousHash: string
    var nonce: nat
    var hash: string

    /** The block's current fields as a value. */
    function Record(): BlockRecord
      reads this
    {
      BlockRecord(index, timestamp, transactions, previousHash, nonce, hash)
    }

    /** A new block starts at nonce 0 with the hash of its initial fields. */
    constructor (sha: Hasher, index: nat, timestamp: Timestamp,
                 transactions: seq<string>, previousHash: string)
      ensures this.index == index && this.timestamp == timestamp
      ensures this.transactions == transactions && this.previousHash == previousHash
      ensures nonce == 0
      ensures hash == sha(Preimage(index, timestamp, transactions, previousHash, 0))
      ensures HashIntact(sha, Record())
    {
      this.index := index;
      this.timestamp := timestamp;
      this.transactions := transactions;
      this.previousHash := previousHash;
      this.nonce := 0;
      new;
      hash := GenerateHash(sha, None);
    }

    /** `generate_hash(nonce=None)`: the digest of the content fields with the
        given nonce, or with the stored one when none is given. The stored
        hash plays no part. */
    function GenerateHash(sha: Hasher, nonce: Option<nat>): (r: string)
      reads this
      ensures nonce.None? ==> r == Recompute(sha, Record())
      ensures nonce.Some? ==> r == Recompute(sha, Record().(nonce := nonce.value))
    {
      var n := if nonce.None? then this.nonce else nonce.value;
      sha(Preimage(index, timestamp, transactions, previousHash, n))
    }

    /** The default argument means the stored nonce. */
    lemma GenerateHashDefault(sha: Hasher)
      ensures GenerateHash(sha, None) == GenerateHash(sha, Some(nonce))
    {
    }
  }

  /** Two blocks that agree on index, timestamp, transactions and previous
      hash get the same digest for the same nonce, whatever their stored
      nonce and hash. */
  lemma GenerateHashDependsOnlyOnContent(sha: Hasher, x: Block, y: Block, n: nat)
    requires x.index == y.index && x.timestamp == y.timestamp
    requires x.transactions == y.transactions && x.previousHash == y.previousHash
    ensures x.GenerateHash(sha, Some(n)) == y.GenerateHash(sha, Some(n))
  {
  }
}
