/** The older chain (src/modules/blockchain/classes/BlockChain.ts), the one
    the blockchain service holds: an empty genesis block, blocks appended after
    being mined at the chain's difficulty, and a linkage check. */
module LegacyBlockchain {
  import opened Crypto
  import opened Transactions
  import opened LegacyBlock
  import opened Text

  /** The transaction objects of a list of blocks; a block's hash reads their signatures. */
  function TxObjects(chain: seq<Block>): (txs: set<Transaction>)
    ensures forall b, t :: b in chain && t in b.transactions ==> t in txs
  {
    set b, t | b in chain && t in b.transactions :: t
  }

  /** `current` holds its own current hash and the hash of `previous`. */
  predicate LinkValid(p: Primitives, previous: Block, current: Block)
    reads previous, current, current.transactions
  {
    current.hash == current.CalculateHash(p) && current.previousHash == previous.hash
  }

  /** Every block after the first carries its own current hash and the hash
      of the block before it; the genesis block is not checked. */
  predicate ChainValid(p: Primitives, chain: seq<Block>)
    reads chain, TxObjects(chain)
    decreases |chain|
  {
    |chain| <= 1 ||
    (ChainValid(p, chain[..|chain| - 1]) && LinkValid(p, chain[|chain| - 2], chain[|chain| - 1]))
  }

  class Blockchain {
    var chain: seq<Block>
    var difficulty: nat

    ghost predicate Valid()
      reads this
    {
      |chain| >= 1
    }

    /** The chain starts with the genesis block; `difficulty` defaults to 2. */
    constructor (p: Primitives, now: int, difficulty: nat := 2)
      ensures Valid() && |chain| == 1 && this.difficulty == difficulty
      ensures fresh(chain[0])
      ensures IsGenesis(p, chain[0], now)
    {
      var genesis := CreateGenesisBlock(p, now);
      chain := [genesis];
      this.difficulty := difficulty;
    }

    /** createGenesisBlock: index 0, no transactions, previous hash "0"; not mined. */
    static method CreateGenesisBlock(p: Primitives, now: int) returns (genesis: Block)
      ensures fresh(genesis)
      ensures IsGenesis(p, genesis, now)
    {
      genesis := new Block(p, 0, now, [], "0");
    }

    /** getLatestBlock */
    function GetLatestBlock(): (b: Block)
      reads this
      requires Valid()
      ensures b == chain[|chain| - 1]
    {
      chain[|chain| - 1]
    }

    /** addBlock: links the block to the tip, mines it at the chain difficulty
        and appends it. `mined` is false when the fuel ran out, and then
        nothing is appended. */
    method AddBlock(p: Primitives, newBlock: Block, fuel: nat) returns (mined: bool)
      requires Valid()
      modifies this, newBlock
      ensures Valid() && difficulty == old(difficulty)
      ensures newBlock.previousHash == old(GetLatestBlock().hash)
      ensures chain == if mined then old(chain) + [newBlock] else old(chain)
      ensures mined ==> StartsWith(newBlock.hash, Zeros(difficulty))
      ensures old(newBlock.nonce) <= newBlock.nonce <= old(newBlock.nonce) + fuel
      ensures newBlock.nonce == old(newBlock.nonce) ==> newBlock.hash == old(newBlock.hash)
      ensures newBlock.nonce > old(newBlock.nonce) ==> newBlock.hash == newBlock.CalculateHash(p)
      ensures (mined && newBlock !in old(chain) && old(ChainValid(p, chain))
               && newBlock.hash == newBlock.CalculateHash(p)) ==> ChainValid(p, chain)
    {
      newBlock.previousHash := GetLatestBlock().hash;
      mined := newBlock.MineBlock(p, difficulty, fuel);
      if mined {
        // Only the new block changed: the chain's blocks and transactions are as they were.
        assert forall t :: t in TxObjects(chain) ==> unchanged(t);
        assert newBlock !in chain ==> forall b :: b in chain ==> unchanged(b);
        chain := chain + [newBlock];
      }
    }

    /** isChainValid: a read-only scan from the second block on, stopping at
        the first block with a stale hash or a broken link. */
    method IsChainValid(p: Primitives) returns (r: bool)
      ensures r == ChainValid(p, chain)
    {
      var i := 1;
      while i < |chain|
        invariant 1 <= i && (i <= |chain| || |chain| == 0)
        invariant i <= |chain| ==> ChainValid(p, chain[..i])
      {
        var currentBlock := chain[i];
        var previousBlock := chain[i - 1];
        if currentBlock.hash != currentBlock.CalculateHash(p) {
          ChainValidPrefix(p, chain, i + 1);
          return false;
        }
        if currentBlock.previousHash != previousBlock.hash {
          ChainValidPrefix(p, chain, i + 1);
          return false;
        }
        assert chain[..i + 1][..i] == chain[..i];
        i := i + 1;
      }
      assert |chain| >= 1 ==> chain[..i] == chain;
      r := true;
    }
  }

  /** The block createGenesisBlock builds. */
  predicate IsGenesis(p: Primitives, b: Block, now: int)
    reads b
  {
    && b.index == 0 && b.timestamp == now && b.transactions == [] && b.previousHash == "0"
    && b.nonce == 0 && b.hash == b.CalculateHash(p)
  }

  /** Every prefix of a valid chain is valid. */
  lemma {:induction false} ChainValidPrefix(p: Primitives, chain: seq<Block>, n: nat)
    requires n <= |chain|
    ensures ChainValid(p, chain) ==> ChainValid(p, chain[..n])
    decreases |chain|
  {
    if n < |chain| {
      assert chain[..|chain| - 1][..n] == chain[..n];
      ChainValidPrefix(p, chain[..|chain| - 1], n);
    } else {
      assert chain[..n] == chain;
    }
  }

  /** The chain is valid exactly when every block after the first holds its
      current hash and the hash of the block before it. */
  lemma {:induction false} ChainValidIff(p: Primitives, chain: seq<Block>)
    ensures ChainValid(p, chain) <==>
      forall i :: 1 <= i < |chain| ==> LinkValid(p, chain[i - 1], chain[i])
    decreases |chain|
  {
    if |chain| > 1 {
      var init := chain[..|chain| - 1];
      ChainValidIff(p, init);
      assert forall i :: 0 <= i < |init| ==> init[i] == chain[i];
    }
  }

  /** A chain of one block is valid whatever that block holds. */
  lemma SingleBlockChainValid(p: Primitives, b: Block)
    ensures ChainValid(p, [b])
  {
  }

  /** Appending keeps the earlier links: a valid chain extended by a block
      that holds its current hash and links to the tip stays valid, and only then. */
  lemma ChainValidSnoc(p: Primitives, chain: seq<Block>, b: Block)
    requires |chain| >= 1
    ensures ChainValid(p, chain + [b]) <==> ChainValid(p, chain) && LinkValid(p, chain[|chain| - 1], b)
  {
    assert (chain + [b])[..|chain|] == chain;
  }
}
