/** The newer chain (src/modules/blockchain/BlockChain.ts): a genesis block
    holding one coinbase transaction, blocks appended after being mined at the
    chain's difficulty, and a linkage check. */
module MerkleBlockchain {
  import opened Results
  import opened Text
  import opened Crypto
  import opened Transactions
  import opened MerkleBlock

  /** Every block after the first carries its own current hash and the hash
      of the block before it; the genesis block is not checked. */
  predicate ChainValid(p: Primitives, chain: seq<Block>)
    reads chain
    decreases |chain|
  {
    |chain| <= 1 ||
    (ChainValid(p, chain[..|chain| - 1]) && LinkValid(p, chain[|chain| - 2], chain[|chain| - 1]))
  }

  /** `current` holds its own current hash and the hash of `previous`. */
  predicate LinkValid(p: Primitives, previous: Block, current: Block)
    reads previous, current
  {
    current.hash == current.CalculateHash(p) && current.previousHash == previous.hash
  }

  class Blockchain {
    var chain: seq<Block>
    var difficulty: nat

    ghost predicate Valid()
      reads this
    {
      |chain| >= 1
    }

    /** The chain starts with the genesis block and `difficulty` (2 by default). */
    constructor (p: Primitives, genesisWalletAddress: string, initialCoinbaseReward: int, now: int,
                 difficulty: nat := 2)
      ensures Valid() && |chain| == 1 && this.difficulty == difficulty
      ensures fresh(chain[0])
      ensures IsGenesis(p, chain[0], genesisWalletAddress, initialCoinbaseReward, difficulty, now)
    {
      var genesis := CreateGenesisBlock(p, genesisWalletAddress, initialCoinbaseReward, difficulty, now);
      chain := [genesis];
      this.difficulty := difficulty;
    }

    /** createGenesisBlock: index 0, previous hash "0", one coinbase
        transaction paying the initial reward to the genesis address; not mined. */
    static method CreateGenesisBlock(p: Primitives, genesisWalletAddress: string, initialReward: int,
                                     difficulty: nat, now: int) returns (genesis: Block)
      ensures fresh(genesis)
      ensures IsGenesis(p, genesis, genesisWalletAddress, initialReward, difficulty, now)
    {
      var coinbaseTx := new Transaction(SYSTEM, genesisWalletAddress, initialReward);
      genesis := new Block(p, 0, now, [coinbaseTx], "0", difficulty);
    }

    /** getLatestBlock */
    function GetLatestBlock(): (b: Block)
      reads this
      requires Valid()
      ensures b == chain[|chain| - 1]
    {
      chain[|chain| - 1]
    }

    /** addBlock: links the block to the tip, stamps the chain difficulty on
        it, mines it and appends it. The search tests the hash the block held
        before its previous hash and difficulty were changed; `mined` is false
        when the fuel ran out, and then nothing is appended. */
    method AddBlock(p: Primitives, newBlock: Block, fuel: nat) returns (mined: bool)
      requires Valid()
      modifies this, newBlock
      ensures Valid() && difficulty == old(difficulty)
      ensures newBlock.previousHash == old(GetLatestBlock().hash)
      ensures newBlock.difficulty == difficulty
      ensures chain == if mined then old(chain) + [newBlock] else old(chain)
      ensures mined ==> StartsWith(newBlock.hash, Zeros(difficulty))
      ensures newBlock.nonce >= old(newBlock.nonce)
      ensures newBlock.nonce == old(newBlock.nonce) ==> newBlock.hash == old(newBlock.hash)
      ensures newBlock.nonce > old(newBlock.nonce) ==> newBlock.hash == newBlock.CalculateHash(p)
      ensures (mined && newBlock !in old(chain) && old(ChainValid(p, chain))
               && newBlock.nonce > old(newBlock.nonce)) ==> ChainValid(p, chain)
    {
      newBlock.previousHash := GetLatestBlock().hash;
      newBlock.difficulty := difficulty;
      mined := newBlock.MineBlock(p, newBlock.difficulty, fuel);
      if mined {
        chain := chain + [newBlock];
      }
    }

    /** isValid: a read-only scan from the second block on, stopping at the
        first block with a stale hash or a broken link. */
    method IsValid(p: Primitives) returns (r: bool)
      ensures r == ChainValid(p, chain)
    {
      var i := 1;
      while i < |chain|
        invariant 1 <= i && (i <= |chain| || |chain| == 0)
        invariant i <= |chain| ==> ChainValid(p, chain[..i])
      {
        var currentBlock := chain[i];
        var previousBlock := chain[i - 1];
        if currentBlock.hash != currentBlock.CalculateHash(p) {
          ChainValidPrefix(p, chain, i + 1);
          return false;
        }
        if currentBlock.previousHash != previousBlock.hash {
          ChainValidPrefix(p, chain, i + 1);
          return false;
        }
        assert chain[..i + 1][..i] == chain[..i];
        i := i + 1;
      }
      assert |chain| >= 1 ==> chain[..i] == chain;
      r := true;
    }
  }

  /** The block createGenesisBlock builds. */
  predicate IsGenesis(p: Primitives, b: Block, genesisWalletAddress: string, reward: int, difficulty: nat, now: int)
    reads b, b.transactions
  {
    && b.index == 0 && b.timestamp == now && b.previousHash == "0" && b.difficulty == difficulty
    && b.nonce == 0 && b.hash == b.CalculateHash(p)
    && |b.transactions| == 1
    && b.transactions[0].sender == SYSTEM && b.transactions[0].recipient == genesisWalletAddress
    && b.transactions[0].amount == reward && b.transactions[0].signature == None
  }

  /** A chain of one block is valid whatever that block holds. */
  lemma SingleBlockChainValid(p: Primitives, b: Block)
    ensures ChainValid(p, [b])
  {
  }

  /** Validity is a property of each link: a valid chain extended by a block
      that holds its current hash and links to the tip stays valid, and only then. */
  lemma ChainValidSnoc(p: Primitives, chain: seq<Block>, b: Block)
    requires |chain| >= 1
    ensures ChainValid(p, chain + [b]) <==> ChainValid(p, chain) && LinkValid(p, chain[|chain| - 1], b)
  {
    var extended := chain + [b];
    assert extended[..|extended| - 1] == chain;
    assert extended[|extended| - 2] == chain[|chain| - 1] && extended[|extended| - 1] == b;
  }

  /** Every prefix of a valid chain is valid. */
  lemma {:induction false} ChainValidPrefix(p: Primitives, chain: seq<Block>, n: nat)
    requires n <= |chain|
    ensures ChainValid(p, chain) ==> ChainValid(p, chain[..n])
    decreases |chain|
  {
    if n < |chain| {
      assert chain[..|chain| - 1][..n] == chain[..n];
      ChainValidPrefix(p, chain[..|chain| - 1], n);
    } else {
      assert chain[..n] == chain;
    }
  }

  /** The chain is valid exactly when every block after the first holds its
      current hash and the hash of the block before it. */
  lemma {:induction false} ChainValidIff(p: Primitives, chain: seq<Block>)
    ensures ChainValid(p, chain) <==>
      forall i :: 1 <= i < |chain| ==> LinkValid(p, chain[i - 1], chain[i])
    decreases |chain|
  {
    if |chain| > 1 {
      var init := chain[..|chain| - 1];
      ChainValidIff(p, init);
      assert forall i :: 0 <= i < |init| ==> init[i] == chain[i];
    }
  }

  /** The stale-hash outcome of addBlock: a block whose search stopped at the
      hash it held before its link and difficulty were changed, a hash that
      is not its current one, makes the chain fail isValid. */
  lemma StaleBlockInvalidatesChain(p: Primitives, chain: seq<Block>, b: Block)
    requires |chain| >= 1 && b.hash != b.CalculateHash(p)
    ensures !ChainValid(p, chain + [b])
  {
    ChainValidSnoc(p, chain, b);
  }
}
