/** The node's ledger service (src/modules/blockchain/blockchain.service.ts):
    the older chain of classes/BlockChain.ts, the shared pending pool, block
    admission from peers, chain replacement and mining. Persistence, logging
    and broadcasting are not part of this model. */
module Ledger {
  import opened Results
  import opened Text
  import opened Crypto
  import opened Transactions
  import opened LegacyBlock
  import opened LegacyBlockchain
  import opened TransactionPool

  /** The reward of the coinbase transaction that opens every mined block. */
  const COINBASE_REWARD := 50

  const IndexNotSequential := "Block index is not sequential."
  const PreviousHashMismatch := "Previous hash mismatch."
  const InvalidBlockHash := "Invalid block hash."

  /** A transaction as a peer sends it. */
  datatype TxDto = TxDto(sender: string, recipient: string, amount: int)

  /** A block as a peer sends it; `data` holds its transactions. */
  datatype BlockDto = BlockDto(index: int, timestamp: int, data: seq<TxDto>, previousHash: string, hash: string)

  /** `{ success, message? }` */
  datatype ReceiveResult = ReceiveResult(success: bool, message: Option<string>)

  /** The transactions receiveBlock rebuilds from a DTO, as the hash sees
      them: the three fields, and no signature. */
  function DtoJson(data: seq<TxDto>): (js: seq<TxJson>)
    ensures |js| == |data|
    ensures forall i :: 0 <= i < |data| ==>
      js[i] == TxJson(data[i].sender, data[i].recipient, data[i].amount, None)
  {
    seq(|data|, i requires 0 <= i < |data| => TxJson(data[i].sender, data[i].recipient, data[i].amount, None))
  }

  /** The hash receiveBlock recomputes for a DTO: a fresh block, nonce 0. */
  function DtoHash(p: Primitives, dto: BlockDto): string
  {
    BlockHash(p, dto.index, dto.previousHash, dto.timestamp, DtoJson(dto.data), 0)
  }

  /** validateChain's check of one link: the stored hash must be the hash of
      a fresh block with the same fields, whose nonce is 0, and the previous
      hash must be the hash of the block before. */
  predicate RecomputedLinkValid(p: Primitives, previous: Block, current: Block)
    reads previous, current, current.transactions
  {
    current.hash == current.HashWithNonce(p, 0) && current.previousHash == previous.hash
  }

  /** What validateChain accepts. */
  predicate ServiceChainValid(p: Primitives, chain: seq<Block>)
    reads chain, TxObjects(chain)
    decreases |chain|
  {
    |chain| <= 1 ||
    (ServiceChainValid(p, chain[..|chain| - 1]) && RecomputedLinkValid(p, chain[|chain| - 2], chain[|chain| - 1]))
  }

  class BlockchainService {
    const blockchain: Blockchain
    /** The pool shared with the wallet service and the transactions controller. */
    const transactionPool: TransactionPoolService

    ghost predicate Valid()
      reads this, blockchain
    {
      blockchain.Valid()
    }

    /** A new service starts a chain of difficulty 2. */
    constructor (p: Primitives, transactionPool: TransactionPoolService, now: int)
      ensures Valid() && fresh(blockchain) && this.transactionPool == transactionPool
      ensures |blockchain.chain| == 1 && blockchain.difficulty == 2 && IsGenesis(p, blockchain.chain[0], now)
    {
      blockchain := new Blockchain(p, now, 2);
      this.transactionPool := transactionPool;
    }

    /** validateChain: a read-only scan from the second block on that stops
        at the first block whose hash is not the one a fresh copy of it
        (same fields, nonce 0) computes, or whose link to the block before is
        broken. */
    method ValidateChain(p: Primitives, chain: seq<Block>) returns (r: bool)
      ensures r == ServiceChainValid(p, chain)
    {
      var i := 1;
      while i < |chain|
        invariant 1 <= i && (i <= |chain| || |chain| == 0)
        invariant i <= |chain| ==> ServiceChainValid(p, chain[..i])
      {
        var currentBlock := chain[i];
        var previousBlock := chain[i - 1];
        // The hash of a fresh copy of the block: the same fields, nonce 0.
        var recalculatedHash := currentBlock.HashWithNonce(p, 0);
        if currentBlock.hash != recalculatedHash {
          ServiceChainValidPrefix(p, chain, i + 1);
          return false;
        }
        if currentBlock.previousHash != previousBlock.hash {
          ServiceChainValidPrefix(p, chain, i + 1);
          return false;
        }
        assert chain[..i + 1][..i] == chain[..i];
        i := i + 1;
      }
      assert |chain| >= 1 ==> chain[..i] == chain;
      r := true;
    }

    /** validateChain as evidently intended: the copy takes the block's own
        nonce before its hash is recomputed, so that a mined block passes. It
        accepts exactly what the chain's own isChainValid accepts. */
    method ValidateChainCorrected(p: Primitives, chain: seq<Block>) returns (r: bool)
      ensures r == ChainValid(p, chain)
    {
      var i := 1;
      while i < |chain|
        invariant 1 <= i && (i <= |chain| || |chain| == 0)
        invariant i <= |chain| ==> ChainValid(p, chain[..i])
      {
        var currentBlock := chain[i];
        var previousBlock := chain[i - 1];
        // The hash of a copy that carries the block's own nonce.
        var recalculatedHash := currentBlock.HashWithNonce(p, currentBlock.nonce);
        if currentBlock.hash != recalculatedHash {
          ChainValidPrefix(p, chain, i + 1);
          return false;
        }
        if currentBlock.previousHash != previousBlock.hash {
          ChainValidPrefix(p, chain, i + 1);
          return false;
        }
        assert chain[..i + 1][..i] == chain[..i];
        i := i + 1;
      }
      assert |chain| >= 1 ==> chain[..i] == chain;
      r := true;
    }

    /** isChainValid: a given chain (any array, the empty one included) goes to
        validateChain; with no argument the node's own chain is checked by the
        chain's own isChainValid. */
    method IsChainValid(p: Primitives, chain: Option<seq<Block>>) returns (r: bool)
      requires Valid()
      ensures chain.Some? ==> r == ServiceChainValid(p, chain.value)
      ensures chain.None? ==> r == ChainValid(p, blockchain.chain)
    {
      if chain.Some? {
        r := ValidateChain(p, chain.value);
      } else {
        r := blockchain.IsChainValid(p);
      }
    }

    /** receiveBlock: checks the index, then the link, then the hash of the
        block rebuilt from the DTO with unsigned transactions and nonce 0; on
        success appends that rebuilt block. */
    method ReceiveBlock(p: Primitives, blockDto: BlockDto) returns (result: ReceiveResult)
      requires Valid()
      modifies blockchain
      ensures Valid() && blockchain.difficulty == old(blockchain.difficulty)
      ensures result == ReceiveResult(
        Verdict(p, old(blockchain.GetLatestBlock().index), old(blockchain.GetLatestBlock().hash), blockDto).None?,
        Verdict(p, old(blockchain.GetLatestBlock().index), old(blockchain.GetLatestBlock().hash), blockDto))
      ensures !result.success ==> blockchain.chain == old(blockchain.chain)
      ensures result.success ==>
        blockchain.chain == old(blockchain.chain) + [blockchain.GetLatestBlock()] &&
        fresh(blockchain.GetLatestBlock()) && BuiltFrom(p, blockchain.GetLatestBlock(), blockDto)
    {
      var latestBlock := blockchain.GetLatestBlock();
      if blockDto.index != latestBlock.index + 1 {
        return ReceiveResult(false, Some(IndexNotSequential));
      }
      if blockDto.previousHash != latestBlock.hash {
        return ReceiveResult(false, Some(PreviousHashMismatch));
      }
      var transactions := BuildTransactions(blockDto.data);
      // The hash a fresh block of these fields computes: nonce 0.
      var recalculatedHash := BlockHash(p, blockDto.index, blockDto.previousHash, blockDto.timestamp,
                                        Snapshot(transactions), 0);
      if recalculatedHash != blockDto.hash {
        return ReceiveResult(false, Some(InvalidBlockHash));
      }
      var received := new Block(p, blockDto.index, blockDto.timestamp, transactions, blockDto.previousHash);
      assert Snapshot(transactions) == DtoJson(blockDto.data);
      assert BuiltFrom(p, received, blockDto);
      blockchain.chain := blockchain.chain + [received];
      result := ReceiveResult(true, None);
    }

    /** replaceChain: adopts `newChain` only when it is strictly longer than
        the local chain and validateChain accepts it. */
    method ReplaceChain(p: Primitives, newChain: seq<Block>) returns (r: bool)
      requires Valid()
      modifies blockchain
      ensures Valid() && blockchain.difficulty == old(blockchain.difficulty)
      ensures r <==> |newChain| > |old(blockchain.chain)| && old(ServiceChainValid(p, newChain))
      ensures blockchain.chain == if r then newChain else old(blockchain.chain)
      ensures r ==> ServiceChainValid(p, blockchain.chain)
    {
      if |newChain| <= |blockchain.chain| {
        return false;
      }
      var valid := ValidateChain(p, newChain);
      // Validation changed nothing: its verdict is about the chain as given.
      assert forall t :: t in TxObjects(newChain) ==> unchanged(t);
      assert forall b :: b in newChain ==> unchanged(b);
      if !valid {
        return false;
      }
      blockchain.chain := newChain;
      // Only the chain object changed: the blocks and transactions are as validated.
      assert forall t :: t in TxObjects(newChain) ==> unchanged(t);
      assert forall b :: b in newChain ==> unchanged(b);
      r := true;
    }

    /** The chain-building part of minePendingTransactions: a block holding
        the coinbase reward for the miner followed by the pool snapshot, at
        index `|chain|` and linked to the tip, mined and appended; then the
        snapshot leaves the pool. The block is built, linked, mined and
        appended by the same steps as addBlock. `mined` is false when the fuel
        ran out, and then neither the chain nor the pool changes. */
    method MinePendingTransactions(p: Primitives, minerAddress: string, now: int, fuel: nat)
      returns (newBlock: Block, mined: bool)
      requires Valid()
      modifies blockchain, transactionPool`pending
      ensures Valid() && blockchain.difficulty == old(blockchain.difficulty)
      ensures fresh(newBlock) && newBlock.index == |old(blockchain.chain)| && newBlock.timestamp == now
      ensures |newBlock.transactions| == |old(transactionPool.pending)| + 1
      ensures fresh(newBlock.transactions[0]) && newBlock.transactions[0].signature == None
      ensures newBlock.transactions[0].sender == SYSTEM && newBlock.transactions[0].recipient == minerAddress
      ensures newBlock.transactions[0].amount == COINBASE_REWARD
      ensures newBlock.transactions[1..] == old(transactionPool.pending)
      ensures newBlock.previousHash == old(blockchain.GetLatestBlock().hash)
      ensures blockchain.chain == if mined then old(blockchain.chain) + [newBlock] else old(blockchain.chain)
      ensures mined ==> StartsWith(newBlock.hash, Zeros(blockchain.difficulty)) && newBlock.hash == newBlock.CalculateHash(p)
      ensures mined ==> transactionPool.pending == Without(old(transactionPool.pending), old(transactionPool.pending)) == []
      ensures !mined ==> transactionPool.pending == old(transactionPool.pending)
    {
      var coinbaseTx := new Transaction(SYSTEM, minerAddress, COINBASE_REWARD);
      var pendingTx := transactionPool.GetPendingTransactions();
      var blockTransactions := [coinbaseTx] + pendingTx;
      newBlock, mined := AddBlock(p, blockTransactions, now, fuel);
      if mined {
        transactionPool.ClearTransactions(pendingTx);
        WithoutAll(pendingTx, pendingTx);
      }
    }

    /** addBlock: a block of the given transactions at index `|chain|`, linked
        to the tip, mined and appended. */
    method AddBlock(p: Primitives, transactions: seq<Transaction>, now: int, fuel: nat)
      returns (newBlock: Block, mined: bool)
      requires Valid()
      modifies blockchain
      ensures Valid() && blockchain.difficulty == old(blockchain.difficulty)
      ensures fresh(newBlock) && newBlock.index == |old(blockchain.chain)| && newBlock.timestamp == now
      ensures newBlock.transactions == transactions
      ensures newBlock.previousHash == old(blockchain.GetLatestBlock().hash)
      ensures blockchain.chain == if mined then old(blockchain.chain) + [newBlock] else old(blockchain.chain)
      ensures mined ==> StartsWith(newBlock.hash, Zeros(blockchain.difficulty)) && newBlock.hash == newBlock.CalculateHash(p)
      ensures (mined && old(ChainValid(p, blockchain.chain))) ==> ChainValid(p, blockchain.chain)
    {
      newBlock := new Block(p, |blockchain.chain|, now, transactions, blockchain.GetLatestBlock().hash);
      ghost var js, prev := Snapshot(transactions), newBlock.previousHash;
      assert forall t :: t in TxObjects(blockchain.chain) ==> unchanged(t);
      assert forall b :: b in blockchain.chain ==> unchanged(b);
      mined := blockchain.AddBlock(p, newBlock, fuel);
      assert newBlock.nonce == 0 ==> newBlock.hash == BlockHash(p, newBlock.index, prev, now, js, 0);
      assert Snapshot(transactions) == js;
    }
  }

  /** receiveBlock's checks in their order: the message of the first that
      fails, or None when the block is admitted. */
  function Verdict(p: Primitives, tipIndex: int, tipHash: string, dto: BlockDto): (m: Option<string>)
    ensures m == None <==> dto.index == tipIndex + 1 && dto.previousHash == tipHash && DtoHash(p, dto) == dto.hash
    ensures dto.index != tipIndex + 1 ==> m == Some(IndexNotSequential)
    ensures dto.index == tipIndex + 1 && dto.previousHash != tipHash ==> m == Some(PreviousHashMismatch)
  {
    if dto.index != tipIndex + 1 then Some(IndexNotSequential)
    else if dto.previousHash != tipHash then Some(PreviousHashMismatch)
    else if DtoHash(p, dto) != dto.hash then Some(InvalidBlockHash)
    else None
  }

  /** `blockDto.data.map((txDto) => new Transaction(...))`: fresh, unsigned. */
  method BuildTransactions(data: seq<TxDto>) returns (transactions: seq<Transaction>)
    ensures |transactions| == |data|
    ensures forall i :: 0 <= i < |data| ==> fresh(transactions[i])
    ensures Snapshot(transactions) == DtoJson(data)
  {
    transactions := [];
    for i := 0 to |data|
      invariant |transactions| == i
      invariant forall k :: 0 <= k < i ==> fresh(transactions[k])
      invariant forall k :: 0 <= k < i ==>
        transactions[k].Json() == TxJson(data[k].sender, data[k].recipient, data[k].amount, None)
    {
      var tx := new Transaction(data[i].sender, data[i].recipient, data[i].amount);
      transactions := transactions + [tx];
    }
  }

  /** `b` is the block receiveBlock builds from `dto`: the DTO's fields, its
      transactions unsigned, nonce 0, and a hash that is both the DTO's hash
      and the block's own current hash. */
  predicate BuiltFrom(p: Primitives, b: Block, dto: BlockDto)
    reads b, b.transactions
  {
    && b.index == dto.index && b.timestamp == dto.timestamp && b.previousHash == dto.previousHash
    && Snapshot(b.transactions) == DtoJson(dto.data)
    && b.nonce == 0 && b.hash == dto.hash && b.hash == b.CalculateHash(p)
  }

  /** A block receiveBlock admits keeps the chain as valid as it was, under
      validateChain and under the chain's own check alike: it links to the tip
      and, having nonce 0, holds the hash both checks recompute. */
  lemma ReceivedBlockKeepsChainValid(p: Primitives, chain: seq<Block>, b: Block, dto: BlockDto)
    requires |chain| >= 1 && BuiltFrom(p, b, dto) && dto.previousHash == chain[|chain| - 1].hash
    ensures ServiceChainValid(p, chain + [b]) <==> ServiceChainValid(p, chain)
    ensures ChainValid(p, chain + [b]) <==> ChainValid(p, chain)
  {
    ChainValidSnoc(p, chain, b);
    ServiceChainValidSnoc(p, chain, b);
  }

  /** Every prefix of a chain validateChain accepts is accepted. */
  lemma {:induction false} ServiceChainValidPrefix(p: Primitives, chain: seq<Block>, n: nat)
    requires n <= |chain|
    ensures ServiceChainValid(p, chain) ==> ServiceChainValid(p, chain[..n])
    decreases |chain|
  {
    if n < |chain| {
      assert chain[..|chain| - 1][..n] == chain[..n];
      ServiceChainValidPrefix(p, chain[..|chain| - 1], n);
    } else {
      assert chain[..n] == chain;
    }
  }

  /** validateChain accepts exactly the chains where every block after the
      first holds its nonce-0 hash and the hash of the block before it. */
  lemma {:induction false} ServiceChainValidIff(p: Primitives, chain: seq<Block>)
    ensures ServiceChainValid(p, chain) <==>
      forall i :: 1 <= i < |chain| ==> RecomputedLinkValid(p, chain[i - 1], chain[i])
    decreases |chain|
  {
    if |chain| > 1 {
      var init := chain[..|chain| - 1];
      ServiceChainValidIff(p, init);
      assert forall i :: 0 <= i < |init| ==> init[i] == chain[i];
    }
  }

  /** Chains of zero or one block are accepted whatever they hold. */
  lemma ShortChainsAccepted(p: Primitives, chain: seq<Block>)
    requires |chain| <= 1
    ensures ServiceChainValid(p, chain)
  {
  }

  lemma ServiceChainValidSnoc(p: Primitives, chain: seq<Block>, b: Block)
    requires |chain| >= 1
    ensures ServiceChainValid(p, chain + [b]) <==>
      ServiceChainValid(p, chain) && RecomputedLinkValid(p, chain[|chain| - 1], b)
  {
    assert (chain + [b])[..|chain|] == chain;
  }

  /** Where every block after the genesis has nonce 0, validateChain and the
      chain's own isChainValid agree. */
  lemma {:induction false} ChecksAgreeAtNonceZero(p: Primitives, chain: seq<Block>)
    requires forall i :: 1 <= i < |chain| ==> chain[i].nonce == 0
    ensures ServiceChainValid(p, chain) <==> ChainValid(p, chain)
    decreases |chain|
  {
    if |chain| > 1 {
      ChecksAgreeAtNonceZero(p, chain[..|chain| - 1]);
    }
  }

  /** As written, validateChain rejects a mined block: a block found at a
      nonce whose hash meets the difficulty, while the nonce-0 hash of the
      same fields does not, fails the recomputation, so every chain holding
      such a block is refused even though the chain's own check accepts it. */
  lemma MinedBlockRejected(p: Primitives, chain: seq<Block>, i: nat, difficulty: nat)
    requires 1 <= i < |chain|
    requires StartsWith(chain[i].hash, Zeros(difficulty))
    requires !StartsWith(chain[i].HashWithNonce(p, 0), Zeros(difficulty))
    ensures !ServiceChainValid(p, chain)
  {
    ServiceChainValidIff(p, chain);
  }
}
