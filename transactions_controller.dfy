/** The funds-admission rule of `POST /transactions`
    (src/modules/blockchain/transactions.controller.ts). The wallet service the
    controller asks for the balance reads the chain of the blockchain service
    and the same pending pool the controller adds to (one shared instance), so
    the balance is `GetBalance` over those two. Persisting the transaction to
    the database is not part of this model. */
module Admission {
  import opened Results
  import opened Transactions
  import opened LegacyBlock
  import opened LegacyBlockchain
  import opened TransactionPool
  import opened Wallet
  import opened Ledger

  const InsufficientFunds := "Insufficient funds"
  const TransactionAdded := "Transaction added to pool"
  const NegativeAmount := "Amount must not be negative"

  class TransactionsController {
    const transactionPoolService: TransactionPoolService
    const blockchainService: BlockchainService

    constructor (transactionPoolService: TransactionPoolService, blockchainService: BlockchainService)
      ensures this.transactionPoolService == transactionPoolService
      ensures this.blockchainService == blockchainService
    {
      this.transactionPoolService := transactionPoolService;
      this.blockchainService := blockchainService;
    }

    /** The sender's balance as the wallet service computes it now. */
    function SenderBalance(sender: string): int
      reads this, blockchainService, blockchainService.blockchain, transactionPoolService
    {
      GetBalance(blockchainService.blockchain.chain, transactionPoolService.pending, sender)
    }

    /** addTransaction: refused with 'Insufficient funds' when the sender's
        confirmed-plus-pending balance is below the amount, and the pool is
        then untouched; otherwise one fresh unsigned transaction of the DTO's
        fields joins the end of the pool. */
    method AddTransaction(transactionDto: TxDto) returns (result: Result<string>)
      modifies transactionPoolService`pending
      ensures result.Failure? <==> old(SenderBalance(transactionDto.sender)) < transactionDto.amount
      ensures old(SenderBalance(transactionDto.sender)) == transactionDto.amount ==> result.Success?
      ensures result.Failure? ==>
        result.error == InsufficientFunds && transactionPoolService.pending == old(transactionPoolService.pending)
      ensures result.Success? ==> result.value == TransactionAdded && Admitted(old(transactionPoolService.pending),
        transactionPoolService.pending, transactionDto)
      ensures result.Success? ==> fresh(transactionPoolService.pending[|transactionPoolService.pending| - 1])
    {
      var balance := GetBalance(blockchainService.blockchain.chain, transactionPoolService.pending,
                                transactionDto.sender);
      if balance < transactionDto.amount {
        return Failure(InsufficientFunds);
      }
      var tx := new Transaction(transactionDto.sender, transactionDto.recipient, transactionDto.amount);
      transactionPoolService.AddTransaction(tx);
      result := Success(TransactionAdded);
    }

    /** addTransaction as evidently intended: amounts are never negative, so a
        negative transfer is refused before the funds check, and no
        transaction can move value from its recipient to its sender. A
        transfer of zero moves nothing and stays admissible. */
    method AddTransactionChecked(transactionDto: TxDto) returns (result: Result<string>)
      modifies transactionPoolService`pending
      ensures result.Failure? <==>
        transactionDto.amount < 0 || old(SenderBalance(transactionDto.sender)) < transactionDto.amount
      ensures transactionDto.amount < 0 ==> result == Failure(NegativeAmount)
      ensures transactionDto.amount >= 0 && result.Failure? ==> result == Failure(InsufficientFunds)
      ensures result.Failure? ==> transactionPoolService.pending == old(transactionPoolService.pending)
      ensures result.Success? ==> result.value == TransactionAdded && Admitted(old(transactionPoolService.pending),
        transactionPoolService.pending, transactionDto)
    {
      if transactionDto.amount < 0 {
        return Failure(NegativeAmount);
      }
      result := AddTransaction(transactionDto);
    }
  }

  /** `after` is `before` with one unsigned transaction of the DTO's fields at the end. */
  ghost predicate Admitted(before: seq<Transaction>, after: seq<Transaction>, dto: TxDto)
    reads if |after| > 0 then {after[|after| - 1]} else {}
  {
    && |after| == |before| + 1 && after[..|before|] == before
    && after[|before|].sender == dto.sender && after[|before|].recipient == dto.recipient
    && after[|before|].amount == dto.amount && after[|before|].signature == None
  }

  /** A pending transfer out of an address lowers its balance by the amount,
      so each admitted transfer shrinks what the next one may spend. */
  lemma PendingTransferReducesBalance(chain: seq<Block>, pending: seq<Transaction>, t: Transaction)
    requires t.sender != t.recipient
    ensures GetBalance(chain, pending + [t], t.sender) == GetBalance(chain, pending, t.sender) - t.amount
    ensures GetBalance(chain, pending + [t], t.recipient) == GetBalance(chain, pending, t.recipient) + t.amount
  {
    PendingAppend(pending, t, t.sender);
    PendingAppend(pending, t, t.recipient);
  }

  /** Admission never drives the sender below zero: a sender whose balance
      covers the amount still has a balance of at least zero afterwards. */
  lemma AdmittedSenderStaysSolvent(chain: seq<Block>, pending: seq<Transaction>, t: Transaction)
    requires GetBalance(chain, pending, t.sender) >= t.amount
    requires GetBalance(chain, pending, t.sender) >= 0
    ensures GetBalance(chain, pending + [t], t.sender) >= 0
  {
    PendingAppend(pending, t, t.sender);
  }

  /** As written, a negative amount passes the funds check of any sender with
      a balance of zero or more, and the admitted transaction lowers the
      recipient's balance: the sender takes value the recipient never sent. */
  lemma NegativeAmountDrainsRecipient(chain: seq<Block>, pending: seq<Transaction>, t: Transaction)
    requires t.amount < 0 && t.sender != t.recipient
    requires GetBalance(chain, pending, t.sender) >= 0
    ensures !(GetBalance(chain, pending, t.sender) < t.amount)
    ensures GetBalance(chain, pending + [t], t.recipient) < GetBalance(chain, pending, t.recipient)
    ensures GetBalance(chain, pending + [t], t.sender) > GetBalance(chain, pending, t.sender)
  {
    PendingTransferReducesBalance(chain, pending, t);
  }

  /** With the amount checked, an admitted transfer lowers no balance but the
      sender's, and the sender's only by the amount it covers. */
  lemma NonNegativeTransferHarmsNoOtherAddress(chain: seq<Block>, pending: seq<Transaction>, t: Transaction,
                                               address: string)
    requires t.amount >= 0 && address != t.sender
    ensures GetBalance(chain, pending + [t], address) >= GetBalance(chain, pending, address)
  {
    PendingAppend(pending, t, address);
  }
}
