/** A transfer of `amount` from `sender` to `recipient`, signed by the
    sender's key (src/modules/blockchain/classes/Transaction.ts). The newer
    Block.ts and the transaction pool use this class too. */
module Transactions {
  import opened Results
  import opened Text
  import opened Crypto

  /** The sender of coinbase (newly minted) transactions; they carry no signature. */
  const SYSTEM := "SYSTEM"

  const OtherWalletError := "You cannot sign transactions for other wallets!"
  const NoSignatureError := "No signature in this transaction"

  /** The text whose SHA-256 digest is the content hash: the three fields
      concatenated, with no separator between them. */
  function HashPreimage(sender: string, recipient: string, amount: int): string
  {
    sender + recipient + IntToString(amount)
  }

  class Transaction {
    // The source never reassigns these three after construction.
    const sender: string
    const recipient: string
    const amount: int
    /** DER signature in hex; None while the property is undefined. */
    var signature: Option<string>

    constructor (sender: string, recipient: string, amount: int)
      ensures this.sender == sender && this.recipient == recipient && this.amount == amount
      ensures signature == None
    {
      this.sender := sender;
      this.recipient := recipient;
      this.amount := amount;
      signature := None;
    }

    /** The content hash. It reads no mutable field, so the signature cannot affect it. */
    function CalculateHash(p: Primitives): string
    {
      p.sha256(HashPreimage(sender, recipient, amount))
    }

    /** The object as `JSON.stringify` renders it. */
    function Json(): (j: TxJson)
      reads this
    {
      TxJson(sender, recipient, amount, signature)
    }

    /** Signs the content hash with the given key, which must be the sender's. */
    method SignTransaction(p: Primitives, signingKey: KeyPair) returns (r: Result<()>)
      modifies this`signature
      ensures p.publicHex(signingKey.secret) != sender ==>
        r == Failure(OtherWalletError) && signature == old(signature)
      ensures p.publicHex(signingKey.secret) == sender ==>
        r == Success(()) && signature == Some(p.sign(signingKey.secret, CalculateHash(p)))
    {
      if p.publicHex(signingKey.secret) != sender {
        return Failure(OtherWalletError);
      }
      var hashTx := CalculateHash(p);
      signature := Some(p.sign(signingKey.secret, hashTx));
      r := Success(());
    }

    /** `!this.signature`: undefined or the empty string. */
    predicate Unsigned()
      reads this
    {
      signature == None || signature.value == ""
    }

    /** isValid: Success(b) when it returns b, Failure when it throws. It
        holds exactly for coinbase transactions and for signatures that verify;
        it throws for a missing signature or when verification throws. */
    function IsValid(p: Primitives): (r: Result<bool>)
      reads this
      ensures r == Success(true) <==>
        sender == SYSTEM || (!Unsigned() && p.verify(sender, CalculateHash(p), signature.value) == Success(true))
      ensures r == Success(false) ==>
        sender != SYSTEM && !Unsigned() && p.verify(sender, CalculateHash(p), signature.value) == Success(false)
      ensures r.Failure? ==>
        sender != SYSTEM && (Unsigned() || p.verify(sender, CalculateHash(p), signature.value).Failure?)
    {
      if sender == SYSTEM then Success(true)
      else if Unsigned() then Failure(NoSignatureError)
      else p.verify(sender, CalculateHash(p), signature.value)
    }
  }

  /** The content hash is a function of sender, recipient and amount alone:
      two transactions that agree on those hash alike, whatever their
      signatures hold. */
  lemma HashIgnoresSignature(p: Primitives, t1: Transaction, t2: Transaction)
    requires t1.sender == t2.sender && t1.recipient == t2.recipient && t1.amount == t2.amount
    ensures t1.CalculateHash(p) == t2.CalculateHash(p)
  {
  }

  /** A coinbase transaction is valid whatever its signature holds. */
  lemma CoinbaseIsValid(p: Primitives, t: Transaction)
    requires t.sender == SYSTEM
    ensures t.IsValid(p) == Success(true)
  {
  }

  /** An unsigned non-coinbase transaction makes isValid throw rather than return false. */
  lemma UnsignedTransactionThrows(p: Primitives, t: Transaction)
    requires t.sender != SYSTEM && (t.signature == None || t.signature == Some(""))
    ensures t.IsValid(p).Failure? && t.IsValid(p).error == NoSignatureError
  {
  }

  /** For a signed non-coinbase transaction, isValid returns or throws what
      the verification of the signature over the content hash under the
      sender's public key returns or throws. */
  lemma SignedValidityIsVerification(p: Primitives, t: Transaction)
    requires t.sender != SYSTEM && t.signature.Some? && t.signature.value != ""
    ensures t.IsValid(p) == p.verify(t.sender, t.CalculateHash(p), t.signature.value)
  {
  }

  /** Signing round trip: what a successful SignTransaction stores verifies,
      given the correctness of ECDSA. */
  lemma SignedTransactionIsValid(p: Primitives, t: Transaction, key: KeyPair)
    requires EcdsaCorrect(p)
    requires p.publicHex(key.secret) == t.sender
    requires t.signature == Some(p.sign(key.secret, t.CalculateHash(p)))
    ensures t.IsValid(p) == Success(true)
  {
  }

  /** The three fields are joined with no separator, so the content hash does
      not tell them apart: the transfer of 2 to "b1" and the transfer of 12 to
      "b" by the same sender hash alike, and a signature of one is a valid
      signature of the other. */
  lemma SignatureCarriesAcrossFieldBoundary(p: Primitives, t1: Transaction, t2: Transaction)
    requires t1.sender == t2.sender && t1.sender != SYSTEM
    requires t1.recipient == "b1" && t1.amount == 2
    requires t2.recipient == "b" && t2.amount == 12
    requires t1.signature == t2.signature
    ensures t1.CalculateHash(p) == t2.CalculateHash(p)
    ensures t1.IsValid(p) == t2.IsValid(p)
  {
    assert IntToString(2) == "2";
    assert IntToString(12) == "12";
    assert HashPreimage(t1.sender, "b1", 2) == t1.sender + "b12";
    assert HashPreimage(t2.sender, "b", 12) == t2.sender + "b12";
  }
}
