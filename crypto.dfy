/** The cryptographic and serialisation primitives the ledger calls into:
    SHA-256 (Node's `createHash('sha256')`, hex digest), ECDSA over secp256k1
    (the `elliptic` package), AES-256-CBC decryption and `JSON.stringify` of
    a transaction list. Their internals are not part of this model: each is an
    arbitrary function, and every property proved here holds for every
    choice of them unless a lemma states an assumption about them. Those the
    source lets throw return a `Result`, with `Failure` for the throw. */
module Crypto {
  import opened Results

  /** What `JSON.stringify` sees of a transaction object: its own enumerable
      fields, with `signature` omitted while it is undefined. */
  datatype TxJson = TxJson(sender: string, recipient: string, amount: int, signature: Option<string>)

  /** An elliptic-curve key pair, known by its private part. */
  datatype KeyPair = KeyPair(secret: string)

  datatype Primitives = Primitives(
    /** hex digest of SHA-256 over the UTF-8 text */
    sha256: string -> string,
    /** `keyPair.getPublic('hex')` */
    publicHex: string -> string,
    /** `keyPair.sign(msgHash).toDER('hex')`, from the private key and the message hash */
    sign: (string, string) -> string,
    /** `ec.keyFromPublic(publicHex, 'hex').verify(msgHash, signature)`; Failure
        when `elliptic` throws, as it does for a key that is not an encoded
        curve point or a signature that is not well-formed DER */
    verify: (string, string, string) -> Result<bool>,
    /** `JSON.stringify(transactions)` */
    stringify: seq<TxJson> -> string,
    /** AES-256-CBC decryption from (key hex, iv hex, ciphertext hex); Failure when it throws */
    aesDecrypt: (string, string, string) -> Result<string>)

  /** The correctness of ECDSA that the signing round trip depends on: a
      signature made with a private key verifies under its public key, and a
      DER signature is never the empty string. */
  ghost predicate EcdsaCorrect(p: Primitives)
  {
    forall k, h :: p.verify(p.publicHex(k), h, p.sign(k, h)) == Success(true) && p.sign(k, h) != ""
  }
}
