/** The older block (src/modules/blockchain/classes/Block.ts), which the
    blockchain service uses: the transaction list enters the hash through its
    JSON serialisation, and there is no difficulty field. */
module LegacyBlock {
  import opened Text
  import opened Crypto
  import opened Transactions

  /** What `JSON.stringify(this.transactions)` sees: each transaction's
      fields as they are now, signature included once it is set. */
  function Snapshot(txs: seq<Transaction>): (js: seq<TxJson>)
    reads txs
    ensures |js| == |txs|
    ensures forall i :: 0 <= i < |txs| ==> js[i] == txs[i].Json()
  {
    if |txs| == 0 then [] else [txs[0].Json()] + Snapshot(txs[1..])
  }

  /** The text whose digest is a block's hash:
      `${index}|${previousHash}|${timestamp}|${JSON.stringify(transactions)}|${nonce}`. */
  function Preimage(index: int, previousHash: string, timestamp: int, json: string, nonce: nat): string
  {
    Join([IntToString(index), previousHash, IntToString(timestamp), json, IntToString(nonce)], '|')
  }

  /** The SHA-256 digest of the header text, for the given field values. */
  function BlockHash(p: Primitives, index: int, previousHash: string, timestamp: int,
                     transactions: seq<TxJson>, nonce: nat): string
  {
    p.sha256(Preimage(index, previousHash, timestamp, p.stringify(transactions), nonce))
  }

  class Block {
    const index: int
    const timestamp: int
    const transactions: seq<Transaction>
    var previousHash: string
    var hash: string
    var nonce: nat

    /** `previousHash` defaults to the empty string. */
    constructor (p: Primitives, index: int, timestamp: int, transactions: seq<Transaction>,
                 previousHash: string := "")
      ensures this.index == index && this.timestamp == timestamp && this.transactions == transactions
      ensures this.previousHash == previousHash
      ensures nonce == 0 && hash == CalculateHash(p)
    {
      this.index := index;
      this.timestamp := timestamp;
      this.transactions := transactions;
      this.previousHash := previousHash;
      nonce := 0;
      new;
      hash := CalculateHash(p);
    }

    /** The hash the block would have with nonce `n` and its other fields as they are. */
    function HashWithNonce(p: Primitives, n: nat): string
      reads this`previousHash, transactions
    {
      BlockHash(p, index, previousHash, timestamp, Snapshot(transactions), n)
    }

    /** calculateHash: a function of the current field values, including the
        current signatures of the transactions. */
    function CalculateHash(p: Primitives): string
      reads this`previousHash, this`nonce, transactions
    {
      HashWithNonce(p, nonce)
    }

    /** mineBlock(difficulty), with at most `fuel` nonce increments: tests the
        hash it already holds, then increments the nonce by one and recomputes
        the hash until the hash starts with `difficulty` zeros. `mined` is false
        when the fuel ran out first, where the source would still be searching. */
    method MineBlock(p: Primitives, difficulty: nat, fuel: nat) returns (mined: bool)
      modifies this`nonce, this`hash
      ensures mined <==> StartsWith(hash, Zeros(difficulty))
      ensures old(nonce) <= nonce <= old(nonce) + fuel
      ensures !mined ==> nonce == old(nonce) + fuel
      ensures nonce == old(nonce) ==> hash == old(hash)
      ensures nonce > old(nonce) ==> hash == CalculateHash(p) && !StartsWith(old(hash), Zeros(difficulty))
      ensures forall n :: old(nonce) < n < nonce ==> !StartsWith(HashWithNonce(p, n), Zeros(difficulty))
      ensures difficulty == 0 ==> mined && nonce == old(nonce)
    {
      var targetPrefix := Zeros(difficulty);
      var steps := 0;
      ghost var prev, js := previousHash, Snapshot(transactions);
      while !StartsWith(hash, targetPrefix) && steps < fuel
        invariant 0 <= steps <= fuel
        invariant nonce == old(nonce) + steps
        invariant steps == 0 ==> hash == old(hash)
        invariant steps > 0 ==> hash == BlockHash(p, index, prev, timestamp, js, nonce)
        invariant steps > 0 ==> !StartsWith(old(hash), targetPrefix)
        invariant forall n :: old(nonce) < n < nonce ==>
          !StartsWith(BlockHash(p, index, prev, timestamp, js, n), targetPrefix)
      {
        nonce := nonce + 1;
        hash := CalculateHash(p);
        steps := steps + 1;
      }
      mined := StartsWith(hash, targetPrefix);
    }
  }

  /** calculateHash is the digest of the template
      `${index}|${previousHash}|${timestamp}|${JSON.stringify(transactions)}|${nonce}`
      over the current field values, the transactions serialised with their
      current signatures. */
  lemma BlockHashTemplate(p: Primitives, b: Block)
    ensures b.CalculateHash(p) ==
      p.sha256(IntToString(b.index) + "|" + b.previousHash + "|" + IntToString(b.timestamp) + "|" +
               p.stringify(Snapshot(b.transactions)) + "|" + IntToString(b.nonce))
  {
    PreimageTemplate(IntToString(b.index), b.previousHash, IntToString(b.timestamp),
                     p.stringify(Snapshot(b.transactions)), IntToString(b.nonce));
  }

  /** Join with '|' over the five header fields, written out. */
  lemma PreimageTemplate(i: string, h: string, t: string, json: string, n: string)
    ensures Join([i, h, t, json, n], '|') == i + "|" + h + "|" + t + "|" + json + "|" + n
  {
    var fields := [i, h, t, json, n];
    // Join takes one field at a time, nesting to the right.
    assert Join(fields[3..], '|') == json + "|" + n by { assert fields[3..][1..] == [n]; }
    assert Join(fields[2..], '|') == t + "|" + (json + "|" + n) by { assert fields[2..][1..] == fields[3..]; }
    assert Join(fields[1..], '|') == h + "|" + (t + "|" + json + "|" + n) by { assert fields[1..][1..] == fields[2..]; }
    assert Join(fields, '|') == i + "|" + (h + "|" + t + "|" + json + "|" + n);
  }
}
