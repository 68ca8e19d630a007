/** The newer block (src/modules/blockchain/Block.ts): the transactions enter
    the hash through a Merkle root, and the block records its own difficulty. */
module MerkleBlock {
  import opened Results
  import opened Text
  import opened Crypto
  import opened Transactions

  /** The digest of the k-th pair of a level: `sha256(left + right)`, where
      the right one is the left one again past the end of the level. */
  function PairDigest(p: Primitives, hs: seq<string>, k: nat): string
    requires 2 * k < |hs|
  {
    var left := hs[2 * k];
    var right := if 2 * k + 1 < |hs| then hs[2 * k + 1] else left;
    p.sha256(left + right)
  }

  /** One level up the tree: adjacent hashes are paired and digested, an odd
      last hash is paired with itself. */
  function PairUp(p: Primitives, hs: seq<string>): (r: seq<string>)
    ensures |r| == (|hs| + 1) / 2
    ensures forall k :: 0 <= k < |r| ==> r[k] == PairDigest(p, hs, k)
    decreases |hs|
  {
    if |hs| == 0 then []
    else if |hs| == 1 then [p.sha256(hs[0] + hs[0])]
    else
      var rest := PairUp(p, hs[2..]);
      assert forall k :: 1 <= k < 1 + |rest| ==> hs[2..][2 * (k - 1)] == hs[2 * k];
      [p.sha256(hs[0] + hs[1])] + rest
  }

  /** The root over a list of leaf hashes: "" for none, the leaf itself for
      one, otherwise the root of the level above. */
  function RootOf(p: Primitives, hs: seq<string>): string
    decreases |hs|
  {
    if |hs| == 0 then ""
    else if |hs| == 1 then hs[0]
    else RootOf(p, PairUp(p, hs))
  }

  /** `transactions.map((tx) => tx.calculateHash())` */
  function TxHashes(p: Primitives, txs: seq<Transaction>): (hs: seq<string>)
    ensures |hs| == |txs|
    ensures forall i :: 0 <= i < |txs| ==> hs[i] == txs[i].CalculateHash(p)
  {
    seq(|txs|, i requires 0 <= i < |txs| => txs[i].CalculateHash(p))
  }

  function MerkleRoot(p: Primitives, txs: seq<Transaction>): string
  {
    RootOf(p, TxHashes(p, txs))
  }

  /** computeMerkleRoot: replaces the level by the one above until one hash remains. */
  method ComputeMerkleRoot(p: Primitives, transactions: seq<Transaction>) returns (root: string)
    ensures root == MerkleRoot(p, transactions)
  {
    if |transactions| == 0 {
      return "";
    }
    var hashes := TxHashes(p, transactions);
    while |hashes| > 1
      invariant |hashes| >= 1
      invariant RootOf(p, hashes) == MerkleRoot(p, transactions)
      decreases |hashes|
    {
      hashes := ComputeLevel(p, hashes);
    }
    root := hashes[0];
  }

  /** The inner `for` loop of computeMerkleRoot, stepping two hashes at a time. */
  method ComputeLevel(p: Primitives, hashes: seq<string>) returns (temp: seq<string>)
    ensures temp == PairUp(p, hashes)
  {
    temp := [];
    var i := 0;
    while i < |hashes|
      invariant i % 2 == 0 && 0 <= i <= |hashes| + 1
      invariant |temp| == i / 2
      invariant forall k :: 0 <= k < |temp| ==> temp[k] == PairDigest(p, hashes, k)
      decreases |hashes| - i
    {
      var left := hashes[i];
      var right := if i + 1 < |hashes| then hashes[i + 1] else left;
      temp := temp + [p.sha256(left + right)];
      i := i + 2;
    }
  }

  /** No transactions: the empty root. */
  lemma EmptyRoot(p: Primitives)
    ensures MerkleRoot(p, []) == ""
  {
  }

  /** One transaction: its own hash, not hashed again. */
  lemma SingleTransactionRoot(p: Primitives, t: Transaction)
    ensures MerkleRoot(p, [t]) == t.CalculateHash(p)
  {
  }

  /** From two leaves up the root is a digest, computed by the last level. */
  lemma {:induction false} RootIsDigest(p: Primitives, hs: seq<string>)
    requires |hs| >= 2
    ensures exists l, r :: RootOf(p, hs) == p.sha256(l + r)
    decreases |hs|
  {
    var up := PairUp(p, hs);
    if |up| == 1 {
      assert RootOf(p, hs) == p.sha256(hs[0] + hs[1]);
    } else {
      RootIsDigest(p, up);
    }
  }

  /** Repeating an odd last leaf does not change the level above. */
  lemma {:induction false} PairUpRepeatLast(p: Primitives, hs: seq<string>)
    requires |hs| % 2 == 1
    ensures PairUp(p, hs + [hs[|hs| - 1]]) == PairUp(p, hs)
  {
    var a := PairUp(p, hs + [hs[|hs| - 1]]);
    var b := PairUp(p, hs);
    assert |a| == |b|;
    forall k | 0 <= k < |a| ensures a[k] == b[k] {
      if 2 * k + 1 == |hs| {
        assert (hs + [hs[|hs| - 1]])[2 * k + 1] == hs[2 * k];
      }
    }
  }

  /** The pairing rule makes a list of three or more leaves with an odd count
      indistinguishable from the same list with its last leaf repeated. */
  lemma RepeatedLastLeafSameRoot(p: Primitives, hs: seq<string>)
    requires |hs| >= 3 && |hs| % 2 == 1
    ensures RootOf(p, hs + [hs[|hs| - 1]]) == RootOf(p, hs)
  {
    PairUpRepeatLast(p, hs);
  }

  /** The text whose digest is a block's hash:
      `${index}|${previousHash}|${timestamp}|${merkleRoot}|${nonce}|${difficulty}`. */
  function Preimage(index: int, previousHash: string, timestamp: int, merkleRoot: string, nonce: nat, difficulty: nat): string
  {
    Join([IntToString(index), previousHash, IntToString(timestamp), merkleRoot,
          IntToString(nonce), IntToString(difficulty)], '|')
  }

  /** The SHA-256 digest of the header text, for the given field values. */
  function BlockHash(p: Primitives, index: int, previousHash: string, timestamp: int,
                     transactions: seq<Transaction>, nonce: nat, difficulty: nat): string
  {
    p.sha256(Preimage(index, previousHash, timestamp, MerkleRoot(p, transactions), nonce, difficulty))
  }

  class Block {
    const index: int
    const timestamp: int
    const transactions: seq<Transaction>
    var previousHash: string
    var hash: string
    var nonce: nat
    var difficulty: nat

    constructor (p: Primitives, index: int, timestamp: int, transactions: seq<Transaction>,
                 previousHash: string, difficulty: nat)
      ensures this.index == index && this.timestamp == timestamp && this.transactions == transactions
      ensures this.previousHash == previousHash && this.difficulty == difficulty
      ensures nonce == 0 && hash == CalculateHash(p)
    {
      this.index := index;
      this.timestamp := timestamp;
      this.transactions := transactions;
      this.previousHash := previousHash;
      this.difficulty := difficulty;
      nonce := 0;
      new;
      hash := CalculateHash(p);
    }

    /** The hash the block would have with nonce `n` and its other fields as they are. */
    function HashWithNonce(p: Primitives, n: nat): string
      reads this`previousHash, this`difficulty
    {
      BlockHash(p, index, previousHash, timestamp, transactions, n, difficulty)
    }

    /** calculateHash: a function of the current field values only. */
    function CalculateHash(p: Primitives): string
      reads this`previousHash, this`difficulty, this`nonce
    {
      HashWithNonce(p, nonce)
    }

    /** What isValid returns (Success) or throws (Failure): false on a stale
      hash, before any transaction is consulted. */
    function Validity(p: Primitives): (r: Result<bool>)
      reads this, transactions
      ensures hash != CalculateHash(p) ==> r == Success(false)
      ensures r == Success(true) <==>
        (hash == CalculateHash(p) &&
         forall i :: 0 <= i < |transactions| && transactions[i].sender != SYSTEM ==>
           transactions[i].IsValid(p) == Success(true))
    {
      if hash != CalculateHash(p) then Success(false) else CheckTransactions(p, transactions)
    }

    /** isValid */
    method IsValid(p: Primitives) returns (r: Result<bool>)
      ensures r == Validity(p)
    {
      if hash != CalculateHash(p) {
        return Success(false);
      }
      for i := 0 to |transactions|
        invariant CheckTransactions(p, transactions[i..]) == CheckTransactions(p, transactions)
      {
        var tx := transactions[i];
        assert transactions[i..][1..] == transactions[i + 1..];
        if tx.sender != SYSTEM {
          var v := tx.IsValid(p);
          if v.Failure? {
            return Failure(v.error);
          }
          if !v.value {
            return Success(false);
          }
        }
      }
      r := Success(true);
    }

    /** mineBlock(difficulty), with at most `fuel` nonce increments: tests the
      hash it already holds, then increments the nonce and recomputes the
      hash until the hash starts with `difficulty` zeros. `mined` is false
      when the fuel ran out first, where the source would still be searching. */
    method MineBlock(p: Primitives, difficulty: nat, fuel: nat) returns (mined: bool)
      modifies this`nonce, this`hash
      ensures mined <==> StartsWith(hash, Zeros(difficulty))
      ensures old(nonce) <= nonce <= old(nonce) + fuel
      ensures !mined ==> nonce == old(nonce) + fuel
      ensures nonce == old(nonce) ==> hash == old(hash)
      ensures nonce > old(nonce) ==> hash == CalculateHash(p) && !StartsWith(old(hash), Zeros(difficulty))
      ensures forall n :: old(nonce) < n < nonce ==> !StartsWith(HashWithNonce(p, n), Zeros(difficulty))
      ensures difficulty == 0 ==> mined && nonce == old(nonce)
    {
      var targetPrefix := Zeros(difficulty);
      var steps := 0;
      ghost var prev, d := previousHash, this.difficulty;
      while !StartsWith(hash, targetPrefix) && steps < fuel
        invariant 0 <= steps <= fuel
        invariant nonce == old(nonce) + steps
        invariant steps == 0 ==> hash == old(hash)
        invariant steps > 0 ==> hash == BlockHash(p, index, prev, timestamp, transactions, nonce, d)
        invariant steps > 0 ==> !StartsWith(old(hash), targetPrefix)
        invariant forall n :: old(nonce) < n < nonce ==>
          !StartsWith(BlockHash(p, index, prev, timestamp, transactions, n, d), targetPrefix)
      {
        nonce := nonce + 1;
        hash := CalculateHash(p);
        steps := steps + 1;
      }
      mined := StartsWith(hash, targetPrefix);
    }
  }

  /** The transaction loop of isValid: it passes exactly when every
      non-coinbase transaction is valid, and otherwise returns false or throws
      as the first non-coinbase transaction that is not valid does. */
  function CheckTransactions(p: Primitives, txs: seq<Transaction>): (r: Result<bool>)
    reads txs
    ensures r == Success(true) <==>
      forall i :: 0 <= i < |txs| && txs[i].sender != SYSTEM ==> txs[i].IsValid(p) == Success(true)
    ensures r != Success(true) ==> exists i :: FirstInvalid(p, txs, i) && r == txs[i].IsValid(p)
    decreases |txs|
  {
    if |txs| == 0 then Success(true)
    else if txs[0].sender != SYSTEM && txs[0].IsValid(p) != Success(true) then
      assert FirstInvalid(p, txs, 0);
      txs[0].IsValid(p)
    else
      var r := CheckTransactions(p, txs[1..]);
      assert forall i :: 1 <= i < |txs| ==> txs[i] == txs[1..][i - 1];
      FirstInvalidShift(p, txs, r);
      r
  }

  /** `txs[i]` is a non-coinbase transaction that is not valid, and every
      non-coinbase transaction before it is. */
  ghost predicate FirstInvalid(p: Primitives, txs: seq<Transaction>, i: int)
    reads txs
  {
    && 0 <= i < |txs| && txs[i].sender != SYSTEM && txs[i].IsValid(p) != Success(true)
    && forall j :: 0 <= j < i && txs[j].sender != SYSTEM ==> txs[j].IsValid(p) == Success(true)
  }

  /** The first invalid transaction of the tail is the first of the whole
      list when the head is a coinbase or valid. */
  lemma FirstInvalidShift(p: Primitives, txs: seq<Transaction>, r: Result<bool>)
    requires |txs| > 0 && !(txs[0].sender != SYSTEM && txs[0].IsValid(p) != Success(true))
    requires r != Success(true) ==> exists i :: FirstInvalid(p, txs[1..], i) && r == txs[1..][i].IsValid(p)
    ensures r != Success(true) ==> exists i :: FirstInvalid(p, txs, i) && r == txs[i].IsValid(p)
  {
    if r == Success(true) {
      return;
    }
    var i :| FirstInvalid(p, txs[1..], i) && r == txs[1..][i].IsValid(p);
    assert forall j :: 1 <= j < |txs| ==> txs[j] == txs[1..][j - 1];
    assert FirstInvalid(p, txs, i + 1);
  }

  /** The check returns false only when the signature of some non-coinbase
      transaction fails to verify, and throws only when some non-coinbase
      transaction is unsigned or the verification of its signature throws. */
  lemma CheckTransactionsFailure(p: Primitives, txs: seq<Transaction>)
    ensures CheckTransactions(p, txs) == Success(false) ==>
      exists i :: 0 <= i < |txs| && txs[i].sender != SYSTEM && !txs[i].Unsigned() &&
        p.verify(txs[i].sender, txs[i].CalculateHash(p), txs[i].signature.value) == Success(false)
    ensures CheckTransactions(p, txs).Failure? ==>
      exists i :: 0 <= i < |txs| && txs[i].sender != SYSTEM &&
        (txs[i].Unsigned() || p.verify(txs[i].sender, txs[i].CalculateHash(p), txs[i].signature.value).Failure?)
  {
    if CheckTransactions(p, txs) != Success(true) {
      var i :| FirstInvalid(p, txs, i) && CheckTransactions(p, txs) == txs[i].IsValid(p);
    }
  }

  /** calculateHash is the digest of the template
      `${index}|${previousHash}|${timestamp}|${merkleRoot}|${nonce}|${difficulty}`
      over the current field values: the transactions enter the hash only
      through their Merkle root. */
  lemma BlockHashTemplate(p: Primitives, b: Block)
    ensures b.CalculateHash(p) ==
      p.sha256(IntToString(b.index) + "|" + b.previousHash + "|" + IntToString(b.timestamp) + "|" +
               MerkleRoot(p, b.transactions) + "|" + IntToString(b.nonce) + "|" + IntToString(b.difficulty))
  {
    PreimageTemplate(IntToString(b.index), b.previousHash, IntToString(b.timestamp),
                     MerkleRoot(p, b.transactions), IntToString(b.nonce), IntToString(b.difficulty));
  }

  /** Join with '|' over the six header fields, written out. */
  lemma PreimageTemplate(i: string, h: string, t: string, root: string, n: string, d: string)
    ensures Join([i, h, t, root, n, d], '|') == i + "|" + h + "|" + t + "|" + root + "|" + n + "|" + d
  {
    var fields := [i, h, t, root, n, d];
    // Join takes one field at a time, nesting to the right.
    assert Join(fields[4..], '|') == n + "|" + d by { assert fields[4..][1..] == [d]; }
    assert Join(fields[3..], '|') == root + "|" + (n + "|" + d) by { assert fields[3..][1..] == fields[4..]; }
    assert Join(fields[2..], '|') == t + "|" + (root + "|" + n + "|" + d) by { assert fields[2..][1..] == fields[3..]; }
    assert Join(fields[1..], '|') == h + "|" + (t + "|" + root + "|" + n + "|" + d) by { assert fields[1..][1..] == fields[2..]; }
    assert Join(fields, '|') == i + "|" + (h + "|" + t + "|" + root + "|" + n + "|" + d);
  }
}
