/** The accounting and format checks of the wallet service
    (src/modules/wallet/wallet.service.ts). The service reads the chain of the
    blockchain service and the pending pool; here both are parameters, and the
    configured encryption key is an optional string. */
module Wallet {
  import opened Results
  import opened Text
  import opened Crypto
  import opened Transactions
  import opened LegacyBlock

  /** What one transaction does to the balance of `address`: its amount is
      added when the address receives it and taken away when the address sends it. */
  function Delta(t: Transaction, address: string): (d: int)
    ensures t.sender != address && t.recipient != address ==> d == 0
    ensures t.sender == address && t.recipient == address ==> d == 0
    ensures t.sender != address && t.recipient == address ==> d == t.amount
    ensures t.sender == address && t.recipient != address ==> d == -t.amount
  {
    var received := if t.recipient == address then t.amount else 0;
    var sent := if t.sender == address then t.amount else 0;
    received - sent
  }

  /** A left fold over the transactions, as `reduce` runs it, from `balance`. */
  function Fold(balance: int, txs: seq<Transaction>, address: string): int
    decreases |txs|
  {
    if |txs| == 0 then balance else Fold(balance + Delta(txs[0], address), txs[1..], address)
  }

  /** calculateConfirmedBalance: the fold over the blocks, each block's
      transactions in order, starting from 0. */
  function ConfirmedFold(balance: int, chain: seq<Block>, address: string): int
    decreases |chain|
  {
    if |chain| == 0 then balance
    else ConfirmedFold(Fold(balance, chain[0].transactions, address), chain[1..], address)
  }

  /** The confirmed balance is the pending rule applied to every transaction
      of the chain: what the address received on the chain minus what it sent. */
  function ConfirmedBalance(chain: seq<Block>, address: string): (b: int)
    ensures b == Received(AllTransactions(chain), address) - Sent(AllTransactions(chain), address)
  {
    ConfirmedFoldFlattens(0, chain, address);
    FoldIsReceivedMinusSent(0, AllTransactions(chain), address);
    ConfirmedFold(0, chain, address)
  }

  /** calculatePendingBalance: the same rule over the pool snapshot, which
      comes to what the address receives in the pool minus what it sends. */
  function PendingBalance(pending: seq<Transaction>, address: string): (b: int)
    ensures b == Received(pending, address) - Sent(pending, address)
  {
    FoldIsReceivedMinusSent(0, pending, address);
    Fold(0, pending, address)
  }

  /** getBalance: confirmed plus pending, which is what the address received
      minus what it sent over the chain's transactions followed by the pool. */
  function GetBalance(chain: seq<Block>, pending: seq<Transaction>, address: string): (b: int)
    ensures b == Received(AllTransactions(chain) + pending, address) - Sent(AllTransactions(chain) + pending, address)
  {
    var confirmed := AllTransactions(chain);
    FoldIsReceivedMinusSent(0, confirmed + pending, address);
    FoldAppend(0, confirmed, pending, address);
    FoldIsReceivedMinusSent(0, confirmed, address);
    FoldIsReceivedMinusSent(Fold(0, confirmed, address), pending, address);
    ConfirmedBalance(chain, address) + PendingBalance(pending, address)
  }

  /** Everything the address received, summed. */
  function Received(txs: seq<Transaction>, address: string): int
    decreases |txs|
  {
    if |txs| == 0 then 0
    else (if txs[0].recipient == address then txs[0].amount else 0) + Received(txs[1..], address)
  }

  /** Everything the address sent, summed. */
  function Sent(txs: seq<Transaction>, address: string): int
    decreases |txs|
  {
    if |txs| == 0 then 0
    else (if txs[0].sender == address then txs[0].amount else 0) + Sent(txs[1..], address)
  }

  /** The transactions of all blocks, in chain order. */
  function AllTransactions(chain: seq<Block>): seq<Transaction>
    decreases |chain|
  {
    if |chain| == 0 then [] else chain[0].transactions + AllTransactions(chain[1..])
  }

  /** The fold computes the starting balance plus what was received minus what was sent. */
  lemma {:induction false} FoldIsReceivedMinusSent(balance: int, txs: seq<Transaction>, address: string)
    ensures Fold(balance, txs, address) == balance + Received(txs, address) - Sent(txs, address)
    decreases |txs|
  {
    if |txs| > 0 {
      FoldIsReceivedMinusSent(balance + Delta(txs[0], address), txs[1..], address);
    }
  }

  /** The fold over two lists in a row is the fold over their concatenation. */
  lemma {:induction false} FoldAppend(balance: int, xs: seq<Transaction>, ys: seq<Transaction>, address: string)
    ensures Fold(balance, xs + ys, address) == Fold(Fold(balance, xs, address), ys, address)
    decreases |xs|
  {
    if |xs| > 0 {
      assert (xs + ys)[1..] == xs[1..] + ys;
      FoldAppend(balance + Delta(xs[0], address), xs[1..], ys, address);
    } else {
      assert xs + ys == ys;
    }
  }

  lemma {:induction false} ConfirmedFoldFlattens(balance: int, chain: seq<Block>, address: string)
    ensures ConfirmedFold(balance, chain, address) == Fold(balance, AllTransactions(chain), address)
    decreases |chain|
  {
    if |chain| > 0 {
      ConfirmedFoldFlattens(Fold(balance, chain[0].transactions, address), chain[1..], address);
      FoldAppend(balance, chain[0].transactions, AllTransactions(chain[1..]), address);
    }
  }

  /** Balances add up over a split of the pool: a transaction appended to the
      pool moves the pending balance by its own delta. */
  lemma PendingAppend(pending: seq<Transaction>, t: Transaction, address: string)
    ensures PendingBalance(pending + [t], address) == PendingBalance(pending, address) + Delta(t, address)
  {
    FoldAppend(0, pending, [t], address);
  }

  // ---------------------------------------------------------------------------
  // Addresses and keys

  predicate IsHexDigit(c: char)
  {
    '0' <= c <= '9' || 'a' <= c <= 'f' || 'A' <= c <= 'F'
  }

  /** The character class `[a-fA-F0-9]` repeated over the whole text. */
  predicate AllHex(s: string)
    decreases |s|
  {
    |s| == 0 || (IsHexDigit(s[0]) && AllHex(s[1..]))
  }

  /** isValidAddress: `/^0x[a-fA-F0-9]{40}$/`, anchored at both ends: exactly
      "0x" followed by 40 hexadecimal digits of either case, and nothing else. */
  function IsValidAddress(address: string): (valid: bool)
    ensures valid <==>
      |address| == 42 && address[..2] == "0x" && forall i :: 2 <= i < 42 ==> IsHexDigit(address[i])
  {
    if |address| != 42 then false
    else
      AllHexIff(address[2..]);
      assert forall i :: 2 <= i < 42 ==> address[i] == address[2..][i - 2];
      assert address[..2] == "0x" <==> address[0] == '0' && address[1] == 'x';
      address[0] == '0' && address[1] == 'x' && AllHex(address[2..])
  }

  lemma {:induction false} AllHexIff(s: string)
    ensures AllHex(s) <==> forall i :: 0 <= i < |s| ==> IsHexDigit(s[i])
    decreases |s|
  {
    if |s| > 0 {
      AllHexIff(s[1..]);
      assert forall i :: 1 <= i < |s| ==> s[i] == s[1..][i - 1];
    }
  }

  const KeyNotConfigured := "Encryption key is not configured."
  const InvalidKeyFormat := "Invalid encrypted private key format"

  /** The `iv:data` split of decryptPrivateKey: both parts must be present and
      non-empty; `iv:data:more` passes, the rest is ignored. */
  function ParseEncryptedKey(encryptedPrivateKey: string): (r: Result<(string, string)>)
    ensures r.Success? ==> r.value.0 != "" && r.value.1 != ""
    ensures r.Success? ==> ':' !in r.value.0 && ':' !in r.value.1
  {
    var parts := Split(encryptedPrivateKey, ':');
    if parts[0] == "" || |parts| < 2 || parts[1] == "" then Failure(InvalidKeyFormat)
    else Success((parts[0], parts[1]))
  }

  /** decryptPrivateKey: the key check, the format check, then AES-256-CBC. */
  function DecryptPrivateKey(p: Primitives, encryptionKey: Option<string>, encryptedPrivateKey: string): (r: Result<string>)
    ensures encryptionKey.None? || encryptionKey == Some("") ==> r == Failure(KeyNotConfigured)
    ensures encryptionKey.Some? && encryptionKey.value != "" && ParseEncryptedKey(encryptedPrivateKey).Failure? ==>
      r == Failure(InvalidKeyFormat)
  {
    if encryptionKey.None? || encryptionKey.value == "" then Failure(KeyNotConfigured)
    else
      match ParseEncryptedKey(encryptedPrivateKey)
      case Failure(e) => Failure(e)
      case Success((ivHex, encryptedData)) => p.aesDecrypt(encryptionKey.value, ivHex, encryptedData)
  }

  /** The format is accepted exactly when the text has a first ':' that is
      neither its first character nor followed directly by another ':' or by
      the end of the text. */
  lemma FormatAcceptedIff(s: string)
    ensures ParseEncryptedKey(s).Success? <==>
      exists k :: 0 < k < |s| - 1 && s[k] == ':' && ':' !in s[..k] && s[k + 1] != ':'
  {
    var parts := Split(s, ':');
    var k := FirstIndex(s, ':');
    SplitFirstPart(s, ':');
    SplitSecondPart(s, ':');
    if ParseEncryptedKey(s).Success? {
      assert ':' in s;
      assert 0 < k < |s| - 1 && s[k] == ':' && ':' !in s[..k];
      SplitFirstPart(s[k + 1..], ':');
      assert s[k + 1..][0] != ':';
    }
    if exists j :: 0 < j < |s| - 1 && s[j] == ':' && ':' !in s[..j] && s[j + 1] != ':' {
      var j :| 0 < j < |s| - 1 && s[j] == ':' && ':' !in s[..j] && s[j + 1] != ':';
      assert j == k;
      assert parts[0] == s[..k];
      assert |parts| >= 2;
      assert FirstIndex(s[k + 1..], ':') > 0;
    }
  }

  /** The prefix strip of generateWallet: a 130-character key starting with
      "04" (an uncompressed point) loses those two characters. */
  function StripUncompressedPrefix(publicKeyHex: string): (r: string)
    ensures r != publicKeyHex <==> |publicKeyHex| == 130 && StartsWith(publicKeyHex, "04")
    ensures r != publicKeyHex ==> "04" + r == publicKeyHex && |r| == 128
  {
    if |publicKeyHex| == 130 && StartsWith(publicKeyHex, "04") then publicKeyHex[2..] else publicKeyHex
  }

  /** Stripping twice is stripping once. */
  lemma StripIdempotent(publicKeyHex: string)
    ensures StripUncompressedPrefix(StripUncompressedPrefix(publicKeyHex)) == StripUncompressedPrefix(publicKeyHex)
  {
  }
}
