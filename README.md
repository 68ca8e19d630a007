# A verified model of the SailChain ledger core

This project models the core of SailChain. SailChain is a NestJS proof-of-work ledger node written in TypeScript. The model covers:

- transactions: the content hash, signing, and the validity check;
- both generations of blocks and chains. The newer `Block.ts`/`BlockChain.ts` hashes transactions through a Merkle root and stores a difficulty. The older `classes/Block.ts`/`classes/BlockChain.ts` hashes the JSON of the transaction list, and the blockchain service uses it;
- the pending transaction pool and the registry of peer URLs;
- the blockchain service: validation of foreign chains, block admission from peers, chain replacement and mining;
- the longest-chain consensus loop;
- the wallet's balance accounting and its format checks;
- the funds check that admits a submitted transaction to the pool.

State the source changes in place stays mutable in the model:

- blocks, chains, the pool, the registry and the services are classes;
- their methods carry `modifies` frames;
- loops are `while`/`for` loops with invariants.

Each method is proved against a specification function. The properties the node relies on are proved as lemmas about those functions:

- the iff-forms of the validity checks;
- prefix closure, fold laws and round trips;
- the behaviour of the consensus fold.

The following are arbitrary functions, fields of `Crypto.Primitives`, passed as a parameter:

- SHA-256;
- ECDSA over secp256k1 (public key, sign, verify);
- AES-256-CBC decryption;
- `JSON.stringify` of a transaction list.

Verification and decryption return a `Result`. Their `Failure` stands for the throws of the libraries. `elliptic` throws, for example, for a sender that is not an encoded curve point, or for a signature that is not well-formed DER.

Every result holds for every choice of these functions. The signing round trip is the one exception: it assumes `Crypto.EcdsaCorrect`.

Three behaviours of the source are easy to misread:

- `receiveBlock` does not check a received block's internal validity. It checks the index and the link, then compares the DTO hash against the nonce-0 hash of the block rebuilt with unsigned transactions.
- A difficulty of 0 is accepted: `'0'.repeat(0)` is the empty prefix, so mining returns at once.
- A key of another wallet makes `signTransaction` throw a plain `Error` with its message.

Mining in the source searches without bound. Here it is bounded by a `fuel` argument, and `mined == false` stands for "still searching".

Files, one module each:

- `results.dfy`: `Option` and `Result`. `Failure` stands for a thrown error.
- `text.dfy`: the string operations used: `${n}`, `'0'.repeat`, `startsWith` and `split`.
- `crypto.dfy`: the primitives.
- `transaction.dfy`: `classes/Transaction.ts`.
- `merkle_block.dfy`, `merkle_blockchain.dfy`: the newer generation.
- `legacy_block.dfy`, `legacy_blockchain.dfy`: the older generation.
- `transaction_pool.dfy`, `nodes.dfy`, `blockchain_service.dfy` (module `Ledger`), `consensus.dfy`, `wallet.dfy`: the services.
- `transactions_controller.dfy` (module `Admission`): the controller.

## Model

| member | source | states |
|---|---|---|
| Transactions.Transaction.constructor | src/modules/blockchain/classes/Transaction.ts:11-15 | a new transaction holds the given sender, recipient and amount and has no signature |
| Transactions.Transaction.IsValid | src/modules/blockchain/classes/Transaction.ts:33-43 | true exactly for a SYSTEM transaction or a signed one whose signature verifies; false only when a present signature fails to verify; a throw only for a non-SYSTEM transaction that is unsigned or whose verification throws |
| Transactions.HashIgnoresSignature | src/modules/blockchain/classes/Transaction.ts:17-21 | two transactions with equal sender, recipient and amount have equal content hashes, whatever their signatures |
| Transactions.SignatureCarriesAcrossFieldBoundary | src/modules/blockchain/classes/Transaction.ts:17-21 | because the fields are joined without a separator, a transfer of 2 to "b1" and one of 12 to "b" from the same sender hash alike, and one signature makes both valid or both invalid |
| Transactions.Transaction.SignTransaction | src/modules/blockchain/classes/Transaction.ts:23-31 | with a key of another wallet it fails with "You cannot sign transactions for other wallets!" and leaves the signature; otherwise it stores the signature of the content hash; nothing else can change |
| Transactions.CoinbaseIsValid | src/modules/blockchain/classes/Transaction.ts:35 | a SYSTEM transaction is valid whatever its signature |
| Transactions.UnsignedTransactionThrows | src/modules/blockchain/classes/Transaction.ts:37-39 | a non-SYSTEM transaction with an absent or empty signature throws "No signature in this transaction" instead of returning false |
| Transactions.SignedValidityIsVerification | src/modules/blockchain/classes/Transaction.ts:41-42 | otherwise isValid returns or throws exactly what the ECDSA verification of the signature over the content hash under the sender key returns or throws |
| Transactions.SignedTransactionIsValid | src/modules/blockchain/classes/Transaction.ts:23-42 | if ECDSA is correct, a transaction signed with the sender's own key is valid (the round trip) |
| MerkleBlock.PairUp | src/modules/blockchain/Block.ts:36-47 | one level of the tree has ceil(n/2) entries; entry k is the digest of pair k, and an odd last hash is paired with itself |
| MerkleBlock.TxHashes | src/modules/blockchain/Block.ts:35 | the leaves are the transactions' content hashes, in order |
| MerkleBlock.ComputeLevel | src/modules/blockchain/Block.ts:37-45 | the inner loop builds exactly the level above |
| MerkleBlock.ComputeMerkleRoot | src/modules/blockchain/Block.ts:33-49 | the outer loop ends, with one hash left, and returns the Merkle root of the transactions |
| MerkleBlock.EmptyRoot | src/modules/blockchain/Block.ts:34 | no transactions give the empty root "" |
| MerkleBlock.SingleTransactionRoot | src/modules/blockchain/Block.ts:35-48 | the root of one transaction is its content hash, not hashed again |
| MerkleBlock.RootIsDigest | src/modules/blockchain/Block.ts:36-47 | from two leaves up, the root is a SHA-256 digest of a concatenation |
| MerkleBlock.PairUpRepeatLast | src/modules/blockchain/Block.ts:38-45 | repeating an odd last hash does not change the level above |
| MerkleBlock.RepeatedLastLeafSameRoot | src/modules/blockchain/Block.ts:36-47 | an odd list of three or more leaves has the same root as that list with its last leaf repeated |
| MerkleBlock.Block.constructor | src/modules/blockchain/Block.ts:17-31 | the fields are as given, the nonce is 0 and the hash is the current hash |
| MerkleBlock.PreimageTemplate | src/modules/blockchain/Block.ts:56 | the header text is index, previous hash, timestamp, Merkle root, nonce and difficulty, in that order, each separated by a bar |
| MerkleBlock.BlockHashTemplate | src/modules/blockchain/Block.ts:54-58 | the block hash is the SHA-256 digest of that header text over the current fields, with the integers in decimal; the transactions enter only through their Merkle root |
| MerkleBlock.Block.Validity | src/modules/blockchain/Block.ts:60-72 | isValid is false on a stale hash, and true exactly when the hash is current and every non-SYSTEM transaction is valid |
| MerkleBlock.Block.IsValid | src/modules/blockchain/Block.ts:60-72 | the result is false on a stale hash without looking at any transaction; otherwise it is the transaction check, which throws what the first failing transaction throws |
| MerkleBlock.CheckTransactions | src/modules/blockchain/Block.ts:65-71 | the transaction loop passes exactly when every non-SYSTEM transaction is valid; otherwise it returns or throws what the first invalid non-SYSTEM transaction returns or throws |
| MerkleBlock.CheckTransactionsFailure | src/modules/blockchain/Block.ts:65-71 | false means some non-SYSTEM transaction's signature fails to verify; a throw means some non-SYSTEM transaction is unsigned or its verification throws |
| MerkleBlock.Block.MineBlock | src/modules/blockchain/Block.ts:78-97 | when mined, the hash starts with `difficulty` zeros; the nonce only grows; once a step has run the hash is the current hash; no nonce in between met the target; with no step the stale hash is kept; difficulty 0 returns at once; only nonce and hash change |
| MerkleBlockchain.Blockchain.constructor | src/modules/blockchain/BlockChain.ts:16-29 | the chain is one genesis block, and the chain's difficulty is the one given (2 by default) |
| MerkleBlockchain.Blockchain.CreateGenesisBlock | src/modules/blockchain/BlockChain.ts:34-52 | the genesis block has index 0, previous hash "0", the given difficulty, and one unsigned SYSTEM transaction paying the initial reward to the genesis address |
| MerkleBlockchain.Blockchain.GetLatestBlock | src/modules/blockchain/BlockChain.ts:54-56 | the result is the last block |
| MerkleBlockchain.Blockchain.AddBlock | src/modules/blockchain/BlockChain.ts:61-66 | the block is linked to the old tip and given the chain difficulty; exactly one block is appended when it is mined; the mining facts hold; a valid chain stays valid when a step of the search ran |
| MerkleBlockchain.Blockchain.IsValid | src/modules/blockchain/BlockChain.ts:71-86 | the result is the chain predicate, and the scan changes nothing |
| MerkleBlockchain.ChainValidIff | src/modules/blockchain/BlockChain.ts:71-86 | a chain is valid exactly when every block from index 1 on holds its current hash and the previous block's hash; neither indices nor transactions are checked |
| MerkleBlockchain.SingleBlockChainValid | src/modules/blockchain/BlockChain.ts:71-72 | a one-block chain is valid; the genesis block is never checked |
| MerkleBlockchain.ChainValidSnoc | src/modules/blockchain/BlockChain.ts:71-86 | appending keeps a chain valid exactly when the new block holds its current hash and links to the tip |
| MerkleBlockchain.ChainValidPrefix | src/modules/blockchain/BlockChain.ts:71-86 | every prefix of a valid chain is valid |
| MerkleBlockchain.StaleBlockInvalidatesChain | src/modules/blockchain/BlockChain.ts:61-66 | a block appended with the stale hash its search checked first, which is not its current hash, makes the chain invalid |
| LegacyBlock.Snapshot | src/modules/blockchain/classes/Block.ts:35 | the serialised list holds each transaction's current fields, signature included |
| LegacyBlock.PreimageTemplate | src/modules/blockchain/classes/Block.ts:35 | the header text is index, previous hash, timestamp, the JSON of the transactions and nonce, in that order, each separated by a bar |
| LegacyBlock.BlockHashTemplate | src/modules/blockchain/classes/Block.ts:33-37 | the block hash is the SHA-256 digest of that header text over the current fields, with the integers in decimal and the transactions serialised with their current signatures |
| LegacyBlock.Block.constructor | src/modules/blockchain/classes/Block.ts:16-28 | the fields are as given (previous hash "" by default), the nonce is 0 and the hash is the current hash |
| LegacyBlock.Block.MineBlock | src/modules/blockchain/classes/Block.ts:43-62 | the search tests the hash the block already holds, then adds one to the nonce per step and stops at the first hash with `difficulty` leading zeros; no nonce in between met it; difficulty 0 returns at once; only nonce and hash change |
| LegacyBlockchain.Blockchain.constructor | src/modules/blockchain/classes/BlockChain.ts:17-20 | the chain is one genesis block, with difficulty 2 by default |
| LegacyBlockchain.Blockchain.CreateGenesisBlock | src/modules/blockchain/classes/BlockChain.ts:25-28 | the genesis block has index 0, no transactions and previous hash "0", and it is not mined |
| LegacyBlockchain.Blockchain.GetLatestBlock | src/modules/blockchain/classes/BlockChain.ts:32-34 | the result is the last block |
| LegacyBlockchain.Blockchain.AddBlock | src/modules/blockchain/classes/BlockChain.ts:40-44 | the block is linked to the old tip and mined at the chain difficulty; exactly one block is appended when it is mined, after the unchanged prefix; a valid chain stays valid when the appended block holds its current hash (always so once a step of the search ran) |
| LegacyBlockchain.Blockchain.IsChainValid | src/modules/blockchain/classes/BlockChain.ts:50-65 | the result is the chain predicate, and the scan changes nothing |
| LegacyBlockchain.ChainValidIff | src/modules/blockchain/classes/BlockChain.ts:50-65 | a chain is valid exactly when every block from index 1 on holds its current hash and the previous block's hash |
| LegacyBlockchain.SingleBlockChainValid | src/modules/blockchain/classes/BlockChain.ts:50-51 | a one-block chain is valid |
| LegacyBlockchain.ChainValidSnoc | src/modules/blockchain/classes/BlockChain.ts:50-65 | appending keeps a chain valid exactly when the new link is valid |
| LegacyBlockchain.ChainValidPrefix | src/modules/blockchain/classes/BlockChain.ts:50-65 | every prefix of a valid chain is valid, so the scan can stop at the first bad block |
| TransactionPool.Without | src/modules/blockchain/transaction-pool.service.ts:21-23 | the filter keeps exactly the entries not in the removed list (compared by identity) and never grows the list |
| TransactionPool.TransactionPoolService.constructor | src/modules/blockchain/transaction-pool.service.ts:9 | the pool starts empty |
| TransactionPool.TransactionPoolService.AddTransaction | src/modules/blockchain/transaction-pool.service.ts:11-12 | the transaction is appended at the end and the order is kept |
| TransactionPool.TransactionPoolService.GetPendingTransactions | src/modules/blockchain/transaction-pool.service.ts:16-18 | the result equals the pool, and the pool is unchanged |
| TransactionPool.TransactionPoolService.ClearTransactions | src/modules/blockchain/transaction-pool.service.ts:20-24 | the pool becomes the old pool filtered by the argument, in order |
| TransactionPool.WithoutAppend | src/modules/blockchain/transaction-pool.service.ts:20-24 | filtering distributes over concatenation, so the survivors keep their order |
| TransactionPool.WithoutCount | src/modules/blockchain/transaction-pool.service.ts:21-23 | a cleared transaction is left with no copies; any other keeps all its copies |
| TransactionPool.WithoutNothing | src/modules/blockchain/transaction-pool.service.ts:20-24 | clearing with an empty list changes nothing |
| TransactionPool.WithoutIdempotent | src/modules/blockchain/transaction-pool.service.ts:20-24 | clearing twice with the same list equals clearing once |
| TransactionPool.WithoutAll | src/modules/blockchain/transaction-pool.service.ts:20-24 | clearing with a list that names every entry empties the pool |
| TransactionPool.DuplicatesClearedTogether | src/modules/blockchain/transaction-pool.service.ts:11-23 | adding a transaction twice holds it twice, and one clear removes both copies |
| Nodes.Add | src/modules/nodes/nodes.service.ts:13-20 | a new URL is appended and a registered one leaves the set unchanged; membership gains exactly that URL; no duplicates appear |
| Nodes.Remove | src/modules/nodes/nodes.service.ts:27-36 | membership loses exactly that URL, and no duplicates appear |
| Nodes.SetOf | src/modules/nodes/nodes.service.ts:9-11 | `new Set(list)` holds each element of the list once |
| Nodes.InitialNodes | src/modules/nodes/nodes.service.ts:9-11 | the initial set is empty when the variable is unset or empty; otherwise it holds the comma-split peers without duplicates |
| Nodes.NodesService.constructor | src/modules/nodes/nodes.service.ts:9-11 | the registry starts with the bootstrap peers |
| Nodes.NodesService.AddNode | src/modules/nodes/nodes.service.ts:13-20 | the registry becomes `Add(old, u)`, still without duplicates |
| Nodes.NodesService.GetNodes | src/modules/nodes/nodes.service.ts:22-25 | the result is every registered URL once, in insertion order, and the registry is unchanged |
| Nodes.NodesService.RemoveNode | src/modules/nodes/nodes.service.ts:27-36 | the registry becomes `Remove(old, u)`, still without duplicates |
| Nodes.RemoveAbsent | src/modules/nodes/nodes.service.ts:28-33 | removing an unregistered URL changes nothing |
| Nodes.RemovePresent | src/modules/nodes/nodes.service.ts:34 | removing a registered URL drops that one entry and keeps the rest in order |
| Nodes.AddThenRemove | src/modules/nodes/nodes.service.ts:13-36 | adding an absent URL and then removing it restores the registry |
| Nodes.RemoveAppend | src/modules/nodes/nodes.service.ts:34 | removal distributes over concatenation |
| Ledger.BlockchainService.constructor | src/modules/blockchain/blockchain.service.ts:23-32 | the service starts with a one-block legacy chain of difficulty 2 and the shared pool |
| Ledger.BlockchainService.ValidateChain | src/modules/blockchain/blockchain.service.ts:117-140 | the result is `ServiceChainValid`: every block from index 1 on holds the hash of a fresh copy with nonce 0, and the previous block's hash |
| Ledger.ServiceChainValidIff | src/modules/blockchain/blockchain.service.ts:117-140 | the scan's predicate holds exactly when every link from index 1 passes both checks |
| Ledger.ShortChainsAccepted | src/modules/blockchain/blockchain.service.ts:117-118 | chains of zero or one block are accepted |
| Ledger.ServiceChainValidPrefix | src/modules/blockchain/blockchain.service.ts:117-140 | every prefix of an accepted chain is accepted |
| Ledger.ServiceChainValidSnoc | src/modules/blockchain/blockchain.service.ts:117-140 | appending keeps acceptance exactly when the new link passes both checks |
| Ledger.ChecksAgreeAtNonceZero | src/modules/blockchain/blockchain.service.ts:123-128 | when every block from index 1 on has nonce 0, validateChain and the chain's own isChainValid agree |
| Ledger.MinedBlockRejected | src/modules/blockchain/blockchain.service.ts:123-132 | a chain holding a block whose hash meets the difficulty while its nonce-0 hash does not is rejected |
| Ledger.BlockchainService.ValidateChainCorrected | src/modules/blockchain/blockchain.service.ts:117-140 | the same scan with the block's own nonce accepts exactly what the chain's own isChainValid accepts |
| Ledger.BlockchainService.IsChainValid | src/modules/blockchain/blockchain.service.ts:106-111 | a given chain goes to validateChain, including an empty one; with no argument the node's chain goes to the chain's own check |
| Ledger.Verdict | src/modules/blockchain/blockchain.service.ts:147-171 | the index check comes first, then the link check, then the hash check; the block is admitted exactly when all three pass |
| Ledger.DtoJson | src/modules/blockchain/blockchain.service.ts:157-159 | the rebuilt transactions carry the DTO's three fields and no signature |
| Ledger.BuildTransactions | src/modules/blockchain/blockchain.service.ts:157-159 | the map builds fresh transactions whose serialisation is the DTO's |
| Ledger.BlockchainService.ReceiveBlock | src/modules/blockchain/blockchain.service.ts:142-184 | the result is the verdict's `{success, message}`; on failure the chain is unchanged; on success exactly one fresh block is appended, built from the DTO, with nonce 0 and hash equal to the DTO hash |
| Ledger.ReceivedBlockKeepsChainValid | src/modules/blockchain/blockchain.service.ts:173-181 | an admitted block keeps the chain exactly as valid as it was, under both checks |
| Ledger.BlockchainService.ReplaceChain | src/modules/blockchain/blockchain.service.ts:190-202 | it returns true exactly when the new chain is strictly longer and validateChain accepts it; the chain is replaced then and unchanged otherwise |
| Ledger.BlockchainService.AddBlock | src/modules/blockchain/blockchain.service.ts:76-83 | a block of the given transactions, at index `|chain|` and linked to the tip, is mined; when mined, exactly it is appended and a valid chain stays valid |
| Ledger.BlockchainService.MinePendingTransactions | src/modules/blockchain/blockchain.service.ts:207-230 | the block holds SYSTEM→miner for 50 followed by the pool snapshot in order, at index `|chain|`; once it is mined it is appended and the snapshot leaves the pool, which empties it |
| Consensus.Adopt | src/modules/blockchain/consensus.service.ts:30-35 | one turn keeps the best chain, or takes the fetched chain only when it is strictly longer and valid |
| Consensus.ConsensusService.constructor | src/modules/blockchain/consensus.service.ts:12-15 | the service holds the blockchain service |
| Consensus.ConsensusService.SyncChains | src/modules/blockchain/consensus.service.ts:20-46 | the loop computes the `Longest` fold over the fetches; the result is true exactly when the best chain is longer than the local one, and the chain becomes that chain; an adopted chain is valid and strictly longer; otherwise the chain is unchanged |
| Consensus.LongestIsLocalOrValidPeer | src/modules/blockchain/consensus.service.ts:21-35 | the best chain is the local one, or a valid, strictly longer chain some peer returned |
| Consensus.LongestSnoc | src/modules/blockchain/consensus.service.ts:23-35 | each peer adds one `Adopt` turn to the fold |
| Consensus.LongestSteps | src/modules/blockchain/consensus.service.ts:23-35 | the same, for every peer at once |
| Consensus.LongestGrows | src/modules/blockchain/consensus.service.ts:21-35 | the best chain's length never decreases across the loop and never falls below the local one |
| Consensus.LongestAppend | src/modules/blockchain/consensus.service.ts:23-39 | scanning two lists of peers one after the other is scanning their concatenation |
| Consensus.FailedFetchSkipped | src/modules/blockchain/consensus.service.ts:23-39 | a failed fetch is skipped, and the peers after it are still considered |
| Consensus.NoLongerValidPeerKeepsLocal | src/modules/blockchain/consensus.service.ts:42-45 | with no valid peer chain longer than the local one, including an empty peer list, the best chain stays the local one |
| Consensus.EarliestLongestWins | src/modules/blockchain/consensus.service.ts:31 | among valid chains of the greatest length, the earliest peer's chain wins |
| Wallet.Delta | src/modules/wallet/wallet.service.ts:104-109 | a transaction adds its amount for the recipient and subtracts it for the sender; a self-transfer and an unrelated transaction count zero |
| Wallet.FoldIsReceivedMinusSent | src/modules/wallet/wallet.service.ts:118-130 | the reduce yields the start plus what was received minus what was sent |
| Wallet.FoldAppend | src/modules/wallet/wallet.service.ts:101-130 | folding two lists in a row is folding their concatenation |
| Wallet.ConfirmedFoldFlattens | src/modules/wallet/wallet.service.ts:101-113 | the per-block fold equals the fold over all chain transactions in order |
| Wallet.ConfirmedBalance | src/modules/wallet/wallet.service.ts:101-113 | the confirmed balance is what the address received on the chain minus what it sent |
| Wallet.PendingBalance | src/modules/wallet/wallet.service.ts:118-130 | the pending balance is what the address receives in the pool minus what it sends there |
| Wallet.PendingAppend | src/modules/wallet/wallet.service.ts:118-130 | a transaction appended to the pool moves the pending balance by its own delta |
| Wallet.GetBalance | src/modules/wallet/wallet.service.ts:135-139 | the balance is what the address received minus what it sent over all chain transactions followed by the pool |
| Wallet.AllHexIff | src/modules/wallet/wallet.service.ts:94-96 | the hex class repeated over a text means every character is a hex digit of either case |
| Wallet.IsValidAddress | src/modules/wallet/wallet.service.ts:94-96 | an address is valid exactly when it is "0x" followed by exactly 40 hex digits of either case |
| Wallet.ParseEncryptedKey | src/modules/wallet/wallet.service.ts:152-155 | an accepted key gives two non-empty parts without ':' |
| Wallet.FormatAcceptedIff | src/modules/wallet/wallet.service.ts:152-155 | the format is accepted exactly when a first ':' exists, is not the first character, and is followed by a character other than ':' |
| Wallet.DecryptPrivateKey | src/modules/wallet/wallet.service.ts:145-165 | without a configured key it throws "Encryption key is not configured."; with one, a bad format throws "Invalid encrypted private key format" |
| Wallet.StripUncompressedPrefix | src/modules/wallet/wallet.service.ts:78-81 | exactly a 130-character key starting with "04" loses those two characters, and any other key is unchanged |
| Wallet.StripIdempotent | src/modules/wallet/wallet.service.ts:78-81 | stripping twice is stripping once |
| Admission.TransactionsController.constructor | src/modules/blockchain/transactions.controller.ts:13-17 | the controller holds the shared pool and the blockchain service |
| Admission.TransactionsController.AddTransaction | src/modules/blockchain/transactions.controller.ts:22-43 | it fails with "Insufficient funds" exactly when the sender's balance is below the amount, leaving the pool unchanged; an equal balance is accepted; otherwise one fresh unsigned transaction of the DTO's fields is appended and "Transaction added to pool" is returned |
| Admission.PendingTransferReducesBalance | src/modules/blockchain/transactions.controller.ts:24 | a pending transfer lowers the sender's balance by its amount and raises the recipient's, so pending outgoing transfers reduce what can be admitted |
| Admission.AdmittedSenderStaysSolvent | src/modules/blockchain/transactions.controller.ts:24-27 | a sender whose non-negative balance covers the amount keeps a non-negative balance |
| Admission.NegativeAmountDrainsRecipient | src/modules/blockchain/transactions.controller.ts:25-37 | a negative amount passes the check of any solvent sender, and admitting it lowers the recipient's balance |
| Admission.TransactionsController.AddTransactionChecked | src/modules/blockchain/transactions.controller.ts:25-27 | the check with non-negative amounts: it fails exactly when the amount is negative ("Amount must not be negative") or is not covered ("Insufficient funds"), and otherwise admits as before |
| Admission.NonNegativeTransferHarmsNoOtherAddress | src/modules/blockchain/transactions.controller.ts:30-37 | with a non-negative amount, no address other than the sender loses balance |

## Left out

- Cryptography (SHA-256, ECDSA over secp256k1, AES-256-CBC, BIP-39/BIP-32 derivation, Keccak-256, the EIP-55 checksum, the V3 keystore) and `JSON.stringify` are uninterpreted functions. Their correctness lives in libraries outside this model. For the same reason, `generateWallet` is modelled only through its public-key prefix strip.
- HTTP broadcast, the socket peer-to-peer layer, Mongo persistence, logging, the cron schedulers and the other controllers, DTO validation and bootstrap code are I/O or routing. The received-block-triggers-consensus step belongs to the peer-to-peer layer and is left out with it.
- `onModuleInit` (loading the chain from the database) and the `getChain`/`getLatestBlock` wrappers of the blockchain service are left out. The wrappers return the chain's own fields, which the model reads directly.
- Peer fetches in `syncChains` are a sequence of optional chains: `None` is a fetch that threw. The HTTP request and the JSON decoding of a peer chain are not modelled; a peer chain is taken to be a list of legacy blocks.
- LegacyBlock.Block.MineBlock, MerkleBlock.Block.MineBlock and every AddBlock: the search is bounded by `fuel`. The source's search may not terminate, and its `setImmediate` yielding every 1000 nonces is cooperative scheduling. When the fuel runs out, nothing is appended and the pool is not cleared. In the source, that is a search still running.
- Ledger.BlockchainService.MinePendingTransactions: the source builds the block inline and calls the chain's `addBlock`. The model calls the service's `AddBlock`, which performs the same construction and call but without the persistence and broadcast, which are left out. Its contract does not restate chain validity; `Ledger.BlockchainService.AddBlock` states that.
- The interleaving of mining with other requests (transactions added to the pool, or a chain replaced during the `await`) is concurrency. The model runs each operation to completion. Clearing removes only the snapshot that was mined, which is why `clearTransactions` takes it as an argument.
- JavaScript numbers are unbounded integers here. Amounts, indices, timestamps and nonces have no floating-point rounding, and the difficulty is a natural number, since `'0'.repeat` of a negative count throws.
- The controller's wallet service is represented by the blockchain service and the pool it reads. Its transaction service only persists, and is left out with the database.
- Wallet.DecryptPrivateKey: the AES step is an uninterpreted function that may fail. Hex decoding of the key and the IV is part of it.

## Findings

| source | as written | input that shows it | evidently intended | confidence | as-written member | corrected member |
|---|---|---|---|---|---|---|
| src/modules/blockchain/blockchain.service.ts:123-128 | validateChain recomputes each hash from a fresh block, whose nonce is 0 | a chain whose block 1 was mined at nonce 7: its hash starts with "00" and its nonce-0 hash does not | the copy takes the block's own nonce, so mined blocks pass as they do under the chain's own isChainValid | medium; not executed | Ledger.MinedBlockRejected | Ledger.BlockchainService.ValidateChainCorrected |
| src/modules/blockchain/transactions.controller.ts:25 | the funds check compares the balance with the amount only | sender A with balance 0 submits amount -5 to B: 0 < -5 is false, so it is admitted and B's balance drops by 5 | a transfer never moves a negative amount | medium; not executed | Admission.NegativeAmountDrainsRecipient | Admission.TransactionsController.AddTransactionChecked |

The service's `replaceChain`, `isChainValid` and `syncChains` keep the as-written validateChain, since that is the check the node runs. The corrected scan stands beside it, with its agreement with the chain's own check proved. The node's own blocks mined through `addBlock` usually carry a non-zero nonce, so under the as-written check a peer that adopts them rejects them.
