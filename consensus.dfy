/** Longest-chain consensus (src/modules/blockchain/consensus.service.ts):
    the node asks every peer for its chain and adopts the longest valid one
    that is strictly longer than its own. Chains are compared by length, not
    by accumulated work. Each peer fetch is an optional chain: None when the
    request failed. */
module Consensus {
  import opened Results
  import Transactions
  import opened LegacyBlock
  import opened LegacyBlockchain
  import opened Ledger

  /** The blocks a fetch returned; none when it failed. */
  function Candidate(fetched: Option<seq<Block>>): seq<Block>
  {
    if fetched.Some? then fetched.value else []
  }

  function Elements(chain: seq<Block>): (r: set<Block>)
    ensures forall b :: b in chain ==> b in r
    ensures forall b :: b in r ==> b in chain
  {
    set b | b in chain
  }

  /** Every block any peer returned. */
  function PeerBlocks(fetches: seq<Option<seq<Block>>>): set<Block>
  {
    set i, b | 0 <= i < |fetches| && b in Candidate(fetches[i]) :: b
  }

  /** The transactions of every block any peer returned. */
  function PeerTxObjects(fetches: seq<Option<seq<Block>>>): set<Transactions.Transaction>
  {
    set i, b, t | 0 <= i < |fetches| && b in Candidate(fetches[i]) && t in b.transactions :: t
  }

  /** One turn of the loop: the fetched chain replaces the best so far only
      when it is strictly longer and validateChain accepts it. */
  function Adopt(p: Crypto.Primitives, longest: seq<Block>, fetched: Option<seq<Block>>): (r: seq<Block>)
    reads Elements(Candidate(fetched)), TxObjects(Candidate(fetched))
    ensures r == longest || (fetched == Some(r) && |r| > |longest| && ServiceChainValid(p, r))
    ensures |r| >= |longest|
  {
    if fetched.Some? && |fetched.value| > |longest| && ServiceChainValid(p, fetched.value) then fetched.value
    else longest
  }

  /** The best chain after the loop has seen `fetches`, starting from `local`. */
  function Longest(p: Crypto.Primitives, local: seq<Block>, fetches: seq<Option<seq<Block>>>): seq<Block>
    reads PeerBlocks(fetches), PeerTxObjects(fetches)
    decreases |fetches|
  {
    if |fetches| == 0 then local
    else Adopt(p, Longest(p, local, fetches[..|fetches| - 1]), fetches[|fetches| - 1])
  }

  class ConsensusService {
    const blockchainService: BlockchainService

    constructor (blockchainService: BlockchainService)
      ensures this.blockchainService == blockchainService
    {
      this.blockchainService := blockchainService;
    }

    /** syncChains: scans the peers in order, keeping the longest valid chain
        seen, then asks replaceChain to adopt it when it is longer than the
        local chain. */
    method SyncChains(p: Crypto.Primitives, fetches: seq<Option<seq<Block>>>) returns (r: bool)
      requires blockchainService.Valid()
      modifies blockchainService.blockchain
      ensures blockchainService.Valid()
      ensures r <==> |old(Longest(p, blockchainService.blockchain.chain, fetches))| > |old(blockchainService.blockchain.chain)|
      ensures blockchainService.blockchain.chain ==
        if r then old(Longest(p, blockchainService.blockchain.chain, fetches)) else old(blockchainService.blockchain.chain)
      ensures r ==> (ServiceChainValid(p, blockchainService.blockchain.chain) &&
                     |blockchainService.blockchain.chain| > |old(blockchainService.blockchain.chain)|)
    {
      var local := blockchainService.blockchain.chain;
      var longestChain := local;
      LongestSteps(p, local, fetches);
      LongestIsLocalOrValidPeer(p, local, fetches);
      for i := 0 to |fetches|
        modifies {}
        invariant longestChain == old(Longest(p, local, fetches[..i]))
      {
        var fetched := fetches[i];
        if fetched.Some? && |fetched.value| > |longestChain| {
          var valid := blockchainService.IsChainValid(p, fetched);
          // Validation changed nothing: the verdict is the one at the start.
          assert forall b :: b in fetched.value ==> unchanged(b);
          assert forall t :: t in TxObjects(fetched.value) ==> unchanged(t);
          assert valid == old(ServiceChainValid(p, fetched.value));
          if valid {
            longestChain := fetched.value;
          }
        }
      }
      assert fetches[..|fetches|] == fetches;
      if |longestChain| > |blockchainService.blockchain.chain| {
        assert forall b :: b in longestChain ==> unchanged(b);
        assert forall t :: t in TxObjects(longestChain) ==> unchanged(t);
        assert ServiceChainValid(p, longestChain);
        r := blockchainService.ReplaceChain(p, longestChain);
      } else {
        r := false;
      }
    }
  }

  /** The best chain is the local one, or a chain some peer returned that is
      valid and strictly longer than the local one. */
  lemma {:induction false} LongestIsLocalOrValidPeer(p: Crypto.Primitives, local: seq<Block>, fetches: seq<Option<seq<Block>>>)
    ensures Longest(p, local, fetches) == local ||
      (|Longest(p, local, fetches)| > |local| && ServiceChainValid(p, Longest(p, local, fetches)) &&
       exists i :: 0 <= i < |fetches| && fetches[i] == Some(Longest(p, local, fetches)))
    decreases |fetches|
  {
    if |fetches| > 0 {
      var init := fetches[..|fetches| - 1];
      LongestIsLocalOrValidPeer(p, local, init);
      if Longest(p, local, fetches) != Longest(p, local, init) {
        assert fetches[|fetches| - 1] == Some(Longest(p, local, fetches));
      } else if Longest(p, local, init) != local {
        var i :| 0 <= i < |init| && init[i] == Some(Longest(p, local, init));
        assert fetches[i] == init[i];
      }
    }
  }

  /** One more turn of the loop adopts or skips the next fetch. */
  lemma LongestSnoc(p: Crypto.Primitives, local: seq<Block>, fetches: seq<Option<seq<Block>>>, i: nat)
    requires i < |fetches|
    ensures Longest(p, local, fetches[..i + 1]) == Adopt(p, Longest(p, local, fetches[..i]), fetches[i])
  {
    assert fetches[..i + 1][..i] == fetches[..i];
  }

  lemma LongestSteps(p: Crypto.Primitives, local: seq<Block>, fetches: seq<Option<seq<Block>>>)
    ensures forall i :: 0 <= i < |fetches| ==>
      Longest(p, local, fetches[..i + 1]) == Adopt(p, Longest(p, local, fetches[..i]), fetches[i])
  {
    forall i | 0 <= i < |fetches|
      ensures Longest(p, local, fetches[..i + 1]) == Adopt(p, Longest(p, local, fetches[..i]), fetches[i])
    {
      LongestSnoc(p, local, fetches, i);
    }
  }

  /** The best chain's length never decreases as the loop goes on. */
  lemma {:induction false} LongestGrows(p: Crypto.Primitives, local: seq<Block>, fetches: seq<Option<seq<Block>>>, n: nat)
    requires n <= |fetches|
    ensures |local| <= |Longest(p, local, fetches[..n])| <= |Longest(p, local, fetches)|
    decreases |fetches|
  {
    if n == |fetches| {
      assert fetches[..n] == fetches;
      if n > 0 {
        LongestGrows(p, local, fetches[..n - 1], n - 1);
        assert fetches[..n - 1][..n - 1] == fetches[..n - 1];
      }
    } else {
      var init := fetches[..|fetches| - 1];
      LongestGrows(p, local, init, n);
      assert init[..n] == fetches[..n];
    }
  }

  /** The loop is a fold: running it over two lists of fetches in a row is
      running it over their concatenation. */
  lemma {:induction false} LongestAppend(p: Crypto.Primitives, local: seq<Block>, a: seq<Option<seq<Block>>>,
                                         b: seq<Option<seq<Block>>>)
    ensures Longest(p, local, a + b) == Longest(p, Longest(p, local, a), b)
    decreases |b|
  {
    if |b| == 0 {
      assert a + b == a;
    } else {
      assert (a + b)[..|a + b| - 1] == a + b[..|b| - 1];
      LongestAppend(p, local, a, b[..|b| - 1]);
    }
  }

  /** A failed fetch is skipped: removing it changes nothing, and the peers
      after it are still considered. */
  lemma FailedFetchSkipped(p: Crypto.Primitives, local: seq<Block>, a: seq<Option<seq<Block>>>,
                           b: seq<Option<seq<Block>>>)
    ensures Longest(p, local, a + [None] + b) == Longest(p, local, a + b)
  {
    LongestAppend(p, local, a + [None], b);
    var skipped: seq<Option<seq<Block>>> := [None];
    LongestAppend(p, local, a, skipped);
    assert skipped[..0] == [];
    LongestAppend(p, local, a, b);
  }

  /** With no valid peer chain strictly longer than the start, the best chain
      stays the start; in particular an empty peer list changes nothing. */
  lemma {:induction false} NoLongerValidPeerKeepsLocal(p: Crypto.Primitives, local: seq<Block>,
                                                      fetches: seq<Option<seq<Block>>>)
    requires forall i :: 0 <= i < |fetches| && fetches[i].Some? && |fetches[i].value| > |local| ==>
      !ServiceChainValid(p, fetches[i].value)
    ensures Longest(p, local, fetches) == local
  {
    LongestIsLocalOrValidPeer(p, local, fetches);
  }

  /** Among valid peer chains of the greatest length, the one from the
      earliest peer wins, when it is longer than the local chain. */
  lemma EarliestLongestWins(p: Crypto.Primitives, local: seq<Block>, fetches: seq<Option<seq<Block>>>, k: nat)
    requires k < |fetches| && fetches[k].Some? && ServiceChainValid(p, fetches[k].value)
    requires |fetches[k].value| > |local|
    requires forall i :: 0 <= i < k && fetches[i].Some? && ServiceChainValid(p, fetches[i].value) ==>
      |fetches[i].value| < |fetches[k].value|
    requires forall i :: k < i < |fetches| && fetches[i].Some? && ServiceChainValid(p, fetches[i].value) ==>
      |fetches[i].value| <= |fetches[k].value|
    ensures Longest(p, local, fetches) == fetches[k].value
  {
    var c := fetches[k].value;
    var before, after := fetches[..k], fetches[k + 1..];
    assert fetches == before + [fetches[k]] + after;
    LongestAppend(p, local, before + [fetches[k]], after);
    var at: seq<Option<seq<Block>>> := [fetches[k]];
    LongestAppend(p, local, before, at);
    assert at[..0] == [];
    LongestIsLocalOrValidPeer(p, local, before);
    if Longest(p, local, before) != local {
      var i :| 0 <= i < |before| && before[i] == Some(Longest(p, local, before));
      assert fetches[i] == before[i];
    }
    assert Longest(p, local, before + [fetches[k]]) == c;
    forall i | 0 <= i < |after| && after[i].Some? && |after[i].value| > |c|
      ensures !ServiceChainValid(p, after[i].value)
    {
      assert after[i] == fetches[k + 1 + i];
    }
    NoLongerValidPeerKeepsLocal(p, c, after);
  }
}
