/** The in-memory pool of pending transactions
    (src/modules/blockchain/transaction-pool.service.ts). Transactions are
    objects and the pool compares them by identity, as `includes` does. */
module TransactionPool {
  import opened Transactions

  /** `pool.filter((tx) => !removed.includes(tx))` */
  function Without(pool: seq<Transaction>, removed: seq<Transaction>): (r: seq<Transaction>)
    ensures forall i :: 0 <= i < |r| ==> r[i] in pool && r[i] !in removed
    ensures forall i :: 0 <= i < |pool| && pool[i] !in removed ==> pool[i] in r
    ensures |r| <= |pool|
  {
    if |pool| == 0 then []
    else (if pool[0] in removed then [] else [pool[0]]) + Without(pool[1..], removed)
  }

  class TransactionPoolService {
    var pending: seq<Transaction>

    /** The pool starts empty. */
    constructor ()
      ensures pending == []
    {
      pending := [];
    }

    /** addTransaction: appends at the end, duplicates included. */
    method AddTransaction(tx: Transaction)
      modifies this`pending
      ensures pending == old(pending) + [tx]
    {
      pending := pending + [tx];
    }

    /** getPendingTransactions: a copy of the pool; the pool is not changed. */
    method GetPendingTransactions() returns (txs: seq<Transaction>)
      ensures txs == pending
    {
      txs := pending;
    }

    /** clearTransactions: keeps, in their order, the entries that are not in `transactions`. */
    method ClearTransactions(transactions: seq<Transaction>)
      modifies this`pending
      ensures pending == Without(old(pending), transactions)
    {
      pending := Without(pending, transactions);
    }
  }

  /** Filtering distributes over concatenation: the survivors keep their order. */
  lemma {:induction false} WithoutAppend(a: seq<Transaction>, b: seq<Transaction>, removed: seq<Transaction>)
    ensures Without(a + b, removed) == Without(a, removed) + Without(b, removed)
    decreases |a|
  {
    if |a| > 0 {
      assert (a + b)[1..] == a[1..] + b;
      WithoutAppend(a[1..], b, removed);
    } else {
      assert a + b == b;
    }
  }

  /** Every copy of a cleared transaction goes, every copy of another one stays. */
  lemma {:induction false} WithoutCount(pool: seq<Transaction>, removed: seq<Transaction>, t: Transaction)
    ensures multiset(Without(pool, removed))[t] == if t in removed then 0 else multiset(pool)[t]
    decreases |pool|
  {
    if |pool| > 0 {
      WithoutCount(pool[1..], removed, t);
      assert pool == [pool[0]] + pool[1..];
    }
  }

  /** Clearing with an empty list changes nothing. */
  lemma {:induction false} WithoutNothing(pool: seq<Transaction>)
    ensures Without(pool, []) == pool
    decreases |pool|
  {
    if |pool| > 0 {
      WithoutNothing(pool[1..]);
      assert pool == [pool[0]] + pool[1..];
    }
  }

  /** Clearing twice with the same list is clearing once. */
  lemma {:induction false} WithoutIdempotent(pool: seq<Transaction>, removed: seq<Transaction>)
    ensures Without(Without(pool, removed), removed) == Without(pool, removed)
    decreases |pool|
  {
    if |pool| > 0 {
      WithoutIdempotent(pool[1..], removed);
      if pool[0] !in removed {
        var rest := Without(pool[1..], removed);
        var once := [pool[0]] + rest;
        assert Without(pool, removed) == once;
        assert once[0] == pool[0] && once[1..] == rest;
        assert Without(once, removed) == [pool[0]] + Without(rest, removed);
      } else {
        assert Without(pool, removed) == Without(pool[1..], removed);
      }
    }
  }

  /** Clearing with a list that names every pending transaction empties the
      pool; in particular clearing a pool with its own snapshot does. */
  lemma {:induction false} WithoutAll(pool: seq<Transaction>, removed: seq<Transaction>)
    requires forall t :: t in pool ==> t in removed
    ensures Without(pool, removed) == []
    decreases |pool|
  {
    if |pool| > 0 {
      WithoutAll(pool[1..], removed);
    }
  }

  /** A transaction added twice is held twice, and one clear that names it removes both copies. */
  lemma DuplicatesClearedTogether(pool: seq<Transaction>, t: Transaction)
    ensures multiset(pool + [t, t])[t] == multiset(pool)[t] + 2
    ensures t !in Without(pool + [t, t], [t])
  {
  }
}
