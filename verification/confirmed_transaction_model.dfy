/**
  The confirmed-sales ledger (ConfirmedTransactionModel): append-only, with ids
  from a counter that only a clear resets. It offers no removal or update.
*/
module ConfirmedTransactionModel {
  import opened StockModel

  /** A completed sale: its id, a snapshot of the record sold, the quantity, and the clock reading. */
  datatype ConfirmedTransaction = ConfirmedTransaction(transactionId: int, item: StockItem, quantity: int, timestamp: int)

  /** A value-initialised ConfirmedTransaction. */
  const DefaultConfirmed: ConfirmedTransaction := ConfirmedTransaction(0, DefaultItem, 0, 0)

  /** The completed sales, oldest first, and the id the next one receives. */
  datatype Ledger = Ledger(transactions: seq<ConfirmedTransaction>, nextTransactionId: int)

  /** A freshly constructed ledger: empty, next id 1. */
  const Initial: Ledger := Ledger([], 1)

  /** addTransaction: append a sale numbered with the counter, then advance the counter. */
  function AddTransaction(l: Ledger, item: StockItem, quantity: int, now: int): Ledger {
    Ledger(l.transactions + [ConfirmedTransaction(l.nextTransactionId, item, quantity, now)], l.nextTransactionId + 1)
  }

  /** getTransaction: the sale in that row, or a default sale when the row is out of range. */
  function GetTransaction(l: Ledger, row: int): (r: ConfirmedTransaction)
    ensures 0 <= row < |l.transactions| ==> r in l.transactions
    ensures !(0 <= row < |l.transactions|) ==> r == DefaultConfirmed
  {
    if 0 <= row < |l.transactions| then l.transactions[row] else DefaultConfirmed
  }

  /** clearTransactions: empty the ledger and restart numbering at 1. */
  function ClearTransactions(l: Ledger): Ledger {
    Initial
  }

  /** The arguments of one addTransaction call. */
  datatype Sale = Sale(item: StockItem, quantity: int, timestamp: int)

  /** The ledger after the given additions, applied first to last. */
  function AddAll(l: Ledger, sales: seq<Sale>): Ledger
    decreases |sales|
  {
    if |sales| == 0 then l
    else
      var last := sales[|sales| - 1];
      AddTransaction(AddAll(l, sales[..|sales| - 1]), last.item, last.quantity, last.timestamp)
  }

  /** Row k holds id k + 1 and the counter is one past the last row. */
  ghost predicate Numbered(l: Ledger) {
    && l.nextTransactionId == |l.transactions| + 1
    && forall k :: 0 <= k < |l.transactions| ==> l.transactions[k].transactionId == k + 1
  }

  /**
    Between clears the ledger only grows: any run of additions keeps every
    earlier sale in place and appends one sale per addition, numbered on from
    the counter and carrying the item and quantity exactly as passed.
  */
  lemma {:induction false} AddAllAppends(l: Ledger, sales: seq<Sale>)
    ensures var r, n := AddAll(l, sales), |l.transactions|;
      && |r.transactions| == n + |sales|
      && r.transactions[..n] == l.transactions
      && r.nextTransactionId == l.nextTransactionId + |sales|
      && forall k :: 0 <= k < |sales| ==>
           r.transactions[n + k] ==
             ConfirmedTransaction(l.nextTransactionId + k, sales[k].item, sales[k].quantity, sales[k].timestamp)
    decreases |sales|
  {
    if |sales| > 0 {
      var init := sales[..|sales| - 1];
      AddAllAppends(l, init);
      var prev := AddAll(l, init);
      var n := |l.transactions|;
      var r := AddAll(l, sales);
      assert r.transactions == prev.transactions + [r.transactions[|r.transactions| - 1]];
      assert r.transactions[..n] == prev.transactions[..n];
      forall k | 0 <= k < |sales|
        ensures r.transactions[n + k] ==
          ConfirmedTransaction(l.nextTransactionId + k, sales[k].item, sales[k].quantity, sales[k].timestamp)
      {
        if k < |sales| - 1 {
          assert sales[k] == init[k];
        }
      }
    }
  }

  /** One addition keeps the numbering 1..n consecutive. */
  lemma AddTransactionKeepsNumbered(l: Ledger, item: StockItem, quantity: int, now: int)
    requires Numbered(l)
    ensures Numbered(AddTransaction(l, item, quantity, now))
    ensures AddTransaction(l, item, quantity, now).transactions[|l.transactions|].transactionId == |l.transactions| + 1
  {
  }

  /** Starting from a clear (or construction), after n additions the ids are exactly 1..n in order. */
  lemma ClearThenAddAllNumbered(l: Ledger, sales: seq<Sale>)
    ensures Numbered(AddAll(ClearTransactions(l), sales))
    ensures |AddAll(ClearTransactions(l), sales).transactions| == |sales|
  {
    AddAllAppends(Initial, sales);
  }
}
