/**
  The pending-order queue (TransactionModel). Each order holds a value copy of
  a catalog record; ids come from a counter that only a clear resets.
*/
module TransactionModel {
  import opened StockModel
  import opened Seqs

  /** A pending order: its id, a snapshot of the record, the quantity, and the clock reading when it was made. */
  datatype Transaction = Transaction(transactionId: int, item: StockItem, quantity: int, timestamp: int)

  /** A value-initialised Transaction. */
  const DefaultTransaction: Transaction := Transaction(0, DefaultItem, 0, 0)

  /** The pending orders, in the order they were made, and the id the next one receives. */
  datatype Pending = Pending(transactions: seq<Transaction>, nextTransactionId: int)

  /** A freshly constructed model: no orders, next id 1. */
  const Initial: Pending := Pending([], 1)

  /** addTransaction: append an order numbered with the counter, then advance the counter. */
  function AddTransaction(p: Pending, item: StockItem, quantity: int, now: int): Pending {
    Pending(p.transactions + [Transaction(p.nextTransactionId, item, quantity, now)], p.nextTransactionId + 1)
  }

  /** getTransaction: the order in that row, or a default order when the row is out of range. */
  function GetTransaction(p: Pending, row: int): (r: Transaction)
    ensures 0 <= row < |p.transactions| ==> r in p.transactions
    ensures !(0 <= row < |p.transactions|) ==> r == DefaultTransaction
  {
    if 0 <= row < |p.transactions| then p.transactions[row] else DefaultTransaction
  }

  /** removeTransaction: drop that row when it exists; the counter is untouched. */
  function RemoveTransaction(p: Pending, row: int): Pending {
    if 0 <= row < |p.transactions| then Pending(RemoveAt(p.transactions, row), p.nextTransactionId) else p
  }

  /** clearTransactions: empty the queue and restart numbering at 1. */
  function ClearTransactions(p: Pending): Pending {
    Initial
  }

  /** Ids increase strictly along the queue and all lie below the counter. */
  ghost predicate IdsFresh(p: Pending) {
    && (forall i, j :: 0 <= i < j < |p.transactions| ==>
          p.transactions[i].transactionId < p.transactions[j].transactionId)
    && (forall i :: 0 <= i < |p.transactions| ==> p.transactions[i].transactionId < p.nextTransactionId)
  }

  /** Construction and clearing both give an empty queue numbered from 1. */
  lemma ClearTransactionsResets(p: Pending)
    ensures ClearTransactions(p).transactions == [] && ClearTransactions(p).nextTransactionId == 1
    ensures IdsFresh(ClearTransactions(p)) && IdsFresh(Initial)
  {
  }

  /**
    addTransaction appends one order carrying the counter as its id, a copy of
    the item and the quantity as given; earlier orders are untouched, the
    counter grows by one and the ids stay fresh.
  */
  lemma AddTransactionSpec(p: Pending, item: StockItem, quantity: int, now: int)
    requires IdsFresh(p)
    ensures var r, n := AddTransaction(p, item, quantity, now), |p.transactions|;
      && |r.transactions| == n + 1
      && r.transactions[..n] == p.transactions
      && r.transactions[n] == Transaction(p.nextTransactionId, item, quantity, now)
      && r.nextTransactionId == p.nextTransactionId + 1
      && IdsFresh(r)
  {
    var r, n := AddTransaction(p, item, quantity, now), |p.transactions|;
    assert r.transactions[..n] == p.transactions;
  }

  /**
    removeTransaction out of range changes nothing; in range it removes exactly
    that row, keeps the others in order, leaves the counter alone and keeps
    the ids fresh.
  */
  lemma RemoveTransactionSpec(p: Pending, row: int)
    requires IdsFresh(p)
    ensures var r := RemoveTransaction(p, row);
      && IdsFresh(r)
      && r.nextTransactionId == p.nextTransactionId
      && (!(0 <= row < |p.transactions|) ==> r == p)
      && (0 <= row < |p.transactions| ==>
            |r.transactions| == |p.transactions| - 1
            && (forall k :: 0 <= k < row ==> r.transactions[k] == p.transactions[k])
            && (forall k :: row <= k < |r.transactions| ==> r.transactions[k] == p.transactions[k + 1]))
  {
    if 0 <= row < |p.transactions| {
      var r := RemoveTransaction(p, row).transactions;
      forall i, j | 0 <= i < j < |r| ensures r[i].transactionId < r[j].transactionId {
        var i' := if i < row then i else i + 1;
        var j' := if j < row then j else j + 1;
        assert r[i] == p.transactions[i'] && r[j] == p.transactions[j'];
      }
    }
  }

  /**
    Ids are never reused: after removing any row, the next order's id differs
    from every id the queue held before the removal, the removed one included.
  */
  lemma NoIdReuse(p: Pending, row: int, item: StockItem, quantity: int, now: int)
    requires IdsFresh(p)
    ensures var r := AddTransaction(RemoveTransaction(p, row), item, quantity, now);
      forall k :: 0 <= k < |p.transactions| ==>
        r.transactions[|r.transactions| - 1].transactionId != p.transactions[k].transactionId
  {
    RemoveTransactionSpec(p, row);
  }
}
