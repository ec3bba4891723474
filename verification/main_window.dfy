/**
  The main window's business rules (MainWindow): new-id allocation, adding,
  editing and deleting catalog records, queueing orders, confirming an order
  against the catalog and the ledger, mapping the period selector, and reading
  the analytics lines back from their display text to feed the restock list.

  Dialogs become parameters: `accepted` says whether every dialog of a step
  was accepted, `selection` is the table's current row (None when no row is
  current), and `Env` carries the clock and the selector and spin-box values.
*/
module MainWindow {
  import opened Wrappers
  import opened Text
  import opened StockModel
  import TransactionModel
  import ConfirmedTransactionModel
  import AnalyticsModel
  import opened HowMuchModel

  /** Everything the window owns. */
  datatype App = App(
    catalog: Store,
    pending: TransactionModel.Pending,
    ledger: ConfirmedTransactionModel.Ledger,
    analytics: AnalyticsModel.Model,
    recommendations: seq<StockRecommendation>)

  /**
    What the window reads from outside its models: the clock, the period
    selector's index, the factor 1.65 * sqrt(daysToStock) taken from the
    days spin box, the two-decimal rate formatting and QString::toDouble.
  */
  datatype Env = Env(
    now: int,
    periodIndex: int,
    stockFactor: real,
    rateText: real -> string,
    toDouble: string -> real)

  // ---------------------------------------------------------------------------
  // New-id allocation

  /**
    The id loop: start at 1 and, for at most |ids| rounds, step past a
    candidate that is already taken.
  */
  function IdScan(ids: seq<int>, i: nat, newId: int): int
    decreases |ids| - i
  {
    if i >= |ids| then newId
    else if newId in ids then IdScan(ids, i + 1, newId + 1)
    else newId
  }

  function FirstFreeId(ids: seq<int>): int {
    IdScan(ids, 0, 1)
  }

  /** The distinct values of a sequence. */
  function ValuesOf(ids: seq<int>): (r: set<int>)
    ensures forall x :: x in r <==> x in ids
  {
    if |ids| == 0 then {} else {ids[0]} + ValuesOf(ids[1..])
  }

  /** The ids 1..n. */
  function Range(n: nat): (r: set<int>)
    ensures forall x :: x in r <==> 1 <= x <= n
  {
    if n == 0 then {} else Range(n - 1) + {n}
  }

  /** A sequence has no more distinct values than entries. */
  lemma {:induction false} DistinctValuesBound(ids: seq<int>)
    ensures |ValuesOf(ids)| <= |ids|
  {
    if |ids| > 0 {
      DistinctValuesBound(ids[1..]);
    }
  }

  /** The ids 1..n are n values. */
  lemma {:induction false} RangeSize(n: nat)
    ensures |Range(n)| == n
  {
    if n > 0 {
      RangeSize(n - 1);
    }
  }

  /** A subset is no larger than its superset. */
  lemma SubsetSize(a: set<int>, b: set<int>)
    requires a <= b
    ensures |a| <= |b|
  {
    assert b == a + (b - a);
    assert a * (b - a) == {};
  }

  /** If 1..n+1 all occur in `ids`, then `ids` has more than n entries. */
  lemma Pigeonhole(ids: seq<int>, n: nat)
    requires forall x :: 1 <= x <= n + 1 ==> x in ids
    ensures |ids| > n
  {
    DistinctValuesBound(ids);
    RangeSize(n + 1);
    SubsetSize(Range(n + 1), ValuesOf(ids));
  }

  /** Each round of the scan keeps every id below the candidate taken. */
  lemma {:induction false} IdScanSmallest(ids: seq<int>, i: nat, newId: int)
    requires i <= |ids| && newId == i + 1
    requires forall x :: 1 <= x < newId ==> x in ids
    ensures var r := IdScan(ids, i, newId);
      r >= 1 && r !in ids && forall x :: 1 <= x < r ==> x in ids
    decreases |ids| - i
  {
    if i >= |ids| {
      if newId in ids {
        Pigeonhole(ids, |ids|);
      }
    } else if newId in ids {
      IdScanSmallest(ids, i + 1, newId + 1);
    }
  }

  /** The loop yields the smallest positive id not already taken. */
  lemma FirstFreeIdSmallest(ids: seq<int>)
    ensures var r := FirstFreeId(ids);
      r >= 1 && r !in ids && forall x :: 1 <= x < r ==> x in ids
  {
    IdScanSmallest(ids, 0, 1);
  }

  /** The ids of the given rows, top to bottom. */
  function IdsOf(rows: seq<StockItem>): (r: seq<int>)
    ensures |r| == |rows|
    ensures forall k :: 0 <= k < |rows| ==> r[k] == rows[k].id
  {
    seq(|rows|, k requires 0 <= k < |rows| => rows[k].id)
  }

  // ---------------------------------------------------------------------------
  // Catalog editing

  /** The record a completed add dialog describes: everything in stock, nothing sold. */
  function NewRecord(id: int, name: string, price: real, stock: int): StockItem {
    StockItem(id, name, price, stock, stock, 0)
  }

  /**
    onAddButtonClicked as written: an empty name or a cancelled dialog adds
    nothing; otherwise the new id is allocated over the VISIBLE rows only.
  */
  function AddProductAsWritten(cat: Store, name: string, price: real, stock: int, accepted: bool): Store {
    if !accepted || |name| == 0 then cat
    else AddItem(cat, NewRecord(FirstFreeId(IdsOf(cat.filteredItems)), name, price, stock))
  }

  /**
    As written, a completed add appends one record whose id is the smallest
    positive id no VISIBLE row carries, with everything remaining and nothing
    sold; an empty name or a cancelled dialog adds nothing.
  */
  lemma AddProductAsWrittenSpec(cat: Store, name: string, price: real, stock: int, accepted: bool)
    ensures var r := AddProductAsWritten(cat, name, price, stock, accepted);
      && (!accepted || |name| == 0 ==> r == cat)
      && (accepted && |name| > 0 ==>
            && r.items[..|cat.items|] == cat.items && |r.items| == |cat.items| + 1
            && var x := r.items[|cat.items|];
               && x.id >= 1
               && (forall k :: 0 <= k < |cat.filteredItems| ==> cat.filteredItems[k].id != x.id)
               && (forall v :: 1 <= v < x.id ==> v in IdsOf(cat.filteredItems))
               && x.productName == name && x.price == price
               && x.stock == stock && x.remaining == stock && x.sold == 0)
  {
    if accepted && |name| > 0 {
      var ids := IdsOf(cat.filteredItems);
      FirstFreeIdSmallest(ids);
      var r := AddProductAsWritten(cat, name, price, stock, accepted);
      assert r.items[..|cat.items|] == cat.items;
      forall k | 0 <= k < |cat.filteredItems| ensures cat.filteredItems[k].id != FirstFreeId(ids) {
        assert ids[k] == cat.filteredItems[k].id;
      }
    }
  }

  /**
    With a filter hiding item 2, the allocation over the visible rows picks
    id 2 again and the catalog ends up holding two records with id 2.
  */
  lemma AddProductAsWrittenDuplicatesId()
    ensures var a, b := StockItem(1, "a", 1.0, 5, 5, 0), StockItem(2, "b", 1.0, 5, 5, 0);
      var cat := Store([a, b], [a], "a");
      && Valid(cat) && UniqueIds(cat.items)
      && !UniqueIds(AddProductAsWritten(cat, "c", 1.0, 5, true).items)
  {
    var a, b := StockItem(1, "a", 1.0, 5, 5, 0), StockItem(2, "b", 1.0, 5, 5, 0);
    var cat := Store([a, b], [a], "a");
    assert Lower("a") == "a" && Lower("b") == "b";
    assert StartsWith("a", "a");
    assert !Contains("", "a");
    assert "b"[..1] == "b" && "b"[1..] == "";
    assert !Contains("b", "a");
    assert [a, b][1..] == [b];
    assert Select([b], "a") == [];
    assert Valid(cat);
    assert IdsOf([a]) == [1];
    assert FirstFreeId([1]) == 2;
    var r := AddProductAsWritten(cat, "c", 1.0, 5, true);
    assert r.items[1].id == 2 && r.items[2].id == 2;
  }

  /**
    onAddButtonClicked with the allocation taken over the full list, so that
    no hidden record can already hold the new id.
  */
  function AddProduct(cat: Store, name: string, price: real, stock: int, accepted: bool): Store {
    if !accepted || |name| == 0 then cat
    else AddItem(cat, NewRecord(FirstFreeId(IdsOf(cat.items)), name, price, stock))
  }

  /**
    A completed add appends one record with a fresh positive id, the given
    name, price and stock, everything remaining and nothing sold; the ids stay
    unique and the visible rows stay the projection. An empty name or a
    cancelled dialog leaves the catalog as it was.
  */
  lemma AddProductSpec(cat: Store, name: string, price: real, stock: int, accepted: bool)
    requires Valid(cat) && UniqueIds(cat.items)
    ensures var r := AddProduct(cat, name, price, stock, accepted);
      && Valid(r) && UniqueIds(r.items)
      && (!accepted || |name| == 0 ==> r == cat)
      && (accepted && |name| > 0 ==>
            && |r.items| == |cat.items| + 1
            && r.items[..|cat.items|] == cat.items
            && var x := r.items[|cat.items|];
               && x.id >= 1 && (forall k :: 0 <= k < |cat.items| ==> cat.items[k].id != x.id)
               && x.productName == name && x.price == price
               && x.stock == stock && x.remaining == stock && x.sold == 0)
  {
    if accepted && |name| > 0 {
      var ids := IdsOf(cat.items);
      FirstFreeIdSmallest(ids);
      var x := NewRecord(FirstFreeId(ids), name, price, stock);
      forall k | 0 <= k < |cat.items| ensures cat.items[k].id != x.id {
        assert ids[k] == cat.items[k].id;
      }
      AddItemKeepsValid(cat, x);
      AddItemKeepsUniqueIds(cat, x);
      assert AddProduct(cat, name, price, stock, accepted).items[..|cat.items|] == cat.items;
    }
  }

  /** The row a selection designates, when there is one and it is on the table. */
  predicate Selects(cat: Store, selection: Option<int>) {
    selection.Some? && 0 <= selection.value < |cat.filteredItems|
  }

  /**
    onEditButtonClicked: without a current row, or when a dialog is
    cancelled, nothing changes; otherwise the selected row's record takes the
    new name, price and stock, and its remaining count becomes the new stock
    less what it has already sold. The name is not checked for emptiness.
  */
  function EditProduct(cat: Store, selection: Option<int>, name: string, price: real, stock: int, accepted: bool): Store {
    if selection.None? || !accepted then cat
    else
      var row := selection.value;
      var item := GetItem(cat, row);
      UpdateItem(cat, row, item.(productName := name, price := price, stock := stock, remaining := stock - item.sold))
  }

  /**
    An accepted edit keeps the record's id and sales count and keeps
    sold + remaining equal to the new stock; ids stay unique. When the new
    name still passes the filter the visible rows stay the projection and
    the row shows the edited record.
  */
  lemma EditProductSpec(cat: Store, row: int, name: string, price: real, stock: int)
    requires Valid(cat) && UniqueIds(cat.items)
    requires Selects(cat, Some(row))
    ensures var x, r := cat.filteredItems[row], EditProduct(cat, Some(row), name, price, stock, true);
      && UniqueIds(r.items)
      && |r.filteredItems| == |cat.filteredItems|
      && var y := r.filteredItems[row];
         && y.id == x.id && y.sold == x.sold
         && y.productName == name && y.price == price && y.stock == stock
         && y.sold + y.remaining == stock
         && (Passes(y, cat.currentFilter) ==> Valid(r) && GetItem(r, row) == y)
  {
    var x := cat.filteredItems[row];
    var y := x.(productName := name, price := price, stock := stock, remaining := stock - x.sold);
    var r := EditProduct(cat, Some(row), name, price, stock, true);
    assert r == UpdateItem(cat, row, y);
    assert r.filteredItems == cat.filteredItems[row := y];
    UpdateItemKeepsIds(cat, row, y);
    if Passes(y, cat.currentFilter) {
      UpdateItemKeepsValid(cat, row, y);
    }
  }

  /** Without a current row, or when a dialog is cancelled, an edit changes nothing. */
  lemma EditProductCancelled(cat: Store, selection: Option<int>, name: string, price: real, stock: int, accepted: bool)
    requires selection.None? || !accepted
    ensures EditProduct(cat, selection, name, price, stock, accepted) == cat
  {
  }

  /** onDeleteButtonClicked: remove the current row once the question is answered Yes. */
  function DeleteProduct(cat: Store, selection: Option<int>, confirmed: bool): Store {
    if selection.Some? && confirmed then RemoveItem(cat, selection.value) else cat
  }

  /**
    A confirmed delete of a row on the table removes exactly that record and
    keeps every other one; any delete keeps the projection and unique ids.
  */
  lemma DeleteProductSpec(cat: Store, selection: Option<int>, confirmed: bool)
    requires Valid(cat) && UniqueIds(cat.items)
    ensures var r := DeleteProduct(cat, selection, confirmed);
      && Valid(r) && UniqueIds(r.items)
      && (!confirmed || !Selects(cat, selection) ==> r == cat)
      && (confirmed && Selects(cat, selection) ==>
            var x := cat.filteredItems[selection.value];
            && |r.items| == |cat.items| - 1
            && forall y :: y in r.items <==> y in cat.items && y != x)
  {
    if selection.Some? && confirmed {
      RemoveItemKeepsValid(cat, selection.value);
      RemoveItemKeepsUniqueIds(cat, selection.value);
      if Selects(cat, selection) {
        RemoveItemDeletesRow(cat, selection.value);
      }
    }
  }

  /** onFilterTextChanged: refilter the catalog with the new text. */
  function FilterChanged(cat: Store, text: string): (r: Store)
    ensures Valid(r) && r.items == cat.items
    ensures forall y :: y in r.filteredItems <==> y in cat.items && Passes(y, text)
  {
    SelectMembers(cat.items, text);
    SelectAll(cat.items);
    FilterItems(cat, text)
  }

  // ---------------------------------------------------------------------------
  // Queueing an order

  /**
    onManualAddClicked: on Accept, queue the record shown in the dialog's
    selected row with the spin-box quantity. The spin box admits 1..9999.
  */
  function ManualAdd(pending: TransactionModel.Pending, cat: Store, row: int, quantity: int, accepted: bool, now: int): TransactionModel.Pending
    requires 1 <= quantity <= 9999
  {
    if accepted then TransactionModel.AddTransaction(pending, GetItem(cat, row), quantity, now) else pending
  }

  /**
    An accepted manual add queues one order for the record in the chosen
    visible row, numbered with the counter, with the chosen quantity; a
    cancelled one queues nothing.
  */
  lemma ManualAddSpec(pending: TransactionModel.Pending, cat: Store, row: int, quantity: int, accepted: bool, now: int)
    requires 1 <= quantity <= 9999
    requires Valid(cat) && 0 <= row < |cat.filteredItems|
    requires TransactionModel.IdsFresh(pending)
    ensures var r := ManualAdd(pending, cat, row, quantity, accepted, now);
      && TransactionModel.IdsFresh(r)
      && (!accepted ==> r == pending)
      && (accepted ==>
            && |r.transactions| == |pending.transactions| + 1
            && r.transactions[..|pending.transactions|] == pending.transactions
            && var t := r.transactions[|pending.transactions|];
               && t.transactionId == pending.nextTransactionId
               && t.item == cat.filteredItems[row] && t.quantity == quantity
               && t.item in cat.items && Passes(t.item, cat.currentFilter)
               && 1 <= t.quantity <= 9999 && t.timestamp == now)
  {
    if accepted {
      TransactionModel.AddTransactionSpec(pending, GetItem(cat, row), quantity, now);
    }
  }

  // ---------------------------------------------------------------------------
  // Confirming an order

  /**
    The stock update of onConfirmTransactionClicked: find the first visible
    row carrying the order's record id. If enough remains, take the order's
    quantity; if not, and the low-stock question is answered Yes, sell what
    remains and leave nothing; answered No, or with no such row, nothing
    changes. The ledger records the order's snapshot of the record, not the
    current catalog record.
  */
  function Settle(cat: Store, ledger: ConfirmedTransactionModel.Ledger, t: TransactionModel.Transaction,
                  acceptPartial: bool, now: int): (Store, ConfirmedTransactionModel.Ledger)
  {
    match FindById(cat.filteredItems, t.item.id)
    case None => (cat, ledger)
    case Some(i) =>
      var x := GetItem(cat, i);
      if x.remaining < t.quantity then
        if !acceptPartial then (cat, ledger)
        else
          (UpdateItem(cat, i, x.(sold := x.sold + x.remaining, remaining := 0)),
           ConfirmedTransactionModel.AddTransaction(ledger, t.item, x.remaining, now))
      else
        (UpdateItem(cat, i, x.(remaining := x.remaining - t.quantity, sold := x.sold + t.quantity)),
         ConfirmedTransactionModel.AddTransaction(ledger, t.item, t.quantity, now))
  }

  /** The low-stock question was asked and answered No. */
  predicate Declined(x: StockItem, t: TransactionModel.Transaction, acceptPartial: bool) {
    x.remaining < t.quantity && !acceptPartial
  }

  /** The smaller of two counts. */
  function Min(a: int, b: int): (m: int)
    ensures m <= a && m <= b && (m == a || m == b)
  {
    if a <= b then a else b
  }

  /**
    Settling keeps the projection and unique ids and appends at most one sale
    to the ledger; when no visible row carries the order's record id, catalog
    and ledger are untouched.
  */
  lemma SettleSpec(cat: Store, ledger: ConfirmedTransactionModel.Ledger, t: TransactionModel.Transaction,
                   acceptPartial: bool, now: int)
    requires Valid(cat) && UniqueIds(cat.items)
    ensures var (c, l) := Settle(cat, ledger, t, acceptPartial, now);
      && Valid(c) && UniqueIds(c.items)
      && |ledger.transactions| <= |l.transactions| <= |ledger.transactions| + 1
      && l.transactions[..|ledger.transactions|] == ledger.transactions
      && ((forall k :: 0 <= k < |cat.filteredItems| ==> cat.filteredItems[k].id != t.item.id) ==> c == cat && l == ledger)
  {
    var (c, l) := Settle(cat, ledger, t, acceptPartial, now);
    match FindById(cat.filteredItems, t.item.id)
    case None =>
    case Some(i) =>
      var x := GetItem(cat, i);
      if !Declined(x, t, acceptPartial) {
        var y := if x.remaining < t.quantity then x.(sold := x.sold + x.remaining, remaining := 0)
                 else x.(remaining := x.remaining - t.quantity, sold := x.sold + t.quantity);
        assert c == UpdateItem(cat, i, y);
        UpdateItemKeepsValid(cat, i, y);
        UpdateItemKeepsIds(cat, i, y);
        assert l.transactions[..|ledger.transactions|] == ledger.transactions;
      }
  }

  /**
    With a matching visible row: a declined shortfall leaves catalog and
    ledger untouched. Otherwise only that record changes; it keeps its id,
    name, price and stock, what moves from remaining to sold is exactly the
    quantity of the one sale the ledger gains, namely the smaller of the
    order's quantity and what remained, and nothing remains below zero.
  */
  lemma SettleMatched(cat: Store, ledger: ConfirmedTransactionModel.Ledger, t: TransactionModel.Transaction,
                      acceptPartial: bool, now: int, i: nat)
    requires Valid(cat) && UniqueIds(cat.items)
    requires FindById(cat.filteredItems, t.item.id) == Some(i)
    ensures var x, (c, l) := cat.filteredItems[i], Settle(cat, ledger, t, acceptPartial, now);
      var n := |ledger.transactions|;
      && (Declined(x, t, acceptPartial) ==> c == cat && l == ledger)
      && (!Declined(x, t, acceptPartial) ==>
            var y := c.filteredItems[i];
            && y.id == x.id && y.productName == x.productName && y.price == x.price && y.stock == x.stock
            && y.sold + y.remaining == x.sold + x.remaining
            && y.remaining >= 0
            && |l.transactions| == n + 1 && l.transactions[..n] == ledger.transactions
            && l.transactions[n].item == t.item && l.transactions[n].timestamp == now
            && l.transactions[n].quantity == y.sold - x.sold == Min(t.quantity, x.remaining)
            && (forall z :: z in c.items <==> z == y || (z in cat.items && z != x)))
  {
    var x := cat.filteredItems[i];
    if !Declined(x, t, acceptPartial) {
      var y := if x.remaining < t.quantity then x.(sold := x.sold + x.remaining, remaining := 0)
               else x.(remaining := x.remaining - t.quantity, sold := x.sold + t.quantity);
      var (c, l) := Settle(cat, ledger, t, acceptPartial, now);
      assert c == UpdateItem(cat, i, y);
      UpdateItemReplacesRecord(cat, i, y);
      assert l.transactions[..|ledger.transactions|] == ledger.transactions;
    }
  }

  // ---------------------------------------------------------------------------
  // The analytics tab

  /** The period selector: index 1 is the last month, 2 the last year, anything else the last week. */
  function PeriodOfIndex(index: int): (p: AnalyticsModel.TimePeriod)
    ensures p == AnalyticsModel.LastMonth <==> index == 1
    ensures p == AnalyticsModel.LastYear <==> index == 2
    ensures p == AnalyticsModel.LastWeek <==> index != 1 && index != 2
  {
    match index
    case 0 => AnalyticsModel.LastWeek
    case 1 => AnalyticsModel.LastMonth
    case 2 => AnalyticsModel.LastYear
    case _ => AnalyticsModel.LastWeek
  }

  const RateEnd: string := "/day"

  /**
    Reading one analytics line back from its display text: split on
    " - Sold: " and take the first two pieces, split the second on
    " (Rate: " and take the first two pieces, and cut the rate at "/day".
    None is the case where a piece indexed by the source does not exist.
    The days field is not set by the source; it is 0 here.
  */
  function ReadLine(text: string, toDouble: string -> real): Option<AnalyticsModel.ProductAnalytics> {
    var parts := Split(text, AnalyticsModel.SoldSeparator);
    if |parts| < 2 then None
    else
      var soldParts := Split(parts[1], AnalyticsModel.RateSeparator);
      if |soldParts| < 2 then None
      else
        var rateStr := Split(soldParts[1], RateEnd)[0];
        Some(AnalyticsModel.ProductAnalytics(parts[0], ParseInt(soldParts[0]), 0, toDouble(rateStr)))
  }

  /** The separator written after the name is the first one in the text. */
  predicate ReadableName(name: string) {
    FirstIndex(name + AnalyticsModel.SoldSeparator, AnalyticsModel.SoldSeparator) == Some(|name|)
  }

  /** Rate text as two-decimal formatting produces it: digits, a point and a sign only. */
  predicate RateText(t: string) {
    forall i :: 0 <= i < |t| ==> IsDigit(t[i]) || t[i] == '.' || t[i] == '-'
  }

  /** What a line reads back as: the name and total exactly, the rate through its text. */
  function ReadBack(a: AnalyticsModel.ProductAnalytics, env: Env): AnalyticsModel.ProductAnalytics {
    AnalyticsModel.ProductAnalytics(a.productName, a.totalSold, 0, env.toDouble(env.rateText(a.salesRate)))
  }

  /** A readable name has no earlier separator in any text it starts. */
  lemma ReadableNameFirst(name: string, rest: string)
    requires ReadableName(name)
    ensures forall j :: 0 <= j < |name| ==>
      !OccursAt(name + AnalyticsModel.SoldSeparator + rest, AnalyticsModel.SoldSeparator, j)
  {
    var sep := AnalyticsModel.SoldSeparator;
    var s := name + sep + rest;
    var f := FirstIndex(name + sep, sep);
    assert s[..|name| + |sep|] == name + sep;
    forall j | 0 <= j < |name| ensures !OccursAt(s, sep, j) {
      assert j < f.value;
      assert !OccursAt(name + sep, sep, j);
      assert s[j..j + |sep|] == (name + sep)[j..j + |sep|];
    }
  }

  /** The first split of a display text with a readable name: the name, then all the rest. */
  lemma SplitSold(name: string, rest: string)
    requires ReadableName(name) && 'S' !in rest
    ensures Split(name + AnalyticsModel.SoldSeparator + rest, AnalyticsModel.SoldSeparator) == [name, rest]
  {
    ReadableNameFirst(name, rest);
    SplitAt(name, AnalyticsModel.SoldSeparator, rest);
    SplitWithout(rest, AnalyticsModel.SoldSeparator, 'S');
  }

  /** The remaining splits: the total's text, then the rate text cut at "/day". */
  lemma SplitRate(d: string, rt: string)
    requires ' ' !in d && RateText(rt)
    ensures Split(d + AnalyticsModel.RateSeparator + (rt + AnalyticsModel.RateSuffix), AnalyticsModel.RateSeparator)
      == [d, rt + AnalyticsModel.RateSuffix]
    ensures Split(rt + AnalyticsModel.RateSuffix, RateEnd)[0] == rt
  {
    var rest := rt + AnalyticsModel.RateSuffix;
    SplitAtFirstChar(d, AnalyticsModel.RateSeparator, rest);
    assert '(' !in rest;
    SplitWithout(rest, AnalyticsModel.RateSeparator, '(');
    assert rest == rt + RateEnd + ")";
    SplitAtFirstChar(rt, RateEnd, ")");
  }

  /** The text after the name holds no capital S when the rate text is plain digits. */
  lemma TailHasNoS(n: int, rt: string)
    requires RateText(rt)
    ensures 'S' !in IntToString(n) + AnalyticsModel.RateSeparator + (rt + AnalyticsModel.RateSuffix)
    ensures ' ' !in IntToString(n)
  {
    IntToStringChars(n);
  }

  /**
    The display text of a line reads back as the same name and total, with
    the rate passed through its text, provided the separator written after
    the name is the first one and the rate text is plain digits.
  */
  lemma ReadLineRoundTrip(a: AnalyticsModel.ProductAnalytics, rt: string, toDouble: string -> real)
    requires ReadableName(a.productName) && RateText(rt)
    ensures ReadLine(AnalyticsModel.Display(a, rt), toDouble) ==
      Some(AnalyticsModel.ProductAnalytics(a.productName, a.totalSold, 0, toDouble(rt)))
  {
    var d := IntToString(a.totalSold);
    var rest := d + AnalyticsModel.RateSeparator + (rt + AnalyticsModel.RateSuffix);
    assert AnalyticsModel.Display(a, rt) == a.productName + AnalyticsModel.SoldSeparator + rest;
    TailHasNoS(a.totalSold, rt);
    SplitSold(a.productName, rest);
    SplitRate(d, rt);
    ParseIntRoundTrip(a.totalSold);
  }

  /** A name without a colon is readable. */
  lemma ColonFreeNameReadable(name: string)
    requires ':' !in name
    ensures ReadableName(name)
  {
    var sep := AnalyticsModel.SoldSeparator;
    assert sep[0] == ' ' && sep[1] == '-' && sep[2] == ' ' && sep[3] == 'S' && sep[4] == 'o';
    assert sep[5] == 'l' && sep[6] == 'd' && sep[7] == ':' && sep[8] == ' ';
    var s := name + sep;
    assert s[|name|..|name| + |sep|] == sep;
    forall j | 0 <= j < |name| ensures !OccursAt(s, sep, j) {
      if j + |sep| <= |s| {
        var w := s[j..j + |sep|];
        if j + 7 < |name| {
          assert w[7] == name[j + 7];
        } else {
          var e := |name| - j;
          assert w[e] == s[|name|] == ' ';
          assert w[e + 1] == s[|name| + 1] == '-';
        }
      }
    }
    FirstIndexIs(s, sep, |name|);
  }

  /** The name read back is the text before the first separator, whatever follows it. */
  lemma ReadLineName(text: string, toDouble: string -> real)
    ensures var r, f := ReadLine(text, toDouble), FirstIndex(text, AnalyticsModel.SoldSeparator);
      r.Some? ==> f.Some? && r.value.productName == text[..f.value]
  {
  }

  /** A text with no capital S from index 3 on holds no sold separator. */
  lemma NoSoldSeparator(tail: string)
    requires forall k :: 3 <= k < |tail| ==> tail[k] != 'S'
    ensures Split(tail, AnalyticsModel.SoldSeparator) == [tail]
  {
    AnalyticsModel.SeparatorChars();
    SplitLateChar(tail, AnalyticsModel.SoldSeparator, 3);
  }

  /** ReadLine in terms of its pieces, when both splits yield at least two. */
  lemma ReadLinePieces(text: string, toDouble: string -> real, name: string, mid: string, more: seq<string>,
                       d: string, rest: string, more2: seq<string>)
    requires Split(text, AnalyticsModel.SoldSeparator) == [name, mid] + more
    requires Split(mid, AnalyticsModel.RateSeparator) == [d, rest] + more2
    ensures ReadLine(text, toDouble) ==
      Some(AnalyticsModel.ProductAnalytics(name, ParseInt(d), 0, toDouble(Split(rest, RateEnd)[0])))
  {
  }

  /** ReadLine fails when the second piece holds no " (Rate: ". */
  lemma ReadLineShort(text: string, toDouble: string -> real, name: string, mid: string, more: seq<string>)
    requires Split(text, AnalyticsModel.SoldSeparator) == [name, mid] + more
    requires |Split(mid, AnalyticsModel.RateSeparator)| < 2
    ensures ReadLine(text, toDouble) == None
  {
  }

  /** What the display text holds after the first separator: total, rate separator, rate, suffix. */
  function DisplayAfter(sold: int, rt: string): string {
    IntToString(sold) + AnalyticsModel.RateSeparator + (rt + AnalyticsModel.RateSuffix)
  }

  /** What follows "Rice" and the first separator in the display text of "Rice - Sold:". */
  function MisreadTail(sold: int, rt: string): string {
    "- Sold: " + DisplayAfter(sold, rt)
  }

  /** The display text is the name, the sold separator, and what follows it. */
  lemma DisplayAround(a: AnalyticsModel.ProductAnalytics, rt: string)
    ensures AnalyticsModel.Display(a, rt) == a.productName + AnalyticsModel.SoldSeparator + DisplayAfter(a.totalSold, rt)
  {
  }

  /**
    A name ending in a separator less its last character, followed by the
    separator, reads as the name's stem, the separator, then the separator
    less its first character, when the separator starts and ends alike.
  */
  lemma Regroup(n: string, w: string, after: string)
    requires |w| >= 1 && w[|w| - 1] == w[0]
    ensures (n + w[..|w| - 1]) + w + after == n + w + (w[1..] + after)
  {
    assert w[..|w| - 1] + w == w + w[1..] by {
      forall k | 0 <= k < 2 * |w| - 1 ensures (w[..|w| - 1] + w)[k] == (w + w[1..])[k] {
        if k < |w| - 1 {
        } else if k == |w| - 1 {
        } else {
        }
      }
    }
  }

  /** The display text of "Rice - Sold:" has a separator right after "Rice". */
  lemma MisreadText(a: AnalyticsModel.ProductAnalytics, rt: string)
    requires a.productName == "Rice - Sold:"
    ensures AnalyticsModel.Display(a, rt) == "Rice" + AnalyticsModel.SoldSeparator + MisreadTail(a.totalSold, rt)
  {
    var ss := AnalyticsModel.SoldSeparator;
    DisplayAround(a, rt);
    assert a.productName == "Rice" + ss[..|ss| - 1];
    assert ss[1..] == "- Sold: ";
    Regroup("Rice", ss, DisplayAfter(a.totalSold, rt));
  }

  /** Past its index 2, a text made of "- Sold: " and an S-free rest holds no capital S. */
  lemma NoLateS(after: string)
    requires 'S' !in after
    ensures forall k :: 3 <= k < |"- Sold: " + after| ==> ("- Sold: " + after)[k] != 'S'
  {
    var p := "- Sold: ";
    assert p[3] == 'o' && p[4] == 'l' && p[5] == 'd' && p[6] == ':' && p[7] == ' ';
    forall k | 3 <= k < |p + after| ensures (p + after)[k] != 'S' {
      if k >= |p| {
        assert (p + after)[k] == after[k - |p|];
      }
    }
  }

  /** The first split of that text: "Rice", then the whole tail. */
  lemma MisreadSoldSplit(sold: int, rt: string)
    requires RateText(rt)
    ensures Split("Rice" + AnalyticsModel.SoldSeparator + MisreadTail(sold, rt), AnalyticsModel.SoldSeparator)
      == ["Rice", MisreadTail(sold, rt)]
  {
    TailHasNoS(sold, rt);
    NoLateS(DisplayAfter(sold, rt));
    NoSoldSeparator(MisreadTail(sold, rt));
    SplitAtFirstChar("Rice", AnalyticsModel.SoldSeparator, MisreadTail(sold, rt));
  }

  /** Regrouping a concatenation of four pieces. */
  lemma Assoc(p: string, q: string, r: string, t: string)
    ensures p + (q + r + t) == (p + q) + r + t
  {
  }

  /** Two pieces without "(" around the rate separator split back into those pieces. */
  lemma RateSplitOf(d: string, rest: string)
    requires '(' !in d && '(' !in rest
    ensures Split(d + AnalyticsModel.RateSeparator + rest, AnalyticsModel.RateSeparator) == [d, rest]
  {
    AnalyticsModel.SeparatorChars();
    SplitPairSecondChar(d, AnalyticsModel.RateSeparator, rest);
  }

  /** Neither the total's text after the misplaced cut nor the rate part holds "(". */
  lemma MisreadNoParen(sold: int, rt: string)
    requires RateText(rt)
    ensures '(' !in "- Sold: " + IntToString(sold)
    ensures '(' !in rt + AnalyticsModel.RateSuffix
  {
    IntToStringChars(sold);
    var w := "- Sold: ";
    assert '(' !in w;
    var suffix := AnalyticsModel.RateSuffix;
    assert '(' !in suffix;
  }

  /** The second split of the tail: the words with the total, then the rate text. */
  lemma MisreadRateSplit(sold: int, rt: string)
    requires RateText(rt)
    ensures Split(MisreadTail(sold, rt), AnalyticsModel.RateSeparator)
      == ["- Sold: " + IntToString(sold), rt + AnalyticsModel.RateSuffix]
  {
    Assoc("- Sold: ", IntToString(sold), AnalyticsModel.RateSeparator, rt + AnalyticsModel.RateSuffix);
    MisreadNoParen(sold, rt);
    RateSplitOf("- Sold: " + IntToString(sold), rt + AnalyticsModel.RateSuffix);
  }

  lemma MisreadTotalText(t: string)
    requires |t| > 0 && !IsSpace(t[|t| - 1])
    ensures var s := "- Sold: " + t; |s| > 1 && !IsSpace(s[0]) && !IsSpace(s[|s| - 1]) && !IsDigit(s[1])
  {
    var s := "- Sold: " + t;
    assert s[0] == '-' && s[1] == ' ' && s[|s| - 1] == t[|t| - 1];
  }

  /** After the misplaced cut, the text before " (Rate: " is not a number and reads as 0. */
  lemma MisreadTotal(n: int)
    ensures ParseInt("- Sold: " + IntToString(n)) == 0
  {
    var t := IntToString(n);
    var s := "- Sold: " + t;
    IntToStringTrimmed(n);
    MisreadTotalText(t);
    ParseIntNonDigit(s, 1);
  }

  /**
    A name ending in " - Sold:" is not readable: the product "Rice - Sold:"
    reads back as "Rice", with the words " - Sold: " and its total taken as
    the total's text, which reads as 0. The rate survives.
  */
  lemma TrailingSeparatorMisread(sold: int, days: int, rate: real, rt: string, toDouble: string -> real)
    requires RateText(rt)
    ensures ReadLine(AnalyticsModel.Display(AnalyticsModel.ProductAnalytics("Rice - Sold:", sold, days, rate), rt), toDouble)
      == Some(AnalyticsModel.ProductAnalytics("Rice", 0, 0, toDouble(rt)))
  {
    var a := AnalyticsModel.ProductAnalytics("Rice - Sold:", sold, days, rate);
    var text := AnalyticsModel.Display(a, rt);
    MisreadText(a, rt);
    MisreadSoldSplit(sold, rt);
    MisreadRateSplit(sold, rt);
    ReadLinePieces(text, toDouble, "Rice", MisreadTail(sold, rt), [],
                   "- Sold: " + IntToString(sold), rt + AnalyticsModel.RateSuffix, []);
    SplitRate("", rt);
    MisreadTotal(sold);
  }

  /** The display text of a name x + " - Sold: " + y, regrouped around the separators. */
  lemma SeparatorInNameText(x: string, y: string, a: AnalyticsModel.ProductAnalytics, rt: string)
    requires a.productName == x + AnalyticsModel.SoldSeparator + y
    ensures var rest := IntToString(a.totalSold) + AnalyticsModel.RateSeparator + rt + AnalyticsModel.RateSuffix;
      AnalyticsModel.Display(a, rt) == x + AnalyticsModel.SoldSeparator + (y + AnalyticsModel.SoldSeparator + rest)
  {
  }

  /**
    A name that contains " - Sold: " followed by a piece without "(" leaves
    too few pieces after the second split: the source indexes past the end
    of the list, which the model reports as None.
  */
  lemma SeparatorInNameFails(x: string, y: string, sold: int, days: int, rate: real, rt: string, toDouble: string -> real)
    requires ' ' !in x && ' ' !in y && '(' !in y
    ensures var name := x + AnalyticsModel.SoldSeparator + y;
      ReadLine(AnalyticsModel.Display(AnalyticsModel.ProductAnalytics(name, sold, days, rate), rt), toDouble) == None
  {
    var ss := AnalyticsModel.SoldSeparator;
    var a := AnalyticsModel.ProductAnalytics(x + ss + y, sold, days, rate);
    var rest := IntToString(sold) + AnalyticsModel.RateSeparator + rt + AnalyticsModel.RateSuffix;
    SeparatorInNameText(x, y, a, rt);
    AnalyticsModel.SeparatorChars();
    SplitTwoFirstChar(x, y, ss, rest);
    SplitWithout(y, AnalyticsModel.RateSeparator, '(');
    ReadLineShort(AnalyticsModel.Display(a, rt), toDouble, x, y, Split(rest, ss));
  }

  /** Reading back every line in order; the first unreadable line ends the pass. */
  function Reread(lines: seq<AnalyticsModel.ProductAnalytics>, env: Env): (r: Option<seq<AnalyticsModel.ProductAnalytics>>)
    ensures r.Some? ==> |r.value| == |lines|
  {
    if |lines| == 0 then Some([])
    else
      match ReadLine(AnalyticsModel.Display(lines[0], env.rateText(lines[0].salesRate)), env.toDouble)
      case None => None
      case Some(x) =>
        match Reread(lines[1..], env)
        case None => None
        case Some(xs) => Some([x] + xs)
  }

  /** Every line is readable: its name is, and its rate formats as plain digits. */
  predicate Readable(lines: seq<AnalyticsModel.ProductAnalytics>, env: Env) {
    forall i :: 0 <= i < |lines| ==> ReadableName(lines[i].productName) && RateText(env.rateText(lines[i].salesRate))
  }

  /** Dropping the first line keeps the rest readable. */
  lemma ReadableTail(lines: seq<AnalyticsModel.ProductAnalytics>, env: Env)
    requires |lines| > 0 && Readable(lines, env)
    ensures Readable(lines[1..], env)
  {
    var rest := lines[1..];
    forall i | 0 <= i < |rest|
      ensures ReadableName(rest[i].productName) && RateText(env.rateText(rest[i].salesRate))
    {
      assert rest[i] == lines[i + 1];
    }
  }

  /** One step of the read-back pass: when the first line and the rest both read back, so does the whole. */
  lemma RereadCons(lines: seq<AnalyticsModel.ProductAnalytics>, env: Env)
    requires |lines| > 0
    ensures var h, t := ReadLine(AnalyticsModel.Display(lines[0], env.rateText(lines[0].salesRate)), env.toDouble), Reread(lines[1..], env);
      h.Some? && t.Some? ==> Reread(lines, env) == Some([h.value] + t.value)
  {
  }

  /** Readable lines read back one for one, names and totals intact. */
  lemma {:induction false} RereadReadable(lines: seq<AnalyticsModel.ProductAnalytics>, env: Env)
    requires Readable(lines, env)
    ensures var r := Reread(lines, env);
      r.Some? && |r.value| == |lines| && forall i :: 0 <= i < |lines| ==> r.value[i] == ReadBack(lines[i], env)
  {
    if |lines| > 0 {
      var a, rest := lines[0], lines[1..];
      ReadLineRoundTrip(a, env.rateText(a.salesRate), env.toDouble);
      ReadableTail(lines, env);
      RereadReadable(rest, env);
      var tail := Reread(rest, env).value;
      RereadCons(lines, env);
      forall i | 0 <= i < |lines| ensures ([ReadBack(a, env)] + tail)[i] == ReadBack(lines[i], env) {
        if i > 0 {
          assert rest[i - 1] == lines[i];
        }
      }
    }
  }

  /** The restock list rebuilt from the current analytics lines, when they read back. */
  function Restock(app: App, env: Env): Option<App> {
    match Reread(app.analytics.analyticsData, env)
    case None => None
    case Some(lines) => Some(app.(recommendations := UpdateRecommendations(lines, env.stockFactor, app.catalog)))
  }

  /**
    onTimePeriodChanged: recompute the analytics for the selected period from
    the whole ledger, then rebuild the restock list from the lines read back.
    None stands for the source indexing past a split list.
  */
  function OnTimePeriodChanged(app: App, index: int, env: Env): Option<App> {
    var period := PeriodOfIndex(index);
    Restock(app.(analytics := AnalyticsModel.UpdateAnalytics(app.analytics, app.ledger.transactions, period, env.now)), env)
  }

  /** onDaysToStockChanged: rebuild the restock list from the current lines with the new factor. */
  function OnDaysToStockChanged(app: App, env: Env): Option<App> {
    Restock(app, env)
  }

  /**
    When the lines read back, rebuilding the restock list changes nothing but
    that list, which then holds one recommendation per analytics line, for
    its name, at the factor times the rate read back, out-of-stock first.
  */
  lemma RestockSpec(app: App, env: Env)
    requires Readable(app.analytics.analyticsData, env)
    ensures var r := Restock(app, env);
      var lines := app.analytics.analyticsData;
      && r.Some?
      && r.value.(recommendations := app.recommendations) == app
      && |r.value.recommendations| == |lines|
      && multiset(r.value.recommendations) ==
           multiset(RecommendAll(seq(|lines|, i requires 0 <= i < |lines| => ReadBack(lines[i], env)),
                                 env.stockFactor, app.catalog.filteredItems))
      && (forall i, j :: 0 <= i < j < |r.value.recommendations| ==>
            r.value.recommendations[i].isOutOfStock || !r.value.recommendations[j].isOutOfStock)
  {
    var lines := app.analytics.analyticsData;
    RereadReadable(lines, env);
    var back := Reread(lines, env).value;
    assert back == seq(|lines|, i requires 0 <= i < |lines| => ReadBack(lines[i], env));
    UpdateRecommendationsCorrect(back, env.stockFactor, app.catalog);
  }

  /**
    A change of the days-to-stock value rebuilds only the restock list, from
    the analytics lines as they stand: it succeeds whenever they read back,
    gives one recommendation per line with out-of-stock products first, and
    for readable lines the recommendations are those of the lines read back
    at the new factor.
  */
  lemma OnDaysToStockChangedSpec(app: App, env: Env)
    ensures var r, lines := OnDaysToStockChanged(app, env), app.analytics.analyticsData;
      Readable(lines, env) ==>
        && r.Some?
        && multiset(r.value.recommendations) ==
             multiset(RecommendAll(seq(|lines|, i requires 0 <= i < |lines| => ReadBack(lines[i], env)),
                                   env.stockFactor, app.catalog.filteredItems))
    ensures var r, lines := OnDaysToStockChanged(app, env), app.analytics.analyticsData;
      r.Some? ==>
        && r.value.(recommendations := app.recommendations) == app
        && |r.value.recommendations| == |lines|
        && (forall i, j :: 0 <= i < j < |r.value.recommendations| ==>
              r.value.recommendations[i].isOutOfStock || !r.value.recommendations[j].isOutOfStock)
  {
    var lines := app.analytics.analyticsData;
    if Reread(lines, env).Some? {
      UpdateRecommendationsCorrect(Reread(lines, env).value, env.stockFactor, app.catalog);
    }
    if Readable(lines, env) {
      RestockSpec(app, env);
    }
  }

  /**
    A period change succeeds whenever the recomputed lines read back; it
    leaves catalog, queue and ledger alone and recomputes the analytics from
    the ledger for the selected period.
  */
  lemma OnTimePeriodChangedSpec(app: App, index: int, env: Env)
    ensures var r := OnTimePeriodChanged(app, index, env);
      Readable(AnalyticsModel.CalculateAnalytics(app.ledger.transactions, PeriodOfIndex(index), env.now), env) ==> r.Some?
    ensures var r := OnTimePeriodChanged(app, index, env);
      r.Some? ==>
        && r.value.catalog == app.catalog && r.value.pending == app.pending && r.value.ledger == app.ledger
        && r.value.analytics.currentPeriod == PeriodOfIndex(index)
        && r.value.analytics.analyticsData ==
             AnalyticsModel.CalculateAnalytics(app.ledger.transactions, PeriodOfIndex(index), env.now)
  {
    var period := PeriodOfIndex(index);
    var updated := app.(analytics := AnalyticsModel.UpdateAnalytics(app.analytics, app.ledger.transactions, period, env.now));
    if Readable(updated.analytics.analyticsData, env) {
      RestockSpec(updated, env);
    }
  }

  // ---------------------------------------------------------------------------
  // The transactions tab

  /**
    onConfirmTransactionClicked: without a current row nothing happens.
    Otherwise the order in that row is settled against the catalog, the row
    is removed from the queue whether or not anything was sold, and the
    analytics are refreshed for the selector's period. The row comes from
    the catalog table's current index, as in the source.
  */
  function Confirm(app: App, selection: Option<int>, acceptPartial: bool, env: Env): Option<App> {
    if selection.None? then Some(app)
    else
      var row := selection.value;
      var t := TransactionModel.GetTransaction(app.pending, row);
      var (cat, ledger) := Settle(app.catalog, app.ledger, t, acceptPartial, env.now);
      var pending := TransactionModel.RemoveTransaction(app.pending, row);
      OnTimePeriodChanged(app.(catalog := cat, pending := pending, ledger := ledger), env.periodIndex, env)
  }

  /**
    A confirm succeeds whenever the refreshed analytics lines read back. It
    drops the selected queue row even when nothing is sold, keeps the
    catalog's projection and unique ids, only ever appends to the ledger, and
    leaves analytics computed from the updated ledger.
  */
  lemma ConfirmSpec(app: App, row: int, acceptPartial: bool, env: Env)
    requires Valid(app.catalog) && UniqueIds(app.catalog.items)
    ensures var t := TransactionModel.GetTransaction(app.pending, row);
      var ledger := Settle(app.catalog, app.ledger, t, acceptPartial, env.now).1;
      Readable(AnalyticsModel.CalculateAnalytics(ledger.transactions, PeriodOfIndex(env.periodIndex), env.now), env) ==>
        Confirm(app, Some(row), acceptPartial, env).Some?
    ensures var r := Confirm(app, Some(row), acceptPartial, env);
      var n := |app.ledger.transactions|;
      r.Some? ==>
        && r.value.pending == TransactionModel.RemoveTransaction(app.pending, row)
        && Valid(r.value.catalog) && UniqueIds(r.value.catalog.items)
        && n <= |r.value.ledger.transactions| <= n + 1
        && r.value.ledger.transactions[..n] == app.ledger.transactions
        && r.value.analytics.analyticsData ==
             AnalyticsModel.CalculateAnalytics(r.value.ledger.transactions, PeriodOfIndex(env.periodIndex), env.now)
  {
    var t := TransactionModel.GetTransaction(app.pending, row);
    var (cat, ledger) := Settle(app.catalog, app.ledger, t, acceptPartial, env.now);
    var settled := app.(catalog := cat, pending := TransactionModel.RemoveTransaction(app.pending, row), ledger := ledger);
    assert Confirm(app, Some(row), acceptPartial, env) == OnTimePeriodChanged(settled, env.periodIndex, env);
    SettleSpec(app.catalog, app.ledger, t, acceptPartial, env.now);
    OnTimePeriodChangedSpec(settled, env.periodIndex, env);
  }

  /** Without a current row a confirm changes nothing at all. */
  lemma ConfirmWithoutSelection(app: App, acceptPartial: bool, env: Env)
    ensures Confirm(app, None, acceptPartial, env) == Some(app)
  {
  }

  /** onDeleteTransactionClicked: remove the current row from the queue once answered Yes. */
  function DeleteTransaction(pending: TransactionModel.Pending, selection: Option<int>, confirmed: bool): TransactionModel.Pending {
    if selection.Some? && confirmed then TransactionModel.RemoveTransaction(pending, selection.value) else pending
  }

  /**
    Deleting an order touches only the queue: a confirmed delete of an
    existing row removes that row and keeps the rest in order; otherwise the
    queue is unchanged. Ids stay fresh and the counter is not rewound.
  */
  lemma DeleteTransactionSpec(pending: TransactionModel.Pending, selection: Option<int>, confirmed: bool)
    requires TransactionModel.IdsFresh(pending)
    ensures var r := DeleteTransaction(pending, selection, confirmed);
      && TransactionModel.IdsFresh(r)
      && r.nextTransactionId == pending.nextTransactionId
      && (!(confirmed && selection.Some? && 0 <= selection.value < |pending.transactions|) ==> r == pending)
      && (confirmed && selection.Some? && 0 <= selection.value < |pending.transactions| ==>
            r.transactions == pending.transactions[..selection.value] + pending.transactions[selection.value + 1..])
  {
    if selection.Some? && confirmed {
      var row := selection.value;
      TransactionModel.RemoveTransactionSpec(pending, row);
      if 0 <= row < |pending.transactions| {
        var r := DeleteTransaction(pending, selection, confirmed);
        assert r.transactions == pending.transactions[..row] + pending.transactions[row + 1..];
      }
    }
  }
}
