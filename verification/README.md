# SariSariSleuth inventory core in Dafny

SariSariSleuth is a desktop inventory tool for a small neighbourhood store
(a *sari-sari* store). The shop owner keeps a catalog of products, with the
stock received, how much is sold and how much remains. Orders are queued as
pending transactions. Confirming an order moves units from "remaining" to
"sold" and appends a record to a ledger of confirmed sales. From that ledger
the program derives per-product sales rates over a time window. From the
rates it derives restocking recommendations.

This project models that core as pure functions over immutable values:

- `StockModel` (stock_model.dfy) is the catalog. It holds the full item list,
  the filtered list the table shows, and the case-insensitive substring
  filter. The invariant `Valid` says the visible list is exactly the
  order-preserving selection of the full list by the filter.
- `TransactionModel` (transaction_model.dfy) is the pending-order queue.
  Ids come from a counter that only a clear resets.
- `ConfirmedTransactionModel` (confirmed_transaction_model.dfy) is the
  append-only ledger of completed sales.
- `AnalyticsModel` (analytics_model.dfy) holds the time windows, the
  per-name tally of sales inside a window, the sales rates and the
  descending sort. It also holds the display line each product is shown as.
- `HowMuchModel` (how_much_model.dfy) holds the restocking recommendations.
  Each amount is the stock factor times the sales rate. Out-of-stock products
  come first, and each group is sorted by amount, largest first.
- `MainWindow` (main_window.dfy) holds the business rules of the main
  window:
  - id allocation for a new product;
  - initialisation of a new or edited record;
  - the confirm workflow: full fill, partial fill, or decline;
  - the mapping from the period combo box to a window;
  - the parse of the analytics display strings back into numbers, which
    feeds the recommendations.
- `Text`, `Seqs`, `Sorting` and `Wrappers` are support modules:
  - `Text`: ASCII lower-casing, substring search, `split`, decimal integers;
  - `Seqs`: `removeAt` and `removeOne`;
  - `Sorting`: a descending insertion sort that stands for `std::sort` with
    a `>` comparator;
  - `Wrappers`: `Option`.

Values from the environment are parameters, carried by `MainWindow.Env`:
- the clock, as seconds;
- the selected period index;
- the stock factor, `1.65 * sqrt(days)`, as one real `k`;
- the two-decimal rendering of a rate (`rateText`);
- the text-to-double conversion (`toDouble`).

Dialog outcomes are booleans. The current table selection is an
`Option<int>`.

## Model

| member | source | states |
|---|---|---|
| StockModel.RowCount | SariSariSleuth/stockmodel.cpp:9-15 | on a consistent catalog the row count never exceeds the number of records, and equals it when the filter is empty |
| StockModel.AddItemKeepsValid | SariSariSleuth/stockmodel.cpp:126-136 | appending a record to the full list, and to the visible list only when it passes the filter, keeps the visible list equal to the filter's selection of the full list |
| StockModel.AddItemKeepsUniqueIds | SariSariSleuth/stockmodel.cpp:126-136 | adding a record whose id no existing record has keeps ids unique |
| StockModel.RemoveItemDeletesRow | SariSariSleuth/stockmodel.cpp:138-150 | removing an in-range row takes the record shown there out of both lists: the full list loses it at the one position it held and keeps all other records in order, and the visible list loses that row and keeps the other rows in order |
| StockModel.RemoveItemKeepsValid | SariSariSleuth/stockmodel.cpp:138-150 | removing a visible row keeps the visible list equal to the filter's selection of the full list |
| StockModel.RemoveItemKeepsUniqueIds | SariSariSleuth/stockmodel.cpp:138-150 | removing a row keeps ids unique |
| StockModel.UpdateItemKeepsIds | SariSariSleuth/stockmodel.cpp:152-171 | an update keeps the length of the full list and the id at every position, so unique ids stay unique |
| StockModel.UpdateItemKeepsValid | SariSariSleuth/stockmodel.cpp:152-171 | when the new record keeps the row's id and still passes the filter, the visible list stays the filter's selection of the full list and the row now shows the new record |
| StockModel.UpdateItemReplacesRecord | SariSariSleuth/stockmodel.cpp:152-171 | an in-range update with the row's id swaps the new record for the old one in the full list and keeps every other record |
| StockModel.ReplaceFirstById | SariSariSleuth/stockmodel.cpp:163-168 | only the first record with the id is overwritten; the length is kept and every other position is unchanged; with no such id the list is unchanged |
| StockModel.FindById | SariSariSleuth/mainwindow.cpp:623-625 | the result is the first position whose record has the id, and None exactly when no record has it |
| StockModel.GetItem | SariSariSleuth/stockmodel.cpp:173-177 | on a consistent catalog an in-range row yields a catalog record that passes the filter; any other row yields a default-constructed record |
| StockModel.FilterItems | SariSariSleuth/stockmodel.cpp:179-197 | the filter is stored, the full list is untouched, and the visible list holds exactly the records whose names contain the text, ignoring case |
| StockModel.SelectAll | SariSariSleuth/stockmodel.cpp:187-188 | an empty filter selects the whole list |
| StockModel.SelectMembers | SariSariSleuth/stockmodel.cpp:190-194 | a record is in the selection exactly when it is in the list and its name contains the filter, ignoring case |
| StockModel.SelectAppend | SariSariSleuth/stockmodel.cpp:190-194 | the selection of a concatenation is the concatenation of the selections, so order is preserved |
| StockModel.SelectIdempotent | SariSariSleuth/stockmodel.cpp:190-194 | filtering twice by the same text gives the same list as filtering once |
| Text.ContainsIffOccurs | SariSariSleuth/stockmodel.cpp:191 | substring containment holds exactly when the needle occurs at some position of the haystack |
| Text.FirstIndex | SariSariSleuth/mainwindow.cpp:727-731 | the result is the first position where the separator occurs, and None exactly when it occurs nowhere |
| Text.SplitAt | SariSariSleuth/mainwindow.cpp:727-731 | splitting a + sep + b, where sep does not occur before the end of a, yields a followed by the split of b |
| Text.SplitWithout | SariSariSleuth/mainwindow.cpp:731 | a string lacking a character of the separator splits into one part, itself |
| Text.ParseIntRoundTrip | SariSariSleuth/mainwindow.cpp:730 | reading back the decimal text of any integer yields that integer |
| Text.ParseIntSurroundingSpace | SariSariSleuth/mainwindow.cpp:730 | white space before or after the total's text does not change the number it reads as, since toInt skips it |
| Seqs.RemoveAt | SariSariSleuth/transactionmodel.cpp:85 | removing position i shortens the list by one, keeps the elements before i, and shifts the ones after i down |
| Seqs.RemoveFirst | SariSariSleuth/stockmodel.cpp:148 | a present value is cut out at its first position, with no copy before it, and the elements on either side keep their order; an absent value leaves the list unchanged |
| Sorting.SortDesc | SariSariSleuth/analyticsmodel.cpp:100-103 | the output is a permutation of the input and is non-increasing in the key |
| TransactionModel.GetTransaction | SariSariSleuth/transactionmodel.cpp:73-77 | an in-range row yields an order from the queue; any other row yields a default order |
| TransactionModel.AddTransactionSpec | SariSariSleuth/transactionmodel.cpp:58-71 | one order is appended with the counter as its id and the item and quantity as given; earlier orders are kept, the counter grows by one, and ids stay increasing and below the counter |
| TransactionModel.RemoveTransactionSpec | SariSariSleuth/transactionmodel.cpp:79-88 | an out-of-range row changes nothing; otherwise exactly that row goes, the others keep their order, and the counter is untouched |
| TransactionModel.NoIdReuse | SariSariSleuth/transactionmodel.cpp:58-88 | after any removal, the next order's id differs from every id the queue held before, the removed one included |
| TransactionModel.ClearTransactionsResets | SariSariSleuth/transactionmodel.cpp:90-95 | clearing gives an empty queue whose numbering restarts at 1 |
| ConfirmedTransactionModel.GetTransaction | SariSariSleuth/confirmedtransactionmodel.cpp:73-77 | an in-range row yields a sale from the ledger; any other row yields a default sale |
| ConfirmedTransactionModel.AddAllAppends | SariSariSleuth/confirmedtransactionmodel.cpp:60-71 | any run of additions keeps every earlier sale in place and appends one sale per addition, numbered on from the counter, with the item, quantity and time as passed |
| ConfirmedTransactionModel.AddTransactionKeepsNumbered | SariSariSleuth/confirmedtransactionmodel.cpp:60-71 | when row k holds id k+1, an addition keeps that numbering and gives the new sale id n+1 |
| ConfirmedTransactionModel.ClearThenAddAllNumbered | SariSariSleuth/confirmedtransactionmodel.cpp:79-84 | after a clear and n additions, the ledger holds n sales numbered 1..n in order |
| AnalyticsModel.WindowDaysAgree | SariSariSleuth/analyticsmodel.cpp:58-83 | the days subtracted for the cutoff equal the days the rate is divided by, for every period, and are positive |
| AnalyticsModel.FindTally | SariSariSleuth/analyticsmodel.cpp:78 | a found position holds that name; None means no tally has that name |
| AnalyticsModel.CreditExisting | SariSariSleuth/analyticsmodel.cpp:78-87 | crediting a name that already has a tally adds the quantity to that tally only |
| AnalyticsModel.CreditNew | SariSariSleuth/analyticsmodel.cpp:78-87 | crediting a new name appends a tally for it holding exactly the quantity |
| AnalyticsModel.TallyWindowCorrect | SariSariSleuth/analyticsmodel.cpp:71-89 | the tally holds one entry per distinct name sold at or after the cutoff, and each entry's total equals the reference sum of that name's quantities inside the window |
| AnalyticsModel.SoldOutsideWindowNames | SariSariSleuth/analyticsmodel.cpp:74-89 | a name with no sale inside the window sums to 0 there |
| AnalyticsModel.RateOrderIsTotalOrder | SariSariSleuth/analyticsmodel.cpp:95 | over one window, ordering by rate is the same as ordering by units sold |
| AnalyticsModel.CalculateAnalyticsLines | SariSariSleuth/analyticsmodel.cpp:52-97 | every output line names a product, carries that product's reference window total, the window's days, and rate = total / days |
| AnalyticsModel.CalculateAnalyticsNames | SariSariSleuth/analyticsmodel.cpp:71-97 | the output names are exactly the names sold inside the window, each exactly once |
| AnalyticsModel.CalculateAnalyticsOrder | SariSariSleuth/analyticsmodel.cpp:99-103 | the lines are in non-increasing order of sales rate |
| AnalyticsModel.DistinctNamesKept | SariSariSleuth/analyticsmodel.cpp:100-103 | reordering lines keeps their names pairwise distinct |
| AnalyticsModel.UpdateAndSetPeriod | SariSariSleuth/analyticsmodel.cpp:34-50 | updateAnalytics fully replaces the data, independent of the previous model, and records the period; setTimePeriod records the period and keeps the data |
| AnalyticsModel.Display | SariSariSleuth/analyticsmodel.cpp:24-29 | a line's text starts with the product name, has " - Sold: " right after it and ends in "/day)"; MainWindow.ReadLineRoundTrip shows that reading it back inverts it |
| HowMuchModel.OutOfStock | SariSariSleuth/howmuchmodel.cpp:47-54 | a product is flagged out of stock exactly when some visible row with its name has nothing remaining |
| HowMuchModel.WithFlagPartition | SariSariSleuth/howmuchmodel.cpp:60-65 | splitting recommendations by flag loses and adds nothing |
| HowMuchModel.GroupedOrder | SariSariSleuth/howmuchmodel.cpp:60-65 | putting a sorted out-of-stock group before a sorted in-stock group satisfies the comparator: flagged first, then larger amounts first |
| HowMuchModel.UpdateRecommendationsCorrect | SariSariSleuth/howmuchmodel.cpp:35-67 | the result is a permutation of one recommendation per analytics line, out-of-stock products all come first, and amounts do not increase within each group |
| HowMuchModel.AmountMonotone | SariSariSleuth/howmuchmodel.cpp:44 | with a non-negative stock factor, a higher sales rate never yields a smaller amount |
| MainWindow.IdScanSmallest | SariSariSleuth/mainwindow.cpp:227-234 | the probing loop returns the smallest positive integer at or above its start that is not among the ids |
| MainWindow.FirstFreeIdSmallest | SariSariSleuth/mainwindow.cpp:227-234 | the allocated id is at least 1, differs from every id scanned, and every smaller positive integer is among those ids |
| MainWindow.AddProductAsWrittenSpec | SariSariSleuth/mainwindow.cpp:181-243 | an empty name or a cancelled dialog adds nothing; otherwise one record is appended whose id is the smallest positive id no visible row has, with the entered name, price and stock, all of that stock remaining and nothing sold |
| MainWindow.AddProductAsWrittenDuplicatesId | SariSariSleuth/mainwindow.cpp:222-243 | with a filter hiding record 2, the add gives a second record id 2, so ids are no longer unique |
| MainWindow.AddProductSpec | SariSariSleuth/mainwindow.cpp:181-243 | with allocation over the full list, a completed add appends one record with a fresh positive id and the given fields, keeps ids unique and keeps the view consistent; a cancel or an empty name changes nothing |
| MainWindow.EditProductSpec | SariSariSleuth/mainwindow.cpp:294-376 | an accepted edit keeps the row's id and sold count, sets name, price and stock, and sets remaining to stock minus sold; ids stay unique, and the view stays consistent when the new name still passes the filter |
| MainWindow.EditProductCancelled | SariSariSleuth/mainwindow.cpp:295-368 | without a selection, or when the dialog is cancelled, the catalog is unchanged |
| MainWindow.DeleteProductSpec | SariSariSleuth/mainwindow.cpp:379-451 | a confirmed delete of a visible row removes exactly that record and keeps ids unique and the view consistent; otherwise nothing changes |
| MainWindow.FilterChanged | SariSariSleuth/mainwindow.cpp:453-455 | editing the filter text keeps the full list and shows exactly the records passing the new text |
| MainWindow.ManualAddSpec | SariSariSleuth/mainwindow.cpp:458-467 | an accepted dialog appends one order numbered with the counter, for exactly the record in the chosen visible row, with exactly the chosen quantity (1 to 9999) and the current time; ids stay fresh; a cancel changes nothing |
| MainWindow.SettleSpec | SariSariSleuth/mainwindow.cpp:619-649 | settling keeps the view consistent and ids unique; the ledger keeps its prefix and gains at most one sale; with no visible record of the order's id, nothing changes |
| MainWindow.SettleMatched | SariSariSleuth/mainwindow.cpp:623-647 | a declined partial fill changes nothing; otherwise the matched record keeps its identity and sold+remaining, remaining stays non-negative, the sale of min(ordered, remaining) is logged with the order's item and the current time, and only that record changes |
| MainWindow.ConfirmSpec | SariSariSleuth/mainwindow.cpp:580-657 | a confirm with a selection succeeds whenever the analytics recomputed from the settled ledger read back; it removes that pending row, keeps the catalog consistent with unique ids, grows the ledger by at most one while keeping its prefix, and recomputes analytics from the new ledger for the selected period |
| MainWindow.ConfirmWithoutSelection | SariSariSleuth/mainwindow.cpp:583-616 | with no pending row selected, confirm changes nothing |
| MainWindow.DeleteTransactionSpec | SariSariSleuth/mainwindow.cpp:659-701 | a confirmed delete of a selected row removes exactly that pending order and keeps ids fresh; otherwise nothing changes |
| MainWindow.PeriodOfIndex | SariSariSleuth/mainwindow.cpp:704-712 | index 1 maps to the last month, index 2 to the last year, and every other index to the last week |
| MainWindow.ReadLineRoundTrip | SariSariSleuth/mainwindow.cpp:724-739 | parsing a displayed line whose name is readable and whose rate text is numeric gives back the name, the units sold and the rate |
| MainWindow.ColonFreeNameReadable | SariSariSleuth/mainwindow.cpp:727-728 | a product name with no colon always parses back intact |
| MainWindow.ReadLineName | SariSariSleuth/mainwindow.cpp:727-728 | whenever a line reads back, the text contains " - Sold: " and the name read back is the text before its first occurrence |
| MainWindow.TrailingSeparatorMisread | SariSariSleuth/mainwindow.cpp:727-733 | the line of a product named "Rice - Sold:" reads back as name "Rice" with 0 units sold (the text "- Sold: 5" fails to convert) and the rate intact |
| MainWindow.SeparatorInNameFails | SariSariSleuth/mainwindow.cpp:727-731 | a name of the form x + " - Sold: " + y, with no space in x or y and no "(" in y, leaves too few pieces after the second split, so the read fails |
| MainWindow.Reread | SariSariSleuth/mainwindow.cpp:722-739 | a successful read-back yields one record per analytics line |
| MainWindow.RereadReadable | SariSariSleuth/mainwindow.cpp:722-739 | when every line is readable, the read-back succeeds and record i is line i's name, units and rate |
| MainWindow.RestockSpec | SariSariSleuth/mainwindow.cpp:722-741 | with readable lines, recomputing recommendations changes nothing else; the recommendations are a permutation of those for the read-back lines, with out-of-stock products first |
| MainWindow.OnTimePeriodChangedSpec | SariSariSleuth/mainwindow.cpp:704-741 | a period change succeeds whenever the recomputed lines read back; it leaves catalog, queue and ledger untouched, records the chosen period, and recomputes analytics from the ledger |
| MainWindow.OnDaysToStockChangedSpec | SariSariSleuth/mainwindow.cpp:744-766 | a days-to-stock change succeeds whenever the current lines read back and then yields the recommendations of the lines read back at the new factor; it changes nothing but the restock list, which has one entry per line, out-of-stock products first |

## Left out

- Qt plumbing is not modelled: signals, `beginInsertRows` and the like, `headerData`, `setData`, the `data` rendering of the stock, queue and ledger tables, and widgets. Dialogs are booleans and field values. The analytics line's text is modelled, as `AnalyticsModel.Display`, because the restock list is read back from it.
- The input dialogs bound price and stock (stock 0 to 1000000 on edit). The add and edit operations accept any values, and their properties hold for all of them. Only the manual-add quantity range (1 to 9999) is a precondition, since that dialog can return nothing else and the queued order carries it.
- Persistence (save, load, backup and restore, mainwindow.cpp:469-577) is file I/O and is not modelled.
- The camera, the custom shapes and the AR demo are outside the inventory core.
- Floating point: `1.65 * sqrt(days)`, the two-decimal rendering of a rate and `QString::toDouble` are environment parameters; rates are exact reals.
- Case folding is ASCII only; Qt folds all of Unicode.
- Integers are unbounded; a 32-bit overflow of ids, quantities or totals is not modelled.
- Text.ParseInt: `QString::toInt` fails, giving 0, for a number outside the 32-bit range. The model reads any digit string as its value.
- Time is integer seconds, and a day is 86400 seconds; `QDateTime::addDays` across a daylight-saving change is not modelled.
- `QString::arg` substitutes `%1`-style markers that appear inside a product name; the display text assumes names contain no such marker.
- Sorting.SortDesc: `std::sort` is unstable, so the source may order equal keys in any way. The model fixes one admissible order, and contracts speak only of properties every admissible order shares.
- AnalyticsModel.CalculateAnalytics: `QMap` visits names in key order before the sort. The model tallies in first-sale order; after the sort only equal-rate lines can differ.
- MainWindow.ReadBack: the read-back record's `timePeriodDays` is left uninitialised in the source; the model sets it to 0, and nothing downstream reads it.
- MainWindow.Confirm: the queue row that is confirmed is the catalog table's current row (`stockTableView->currentIndex()`), not a row of the queue table; the model takes it as the `selection` parameter. `MainWindow.DeleteTransaction` does the same. The catalog record is then found by the order's id, as in the source.
- MainWindow.EditProductSpec: claims the view stays consistent only when the edited name still passes the filter, because the source leaves a row that no longer matches on screen until the next filter change.
- MainWindow.Reread: an unreadable name has one of two outcomes. A name such as "A - Sold: B" leaves too few pieces, and the source indexes past the end of a split list (a crash); the model returns None (`MainWindow.SeparatorInNameFails`). A name such as "Rice - Sold:" is silently misread: the name comes back cut short and the total as 0 (`MainWindow.TrailingSeparatorMisread`).
- HowMuchModel: the `daysToStock` field and the recommendation table's display text are not modelled; only the computed factor `k` enters.
- The constructor's initial `onTimePeriodChanged(0)` is not modelled separately; it is `MainWindow.OnTimePeriodChanged` on the initial state.

## Findings

| source | as written | input that shows it | evidently intended | confidence | as-written member | corrected member |
|---|---|---|---|---|---|---|
| SariSariSleuth/mainwindow.cpp:222-234 | the new product's id is the smallest positive id not carried by a VISIBLE row | records 1 "a" and 2 "b", filter "a", add "c": the new record gets id 2 and the catalog holds two records with id 2 | allocate over the full item list, so ids stay unique | not executed | MainWindow.AddProductAsWrittenDuplicatesId | MainWindow.AddProductSpec |
