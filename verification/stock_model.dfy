/**
  The catalog store (StockModel): the full list of stock items, the visible
  rows derived from it by a case-insensitive name filter, and the operations
  the main window performs on them. Row numbers always index the visible rows.
*/
module StockModel {
  import opened Wrappers
  import opened Text
  import opened Seqs

  /** One catalog record. `price` is carried along and compared, never computed on. */
  datatype StockItem = StockItem(id: int, productName: string, price: real, stock: int, remaining: int, sold: int)

  /** A value-initialised StockItem: every field zero or empty. */
  const DefaultItem: StockItem := StockItem(0, "", 0.0, 0, 0, 0)

  /** The full list, the visible rows, and the filter text last applied. */
  datatype Store = Store(items: seq<StockItem>, filteredItems: seq<StockItem>, currentFilter: string)

  /** A freshly constructed model: no items, no filter. */
  const EmptyStore: Store := Store([], [], "")

  /** Qt::CaseInsensitive containment, approximated by ASCII lower-casing. */
  predicate ContainsIgnoringCase(hay: string, needle: string) {
    Contains(Lower(hay), Lower(needle))
  }

  /** Whether an item is shown under `filter`: an empty filter shows everything. */
  predicate Passes(item: StockItem, filter: string) {
    |filter| == 0 || ContainsIgnoringCase(item.productName, filter)
  }

  /** The projection of the full list onto the rows a filter shows, in catalog order. */
  function Select(items: seq<StockItem>, filter: string): (r: seq<StockItem>)
    ensures |r| <= |items|
  {
    if |items| == 0 then []
    else (if Passes(items[0], filter) then [items[0]] else []) + Select(items[1..], filter)
  }

  /** The visible rows are exactly the projection of the full list under the current filter. */
  ghost predicate Valid(st: Store) {
    st.filteredItems == Select(st.items, st.currentFilter)
  }

  /** No two records share an id. */
  ghost predicate UniqueIds(items: seq<StockItem>) {
    forall i, j :: 0 <= i < j < |items| ==> items[i].id != items[j].id
  }

  /** The first row whose id is `id`, scanning from the top. */
  function FindById(rows: seq<StockItem>, id: int): (r: Option<nat>)
    ensures r.Some? ==> r.value < |rows| && rows[r.value].id == id
    ensures r.Some? ==> forall k :: 0 <= k < r.value ==> rows[k].id != id
    ensures r.None? ==> forall k :: 0 <= k < |rows| ==> rows[k].id != id
  {
    if |rows| == 0 then None
    else if rows[0].id == id then Some(0)
    else match FindById(rows[1..], id)
      case None => None
      case Some(k) => Some(k + 1)
  }

  /** The loop in updateItem: overwrite the first record carrying `item`'s id, if any. */
  function ReplaceFirstById(items: seq<StockItem>, item: StockItem): (r: seq<StockItem>)
    ensures FindById(items, item.id).None? ==> r == items
    ensures FindById(items, item.id).Some? ==> r == items[FindById(items, item.id).value := item]
  {
    if |items| == 0 then []
    else if items[0].id == item.id then [item] + items[1..]
    else [items[0]] + ReplaceFirstById(items[1..], item)
  }

  /** rowCount: the number of visible rows. */
  function RowCount(st: Store): (n: nat)
    ensures Valid(st) ==> n <= |st.items|
    ensures Valid(st) && |st.currentFilter| == 0 ==> n == |st.items|
  {
    SelectAll(st.items);
    |st.filteredItems|
  }

  /** addItem: append to the full list, and to the visible rows when the item passes the filter. */
  function AddItem(st: Store, item: StockItem): Store {
    Store(st.items + [item],
          if Passes(item, st.currentFilter) then st.filteredItems + [item] else st.filteredItems,
          st.currentFilter)
  }

  /**
    removeItem: an out-of-range row changes nothing; otherwise drop that visible
    row and the first record of the full list equal to it in every field.
  */
  function RemoveItem(st: Store, row: int): Store {
    if row < 0 || row >= |st.filteredItems| then st
    else
      var x := st.filteredItems[row];
      Store(RemoveFirst(st.items, x), RemoveAt(st.filteredItems, row), st.currentFilter)
  }

  /**
    updateItem: an out-of-range row changes nothing; otherwise overwrite that
    visible row and the first record of the full list with the same id.
  */
  function UpdateItem(st: Store, row: int, item: StockItem): Store {
    if row < 0 || row >= |st.filteredItems| then st
    else Store(ReplaceFirstById(st.items, item), st.filteredItems[row := item], st.currentFilter)
  }

  /** getItem: the visible row, or a default record when the row is out of range. */
  function GetItem(st: Store, row: int): (r: StockItem)
    ensures !(0 <= row < |st.filteredItems|) ==> r == DefaultItem
    ensures Valid(st) && 0 <= row < |st.filteredItems| ==> r in st.items && Passes(r, st.currentFilter)
  {
    SelectMembers(st.items, st.currentFilter);
    if 0 <= row < |st.filteredItems| then st.filteredItems[row] else DefaultItem
  }

  /** filterItems: remember the text and rebuild the visible rows from the full list. */
  function FilterItems(st: Store, text: string): (r: Store)
    ensures Valid(r)
    ensures r.items == st.items && r.currentFilter == text
  {
    if |text| == 0 then
      SelectAll(st.items);
      Store(st.items, st.items, text)
    else
      Store(st.items, Select(st.items, text), text)
  }

  // ---------------------------------------------------------------------------
  // Properties of the projection

  /** With the empty filter every item is shown. */
  lemma {:induction false} SelectAll(items: seq<StockItem>)
    ensures Select(items, "") == items
  {
    if |items| > 0 {
      SelectAll(items[1..]);
      assert items == [items[0]] + items[1..];
    }
  }

  /** The projection distributes over concatenation, so it keeps catalog order. */
  lemma {:induction false} SelectAppend(a: seq<StockItem>, b: seq<StockItem>, filter: string)
    ensures Select(a + b, filter) == Select(a, filter) + Select(b, filter)
  {
    if |a| > 0 {
      assert (a + b)[1..] == a[1..] + b;
      SelectAppend(a[1..], b, filter);
    } else {
      assert a + b == b;
    }
  }

  /** Filtering the visible rows again with the same text changes nothing. */
  lemma {:induction false} SelectIdempotent(items: seq<StockItem>, filter: string)
    ensures Select(Select(items, filter), filter) == Select(items, filter)
  {
    if |items| > 0 {
      var head := if Passes(items[0], filter) then [items[0]] else [];
      SelectAppend(head, Select(items[1..], filter), filter);
      SelectIdempotent(items[1..], filter);
      if Passes(items[0], filter) {
        assert Select(head, filter) == head by {
          assert head[1..] == [];
        }
      }
    }
  }

  /** The projection shows exactly the items that pass the filter. */
  lemma {:induction false} SelectMembers(items: seq<StockItem>, filter: string)
    ensures forall x :: x in Select(items, filter) <==> x in items && Passes(x, filter)
  {
    if |items| > 0 {
      SelectMembers(items[1..], filter);
      assert items == [items[0]] + items[1..];
    }
  }

  lemma SelectSingle(x: StockItem, filter: string)
    ensures Select([x], filter) == if Passes(x, filter) then [x] else []
  {
    assert [x][1..] == [];
  }

  // ---------------------------------------------------------------------------
  // The store operations keep the projection invariant and unique ids

  /** addItem keeps the visible rows equal to the projection of the grown full list. */
  lemma AddItemKeepsValid(st: Store, item: StockItem)
    requires Valid(st)
    ensures Valid(AddItem(st, item))
    ensures AddItem(st, item).items == st.items + [item]
    ensures item in AddItem(st, item).filteredItems <==> item in st.filteredItems || Passes(item, st.currentFilter)
  {
    SelectAppend(st.items, [item], st.currentFilter);
    SelectSingle(item, st.currentFilter);
  }

  /** An item whose id is new keeps the ids unique. */
  lemma AddItemKeepsUniqueIds(st: Store, item: StockItem)
    requires UniqueIds(st.items)
    requires forall k :: 0 <= k < |st.items| ==> st.items[k].id != item.id
    ensures UniqueIds(AddItem(st, item).items)
  {
  }

  /** The projection of a list with one passing record spliced in. */
  lemma SelectSplice(a: seq<StockItem>, x: StockItem, b: seq<StockItem>, filter: string)
    requires Passes(x, filter)
    ensures Select(a + [x] + b, filter) == Select(a, filter) + [x] + Select(b, filter)
  {
    SelectAppend(a + [x], b, filter);
    SelectAppend(a, [x], filter);
    SelectSingle(x, filter);
  }

  /** The projection of a list split around position `i`. */
  lemma SelectAround(items: seq<StockItem>, i: nat, filter: string)
    requires i < |items| && Passes(items[i], filter)
    ensures items == items[..i] + [items[i]] + items[i + 1..]
    ensures Select(items, filter) == Select(items[..i], filter) + [items[i]] + Select(items[i + 1..], filter)
  {
    var a, x, b := items[..i], items[i], items[i + 1..];
    assert items == a + [x] + b;
    SelectAppend(a + [x], b, filter);
    SelectAppend(a, [x], filter);
    SelectSingle(x, filter);
  }

  /** With unique ids, a record occurs once: not before its first position, not after it. */
  lemma OnlyOccurrence(items: seq<StockItem>, i: nat)
    requires UniqueIds(items) && i < |items|
    ensures items[i] !in items[..i] && items[i] !in items[i + 1..]
    ensures FindById(items, items[i].id) == Some(i)
  {
    var b := items[i + 1..];
    forall k | 0 <= k < |b| ensures b[k] != items[i] {
      assert b[k] == items[i + 1 + k];
    }
    var a := items[..i];
    forall k | 0 <= k < |a| ensures a[k] != items[i] {
      assert a[k] == items[k];
    }
  }

  /** An element that occurs nowhere else in `a + [x] + b` sits at index |a|. */
  lemma PositionOfLoneElement(a: seq<StockItem>, x: StockItem, b: seq<StockItem>, row: nat)
    requires x !in a && x !in b
    requires row < |a + [x] + b| && (a + [x] + b)[row] == x
    ensures row == |a|
  {
    var s := a + [x] + b;
    assert forall k :: 0 <= k < |a| ==> s[k] == a[k];
    assert forall k :: |a| < k < |s| ==> s[k] == b[k - |a| - 1];
  }

  /**
    Where a visible row sits in the full list: with unique ids it is the single
    record with its id, and the rows above it are the projection of the records
    before it.
  */
  lemma LocateRow(st: Store, row: nat) returns (i: nat)
    requires Valid(st) && UniqueIds(st.items)
    requires row < |st.filteredItems|
    ensures i < |st.items| && st.items[i] == st.filteredItems[row]
    ensures st.items == st.items[..i] + [st.items[i]] + st.items[i + 1..]
    ensures row == |Select(st.items[..i], st.currentFilter)|
    ensures st.filteredItems ==
      Select(st.items[..i], st.currentFilter) + [st.items[i]] + Select(st.items[i + 1..], st.currentFilter)
    ensures FindById(st.items, st.items[i].id) == Some(i)
    ensures IndexOf(st.items, st.items[i]) == i
  {
    var f := st.currentFilter;
    var x := st.filteredItems[row];
    SelectMembers(st.items, f);
    i := IndexOf(st.items, x);
    SelectAround(st.items, i, f);
    OnlyOccurrence(st.items, i);
    var a, b := st.items[..i], st.items[i + 1..];
    SelectMembers(a, f);
    SelectMembers(b, f);
    PositionOfLoneElement(Select(a, f), x, Select(b, f), row);
  }

  /** removeItem keeps the projection invariant, given unique ids. */
  lemma RemoveItemKeepsValid(st: Store, row: int)
    requires Valid(st) && UniqueIds(st.items)
    ensures Valid(RemoveItem(st, row))
  {
    if 0 <= row < |st.filteredItems| {
      var i := LocateRow(st, row);
      var f := st.currentFilter;
      var a, b := st.items[..i], st.items[i + 1..];
      var sa, sb := Select(a, f), Select(b, f);
      var r := RemoveItem(st, row);
      assert r.items == a + b;
      assert st.filteredItems[..row] == sa;
      assert st.filteredItems[row + 1..] == sb;
      assert r.filteredItems == sa + sb;
      SelectAppend(a, b, f);
    }
  }

  /**
    removeItem deletes exactly the record shown in that row: it leaves both
    lists at the one position it held, every other record stays, and both
    lists keep the order of the records that remain.
  */
  lemma RemoveItemDeletesRow(st: Store, row: int)
    requires Valid(st) && UniqueIds(st.items)
    requires 0 <= row < |st.filteredItems|
    ensures var x, r := st.filteredItems[row], RemoveItem(st, row);
      && x !in r.items && x !in r.filteredItems
      && |r.items| == |st.items| - 1
      && r.filteredItems == st.filteredItems[..row] + st.filteredItems[row + 1..]
      && (exists i :: 0 <= i < |st.items| && st.items[i] == x && r.items == st.items[..i] + st.items[i + 1..])
      && forall y :: y in r.items <==> y in st.items && y != x
  {
    var i := LocateRow(st, row);
    OnlyOccurrence(st.items, i);
    var a, b := st.items[..i], st.items[i + 1..];
    assert RemoveItem(st, row).items == a + b;
    SelectAppend(a, b, st.currentFilter);
    SelectMembers(a + b, st.currentFilter);
  }

  /** Deleting a record keeps the remaining ids unique. */
  lemma RemoveItemKeepsUniqueIds(st: Store, row: int)
    requires UniqueIds(st.items)
    ensures UniqueIds(RemoveItem(st, row).items)
  {
    if 0 <= row < |st.filteredItems| {
      var x := st.filteredItems[row];
      if x in st.items {
        var i := IndexOf(st.items, x);
        var r := RemoveAt(st.items, i);
        assert RemoveItem(st, row).items == r;
        forall p, q | 0 <= p < q < |r| ensures r[p].id != r[q].id {
          var p' := if p < i then p else p + 1;
          var q' := if q < i then q else q + 1;
          assert r[p] == st.items[p'] && r[q] == st.items[q'];
        }
      }
    }
  }

  /** updateItem never changes which ids the full list holds, position by position. */
  lemma UpdateItemKeepsIds(st: Store, row: int, item: StockItem)
    ensures |UpdateItem(st, row, item).items| == |st.items|
    ensures forall k :: 0 <= k < |st.items| ==> UpdateItem(st, row, item).items[k].id == st.items[k].id
    ensures UniqueIds(st.items) ==> UniqueIds(UpdateItem(st, row, item).items)
  {
  }

  /**
    updateItem keeps the projection invariant when the new record keeps the
    row's id and still passes the filter, and the record is then the one shown
    in that row.
  */
  lemma UpdateItemKeepsValid(st: Store, row: int, item: StockItem)
    requires Valid(st) && UniqueIds(st.items)
    requires 0 <= row < |st.filteredItems|
    requires item.id == st.filteredItems[row].id && Passes(item, st.currentFilter)
    ensures Valid(UpdateItem(st, row, item))
    ensures GetItem(UpdateItem(st, row, item), row) == item
  {
    var i := LocateRow(st, row);
    UpdateAt(st, row, item, i);
  }

  /** updateItem at a row whose record sits at position `i` of the full list. */
  lemma UpdateAt(st: Store, row: nat, item: StockItem, i: nat)
    requires i < |st.items| && FindById(st.items, item.id) == Some(i)
    requires row == |Select(st.items[..i], st.currentFilter)|
    requires st.filteredItems ==
      Select(st.items[..i], st.currentFilter) + [st.items[i]] + Select(st.items[i + 1..], st.currentFilter)
    requires Passes(item, st.currentFilter)
    ensures Valid(UpdateItem(st, row, item))
  {
    var f := st.currentFilter;
    var a, b := st.items[..i], st.items[i + 1..];
    var sa, sb := Select(a, f), Select(b, f);
    var r := UpdateItem(st, row, item);
    assert r.items == a + [item] + b by {
      assert r.items == st.items[i := item];
    }
    assert r.filteredItems == sa + [item] + sb;
    SelectSplice(a, item, b, f);
  }

  /**
    With unique ids, updateItem on a visible row swaps exactly that record for
    the new one in the full list.
  */
  lemma UpdateItemReplacesRecord(st: Store, row: int, item: StockItem)
    requires Valid(st) && UniqueIds(st.items)
    requires 0 <= row < |st.filteredItems|
    requires item.id == st.filteredItems[row].id
    ensures forall y :: y in UpdateItem(st, row, item).items <==>
      y == item || (y in st.items && y != st.filteredItems[row])
  {
    var i := LocateRow(st, row);
    OnlyOccurrence(st.items, i);
    var a, b := st.items[..i], st.items[i + 1..];
    assert UpdateItem(st, row, item).items == a + [item] + b;
  }
}
