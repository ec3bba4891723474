/**
  Restock recommendations (HowMuchModel): one line per analytics line, with a
  safety-stock amount proportional to the sales rate and an out-of-stock flag
  taken from the visible catalog rows; out-of-stock lines come first, then
  lines by falling amount. The factor 1.65 * sqrt(daysToStock) is the
  parameter `k`.
*/
module HowMuchModel {
  import opened StockModel
  import opened Sorting
  import opened AnalyticsModel

  datatype StockRecommendation = StockRecommendation(productName: string, amountToStock: real, isOutOfStock: bool)

  /** The inner scan: some visible row has exactly this name (case-sensitive) and nothing remaining. */
  function OutOfStock(rows: seq<StockItem>, name: string): (r: bool)
    ensures r <==> exists i :: 0 <= i < |rows| && rows[i].productName == name && rows[i].remaining == 0
  {
    if |rows| == 0 then false
    else if rows[0].productName == name && rows[0].remaining == 0 then true
    else
      var rest := OutOfStock(rows[1..], name);
      assert forall i :: 1 <= i < |rows| ==> rows[i] == rows[1..][i - 1];
      rest
  }

  /** The recommendation built for one analytics line. */
  function Recommend(a: ProductAnalytics, k: real, rows: seq<StockItem>): StockRecommendation {
    StockRecommendation(a.productName, k * a.salesRate, OutOfStock(rows, a.productName))
  }

  /** One recommendation per analytics line, in analytics order, before sorting. */
  function RecommendAll(analytics: seq<ProductAnalytics>, k: real, rows: seq<StockItem>): (r: seq<StockRecommendation>)
    ensures |r| == |analytics|
    ensures forall i :: 0 <= i < |analytics| ==> r[i] == Recommend(analytics[i], k, rows)
  {
    seq(|analytics|, i requires 0 <= i < |analytics| => Recommend(analytics[i], k, rows))
  }

  function Amount(r: StockRecommendation): real {
    r.amountToStock
  }

  /** The recommendations whose flag is `flag`, in order. */
  function WithFlag(recs: seq<StockRecommendation>, flag: bool): (r: seq<StockRecommendation>)
    ensures forall i :: 0 <= i < |r| ==> r[i].isOutOfStock == flag
  {
    if |recs| == 0 then []
    else (if recs[0].isOutOfStock == flag then [recs[0]] else []) + WithFlag(recs[1..], flag)
  }

  /** Splitting by flag loses and duplicates nothing. */
  lemma {:induction false} WithFlagPartition(recs: seq<StockRecommendation>)
    ensures multiset(WithFlag(recs, true)) + multiset(WithFlag(recs, false)) == multiset(recs)
  {
    if |recs| > 0 {
      WithFlagPartition(recs[1..]);
      assert recs == [recs[0]] + recs[1..];
    }
  }

  /**
    updateRecommendations: the previous list is discarded and rebuilt from the
    analytics lines and the visible catalog rows; the catalog is only read.
    Any order that puts out-of-stock lines first and then falls in amount is
    what std::sort with the source's comparator may produce; this is one.
  */
  function UpdateRecommendations(analytics: seq<ProductAnalytics>, k: real, catalog: Store): seq<StockRecommendation> {
    var recs := RecommendAll(analytics, k, catalog.filteredItems);
    SortDesc(WithFlag(recs, true), Amount) + SortDesc(WithFlag(recs, false), Amount)
  }

  /** Sorting each flag group and concatenating keeps exactly the original recommendations. */
  lemma SortedPartition(recs: seq<StockRecommendation>)
    ensures multiset(SortDesc(WithFlag(recs, true), Amount) + SortDesc(WithFlag(recs, false), Amount)) == multiset(recs)
    ensures |SortDesc(WithFlag(recs, true), Amount) + SortDesc(WithFlag(recs, false), Amount)| == |recs|
  {
    WithFlagPartition(recs);
    var a := SortDesc(WithFlag(recs, true), Amount);
    var b := SortDesc(WithFlag(recs, false), Amount);
    assert multiset(a + b) == multiset(a) + multiset(b);
    assert |a + b| == |multiset(a + b)|;
    assert |recs| == |multiset(recs)|;
  }

  /** Every element of a list built by filtering on `flag` and sorting carries that flag. */
  lemma SortedGroupFlags(recs: seq<StockRecommendation>, flag: bool)
    ensures var g := SortDesc(WithFlag(recs, flag), Amount);
      forall i :: 0 <= i < |g| ==> g[i].isOutOfStock == flag
  {
    var w := WithFlag(recs, flag);
    var g := SortDesc(w, Amount);
    forall i | 0 <= i < |g| ensures g[i].isOutOfStock == flag {
      assert g[i] in multiset(w);
    }
  }

  /** Concatenating a sorted flagged group with a sorted unflagged group gives the required order. */
  lemma GroupedOrder(a: seq<StockRecommendation>, b: seq<StockRecommendation>)
    requires forall i :: 0 <= i < |a| ==> a[i].isOutOfStock
    requires forall i :: 0 <= i < |b| ==> !b[i].isOutOfStock
    requires SortedDesc(a, Amount) && SortedDesc(b, Amount)
    ensures var r := a + b;
      && (forall i, j :: 0 <= i < j < |r| ==> r[i].isOutOfStock || !r[j].isOutOfStock)
      && (forall i, j :: 0 <= i < j < |r| && r[i].isOutOfStock == r[j].isOutOfStock ==>
            r[i].amountToStock >= r[j].amountToStock)
  {
    var r := a + b;
    forall i, j | 0 <= i < j < |r|
      ensures r[i].isOutOfStock == r[j].isOutOfStock ==> r[i].amountToStock >= r[j].amountToStock
    {
      if j < |a| {
        assert r[i] == a[i] && r[j] == a[j];
      } else if i >= |a| {
        assert r[i] == b[i - |a|] && r[j] == b[j - |a|];
      } else {
        assert r[i] == a[i] && r[j] == b[j - |a|];
      }
    }
    forall i, j | 0 <= i < j < |r| ensures r[i].isOutOfStock || !r[j].isOutOfStock {
      if i < |a| {
        assert r[i] == a[i];
      } else {
        assert r[j] == b[j - |a|];
      }
    }
  }

  /**
    The recommendation list is a rearrangement of one recommendation per
    analytics line; every out-of-stock line precedes every in-stock line, and
    lines with the same flag run from the largest amount down.
  */
  lemma UpdateRecommendationsCorrect(analytics: seq<ProductAnalytics>, k: real, catalog: Store)
    ensures var r := UpdateRecommendations(analytics, k, catalog);
      && |r| == |analytics|
      && multiset(r) == multiset(RecommendAll(analytics, k, catalog.filteredItems))
      && (forall i, j :: 0 <= i < j < |r| ==> r[i].isOutOfStock || !r[j].isOutOfStock)
      && (forall i, j :: 0 <= i < j < |r| && r[i].isOutOfStock == r[j].isOutOfStock ==>
            r[i].amountToStock >= r[j].amountToStock)
  {
    var recs := RecommendAll(analytics, k, catalog.filteredItems);
    var a: seq<StockRecommendation> := SortDesc(WithFlag(recs, true), Amount);
    var b: seq<StockRecommendation> := SortDesc(WithFlag(recs, false), Amount);
    assert UpdateRecommendations(analytics, k, catalog) == a + b;
    SortedPartition(recs);
    SortedGroupFlags(recs, true);
    SortedGroupFlags(recs, false);
    GroupedOrder(a, b);
  }

  /** With a non-negative factor the amount never decreases as the sales rate grows. */
  lemma AmountMonotone(a: ProductAnalytics, b: ProductAnalytics, k: real, rows: seq<StockItem>)
    requires k >= 0.0 && a.salesRate <= b.salesRate
    ensures Recommend(a, k, rows).amountToStock <= Recommend(b, k, rows).amountToStock
  {
    assert k * b.salesRate - k * a.salesRate == k * (b.salesRate - a.salesRate);
  }
}
