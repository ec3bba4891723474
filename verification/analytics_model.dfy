/**
  Windowed sales analytics (AnalyticsModel): keep the confirmed sales at or
  after a cutoff, total them per product name, divide each total by the
  nominal window length, and list the products by falling sales rate.
  Timestamps are whole seconds; the clock reading `now` is a parameter.
*/
module AnalyticsModel {
  import opened Wrappers
  import opened Text
  import opened Seqs
  import opened Sorting
  import opened ConfirmedTransactionModel

  datatype TimePeriod = LastWeek | LastMonth | LastYear

  /** Days to go back from now, as the switch that sets the cutoff chooses them. */
  function CutoffDays(p: TimePeriod): int {
    match p
    case LastWeek => 7
    case LastMonth => 30
    case LastYear => 365
  }

  /** The window length stored in every entry, as the nested conditional chooses it. */
  function EntryDays(p: TimePeriod): int {
    if p == LastWeek then 7 else if p == LastMonth then 30 else 365
  }

  /** The two places that pick a window length agree, and the length is positive. */
  lemma WindowDaysAgree(p: TimePeriod)
    ensures CutoffDays(p) == EntryDays(p) > 0
  {
  }

  const SecondsPerDay: int := 86400

  /** QDateTime::addDays(-d) on the clock reading. */
  function Cutoff(now: int, p: TimePeriod): int {
    now - CutoffDays(p) * SecondsPerDay
  }

  /** A sale counts when it is no older than the cutoff; the boundary itself counts. */
  predicate InWindow(t: ConfirmedTransaction, cutoff: int) {
    t.timestamp >= cutoff
  }

  /** One line of the analytics list. */
  datatype ProductAnalytics = ProductAnalytics(productName: string, totalSold: int, timePeriodDays: int, salesRate: real)

  // ---------------------------------------------------------------------------
  // Reference definitions

  /** Total quantity of the in-window sales of `name`. */
  function SoldInWindow(ledger: seq<ConfirmedTransaction>, name: string, cutoff: int): int {
    if |ledger| == 0 then 0
    else
      var t := ledger[|ledger| - 1];
      SoldInWindow(ledger[..|ledger| - 1], name, cutoff)
        + (if InWindow(t, cutoff) && t.item.productName == name then t.quantity else 0)
  }

  /** Names of the products with at least one in-window sale. */
  function WindowNames(ledger: seq<ConfirmedTransaction>, cutoff: int): set<string> {
    if |ledger| == 0 then {}
    else
      var t := ledger[|ledger| - 1];
      WindowNames(ledger[..|ledger| - 1], cutoff) + (if InWindow(t, cutoff) then {t.item.productName} else {})
  }

  /** A product without in-window sales has an in-window total of zero. */
  lemma {:induction false} SoldOutsideWindowNames(ledger: seq<ConfirmedTransaction>, name: string, cutoff: int)
    requires name !in WindowNames(ledger, cutoff)
    ensures SoldInWindow(ledger, name, cutoff) == 0
  {
    if |ledger| > 0 {
      SoldOutsideWindowNames(ledger[..|ledger| - 1], name, cutoff);
    }
  }

  // ---------------------------------------------------------------------------
  // The per-product pass, as the QMap accumulation performs it

  /** One map entry before its rate is computed. */
  datatype Tally = Tally(name: string, total: int)

  function TallyNames(ts: seq<Tally>): set<string> {
    set i | 0 <= i < |ts| :: ts[i].name
  }

  ghost predicate DistinctTallies(ts: seq<Tally>) {
    forall i, j :: 0 <= i < j < |ts| ==> ts[i].name != ts[j].name
  }

  /** The entry for `name`, if one exists. */
  function FindTally(ts: seq<Tally>, name: string): (r: Option<nat>)
    ensures r.Some? ==> r.value < |ts| && ts[r.value].name == name
    ensures r.None? ==> name !in TallyNames(ts)
  {
    if |ts| == 0 then None
    else if ts[0].name == name then Some(0)
    else match FindTally(ts[1..], name)
      case None =>
        assert TallyNames(ts) == {ts[0].name} + TallyNames(ts[1..]) by {
          forall n | n in TallyNames(ts) ensures n in {ts[0].name} + TallyNames(ts[1..]) {
            var i :| 0 <= i < |ts| && ts[i].name == n;
            if i > 0 {
              assert ts[1..][i - 1].name == n;
            }
          }
        }
        None
      case Some(k) => Some(k + 1)
  }

  /** Credit `quantity` to `name`, opening an entry at zero on first sight. */
  function Credit(ts: seq<Tally>, name: string, quantity: int): seq<Tally> {
    match FindTally(ts, name)
    case Some(i) => ts[i := Tally(name, ts[i].total + quantity)]
    case None => ts + [Tally(name, quantity)]
  }

  /** The loop over the ledger: each in-window sale is credited to its product, in ledger order. */
  function TallyWindow(ledger: seq<ConfirmedTransaction>, cutoff: int): seq<Tally> {
    if |ledger| == 0 then []
    else
      var prev := TallyWindow(ledger[..|ledger| - 1], cutoff);
      var t := ledger[|ledger| - 1];
      if InWindow(t, cutoff) then Credit(prev, t.item.productName, t.quantity) else prev
  }

  /** Crediting a product that already has an entry adds to that entry only. */
  lemma CreditExisting(prev: seq<Tally>, name: string, quantity: int, i: nat)
    requires FindTally(prev, name) == Some(i)
    ensures var ts := Credit(prev, name, quantity);
      && |ts| == |prev|
      && (forall j :: 0 <= j < |ts| ==> ts[j].name == prev[j].name)
      && (forall j :: 0 <= j < |ts| ==> ts[j].total == prev[j].total + (if j == i then quantity else 0))
      && TallyNames(ts) == TallyNames(prev)
  {
    var ts := Credit(prev, name, quantity);
    forall n ensures n in TallyNames(ts) <==> n in TallyNames(prev) {
      if n in TallyNames(prev) {
        var j :| 0 <= j < |prev| && prev[j].name == n;
        assert ts[j].name == n;
      }
      if n in TallyNames(ts) {
        var j :| 0 <= j < |ts| && ts[j].name == n;
        assert prev[j].name == n;
      }
    }
  }

  /** Crediting a product without an entry appends a new entry for it. */
  lemma CreditNew(prev: seq<Tally>, name: string, quantity: int)
    requires FindTally(prev, name).None?
    ensures Credit(prev, name, quantity) == prev + [Tally(name, quantity)]
    ensures name !in TallyNames(prev)
    ensures TallyNames(Credit(prev, name, quantity)) == TallyNames(prev) + {name}
  {
    var ts := Credit(prev, name, quantity);
    forall n ensures n in TallyNames(ts) <==> n in TallyNames(prev) + {name} {
      if n in TallyNames(prev) {
        var j :| 0 <= j < |prev| && prev[j].name == n;
        assert ts[j].name == n;
      }
      if n in TallyNames(ts) {
        var j :| 0 <= j < |ts| && ts[j].name == n;
        if j < |prev| {
          assert prev[j].name == n;
        }
      }
      if n == name {
        assert ts[|prev|].name == name;
      }
    }
  }

  /**
    The accumulation agrees with the reference: one entry per product with an
    in-window sale, no other entries, and each entry's total is that product's
    in-window quantity.
  */
  lemma {:induction false} TallyWindowCorrect(ledger: seq<ConfirmedTransaction>, cutoff: int)
    ensures var ts := TallyWindow(ledger, cutoff);
      && DistinctTallies(ts)
      && TallyNames(ts) == WindowNames(ledger, cutoff)
      && forall i :: 0 <= i < |ts| ==> ts[i].total == SoldInWindow(ledger, ts[i].name, cutoff)
  {
    if |ledger| > 0 {
      var init := ledger[..|ledger| - 1];
      var t := ledger[|ledger| - 1];
      TallyWindowCorrect(init, cutoff);
      var prev := TallyWindow(init, cutoff);
      if InWindow(t, cutoff) {
        var name := t.item.productName;
        match FindTally(prev, name)
        case Some(i) =>
          CreditExisting(prev, name, t.quantity, i);
        case None =>
          CreditNew(prev, name, t.quantity);
          SoldOutsideWindowNames(init, name, cutoff);
      }
    }
  }

  // ---------------------------------------------------------------------------
  // Rates, ordering and the whole computation

  /** The second loop: turn each entry into a list line with its rate over the nominal window. */
  function RatesOf(ts: seq<Tally>, days: int): (r: seq<ProductAnalytics>)
    requires days > 0
    ensures |r| == |ts|
    ensures forall i :: 0 <= i < |ts| ==>
      r[i] == ProductAnalytics(ts[i].name, ts[i].total, days, ts[i].total as real / days as real)
  {
    seq(|ts|, i requires 0 <= i < |ts| => ProductAnalytics(ts[i].name, ts[i].total, days, ts[i].total as real / days as real))
  }

  function SalesRate(a: ProductAnalytics): real {
    a.salesRate
  }

  /** calculateAnalytics: window, group, rate, and sort by falling rate. */
  function CalculateAnalytics(ledger: seq<ConfirmedTransaction>, period: TimePeriod, now: int): seq<ProductAnalytics> {
    var rows := RatesOf(TallyWindow(ledger, Cutoff(now, period)), EntryDays(period));
    SortDesc(rows, SalesRate)
  }

  function AnalyticsNames(r: seq<ProductAnalytics>): set<string> {
    set i | 0 <= i < |r| :: r[i].productName
  }

  /** A permutation of lines with distinct names still has distinct names. */
  lemma DistinctNamesKept(a: seq<ProductAnalytics>, b: seq<ProductAnalytics>)
    requires multiset(a) == multiset(b)
    requires forall i, j :: 0 <= i < j < |b| ==> b[i].productName != b[j].productName
    ensures forall i, j :: 0 <= i < j < |a| ==> a[i].productName != a[j].productName
  {
    PermutationKeepsNoDup(a, b);
    forall i, j | 0 <= i < j < |a| ensures a[i].productName != a[j].productName {
      PermutationMember(a, b, i);
      PermutationMember(a, b, j);
      var p :| 0 <= p < |b| && b[p] == a[i];
      var q :| 0 <= q < |b| && b[q] == a[j];
      if p > q {
        assert b[q].productName != b[p].productName;
      } else if p < q {
        assert b[p].productName != b[q].productName;
      }
    }
  }

  /** With a positive common divisor, a larger rate means a larger total. */
  lemma RateOrderIsTotalOrder(x: int, y: int, days: int)
    requires days > 0
    ensures x as real / days as real >= y as real / days as real <==> x >= y
  {
    var d := days as real;
    assert x as real == (x as real / d) * d;
    assert y as real == (y as real / d) * d;
    if x as real / d >= y as real / d {
      assert (x as real / d) * d >= (y as real / d) * d;
    }
  }

  /** Every line of a sorted list is one of the unsorted lines, and conversely. */
  lemma LineOrigin(r: seq<ProductAnalytics>, rows: seq<ProductAnalytics>, i: nat) returns (k: nat)
    requires multiset(r) == multiset(rows) && i < |r|
    ensures k < |rows| && r[i] == rows[k]
  {
    PermutationMember(r, rows, i);
    k :| 0 <= k < |rows| && rows[k] == r[i];
  }

  /** Each line carries its product's in-window total, the window length and total / length. */
  lemma CalculateAnalyticsLines(ledger: seq<ConfirmedTransaction>, period: TimePeriod, now: int)
    ensures var r, cutoff, days := CalculateAnalytics(ledger, period, now), Cutoff(now, period), CutoffDays(period);
      forall i :: 0 <= i < |r| ==>
        && r[i].totalSold == SoldInWindow(ledger, r[i].productName, cutoff)
        && r[i].timePeriodDays == days
        && r[i].salesRate == r[i].totalSold as real / days as real
  {
    var cutoff, days := Cutoff(now, period), EntryDays(period);
    var ts := TallyWindow(ledger, cutoff);
    TallyWindowCorrect(ledger, cutoff);
    var rows := RatesOf(ts, days);
    var r := CalculateAnalytics(ledger, period, now);
    forall i | 0 <= i < |r|
      ensures r[i].totalSold == SoldInWindow(ledger, r[i].productName, cutoff)
      ensures r[i].timePeriodDays == days && r[i].salesRate == r[i].totalSold as real / days as real
    {
      var k := LineOrigin(r, rows, i);
    }
  }

  /** The lines name exactly the products with an in-window sale, each once. */
  lemma CalculateAnalyticsNames(ledger: seq<ConfirmedTransaction>, period: TimePeriod, now: int)
    ensures var r := CalculateAnalytics(ledger, period, now);
      && AnalyticsNames(r) == WindowNames(ledger, Cutoff(now, period))
      && forall i, j :: 0 <= i < j < |r| ==> r[i].productName != r[j].productName
  {
    var cutoff, days := Cutoff(now, period), EntryDays(period);
    var ts := TallyWindow(ledger, cutoff);
    TallyWindowCorrect(ledger, cutoff);
    var rows := RatesOf(ts, days);
    var r := CalculateAnalytics(ledger, period, now);
    DistinctNamesKept(r, rows);
    forall n ensures n in AnalyticsNames(r) <==> n in TallyNames(ts) {
      if n in AnalyticsNames(r) {
        var i :| 0 <= i < |r| && r[i].productName == n;
        var k := LineOrigin(r, rows, i);
      }
      if n in TallyNames(ts) {
        var k :| 0 <= k < |ts| && ts[k].name == n;
        var i := LineOrigin(rows, r, k);
        assert r[i].productName == n;
      }
    }
  }

  /** The lines run from the highest rate down, so also from the highest total down. */
  lemma CalculateAnalyticsOrder(ledger: seq<ConfirmedTransaction>, period: TimePeriod, now: int)
    ensures var r := CalculateAnalytics(ledger, period, now);
      && (forall i, j :: 0 <= i < j < |r| ==> r[i].salesRate >= r[j].salesRate)
      && (forall i, j :: 0 <= i < j < |r| ==> r[i].totalSold >= r[j].totalSold)
  {
    var r := CalculateAnalytics(ledger, period, now);
    CalculateAnalyticsLines(ledger, period, now);
    forall i, j | 0 <= i < j < |r| ensures r[i].totalSold >= r[j].totalSold {
      assert r[i].salesRate >= r[j].salesRate;
      RateOrderIsTotalOrder(r[i].totalSold, r[j].totalSold, CutoffDays(period));
    }
  }

  // ---------------------------------------------------------------------------
  // The list model and its display text

  /** The list model: the current lines and the period they were computed for. */
  datatype Model = Model(analyticsData: seq<ProductAnalytics>, currentPeriod: TimePeriod)

  /** A freshly constructed model: no lines, period LastWeek. */
  const Initial: Model := Model([], LastWeek)

  /** updateAnalytics: take the period, then recompute every line from the ledger. */
  function UpdateAnalytics(m: Model, ledger: seq<ConfirmedTransaction>, period: TimePeriod, now: int): Model {
    Model(CalculateAnalytics(ledger, period, now), period)
  }

  /** setTimePeriod: record the period; the lines are left as they are. */
  function SetTimePeriod(m: Model, period: TimePeriod): Model {
    if m.currentPeriod != period then m.(currentPeriod := period) else m
  }

  /**
    updateAnalytics keeps nothing from the previous model: two models updated
    with the same inputs are equal. setTimePeriod changes only the period.
  */
  lemma UpdateAndSetPeriod(m1: Model, m2: Model, ledger: seq<ConfirmedTransaction>, period: TimePeriod, now: int)
    ensures UpdateAnalytics(m1, ledger, period, now) == UpdateAnalytics(m2, ledger, period, now)
    ensures UpdateAnalytics(m1, ledger, period, now).currentPeriod == period
    ensures SetTimePeriod(m1, period).analyticsData == m1.analyticsData
    ensures SetTimePeriod(m1, period).currentPeriod == period
  {
  }

  const SoldSeparator: string := " - Sold: "
  const RateSeparator: string := " (Rate: "
  const RateSuffix: string := "/day)"

  /** The characters of the separators that the read-back relies on. */
  lemma SeparatorChars()
    ensures |SoldSeparator| == 9 && SoldSeparator[0] == ' ' && SoldSeparator[3] == 'S'
    ensures |RateSeparator| == 8 && RateSeparator[0] == ' ' && RateSeparator[1] == '('
  {
  }

  /**
    The display text of a line. `rateText` is the rate as QString::number
    writes it with two decimals; that formatting is not modelled.
  */
  function Display(a: ProductAnalytics, rateText: string): (r: string)
    ensures |a.productName| <= |r| && r[..|a.productName|] == a.productName
    ensures OccursAt(r, SoldSeparator, |a.productName|)
    ensures EndsWith(r, RateSuffix)
  {
    a.productName + SoldSeparator + IntToString(a.totalSold) + RateSeparator + rateText + RateSuffix
  }
}
