/**
  Preparation of the bottom-level daily series (src/prep.py): keep the
  (shop, item) series observed in exactly `n` distinct month blocks, complete
  each kept series with explicit zero rows on the dense daily calendar, keep the
  columns the hierarchical trainer needs with the quantity renamed to `y`, and
  add the constant root column `total`.

  Dates are day ordinals: `ds` is an integer and the calendar between two days
  is the integer interval between them.
 */
module Prep {
  import opened Seqs
  import opened Frames

  /** One raw sales row once `ds` has been derived: day, month block, shop, item and units sold. */
  datatype Sale = Sale(ds: int, block: int, shop: int, item: int, count: real)

  /** The identity of one bottom-level series. */
  datatype SeriesKey = SeriesKey(shop: int, item: int)

  /** The (ds, shop_id, item_id) index label of a row. */
  datatype Label = Label(ds: int, key: SeriesKey)

  /** One row of the completed table: `date_block_num` is gone, `count` is `item_cnt_day`. */
  datatype DailyRow = DailyRow(ds: int, shop: int, item: int, count: real)

  datatype Option<T> = None | Some(value: T)

  /** Number of month blocks a series must be observed in (the default of the source). */
  const DefaultPeriods: int := 34

  /** The constant written into the root column. */
  const TotalName: string := "Total"

  function KeyOf(s: Sale): SeriesKey {
    SeriesKey(s.shop, s.item)
  }

  function SaleLabel(s: Sale): Label {
    Label(s.ds, KeyOf(s))
  }

  function DailyKey(r: DailyRow): SeriesKey {
    SeriesKey(r.shop, r.item)
  }

  function RowLabel(r: DailyRow): Label {
    Label(r.ds, DailyKey(r))
  }

  /** The series observed anywhere in `rows`. */
  function SeriesKeys(rows: seq<Sale>): set<SeriesKey> {
    set s | s in rows :: KeyOf(s)
  }

  /** The distinct month blocks in which series `k` has a row, whatever its quantity. */
  function Periods(rows: seq<Sale>, k: SeriesKey): set<int> {
    set s | s in rows && KeyOf(s) == k :: s.block
  }

  // ---------------------------------------------------------------------------
  // Completeness filter
  // ---------------------------------------------------------------------------

  lemma SplitLast(rows: seq<Sale>, k: SeriesKey)
    requires rows != []
    ensures SeriesKeys(rows) == SeriesKeys(rows[..|rows| - 1]) + {KeyOf(rows[|rows| - 1])}
    ensures Periods(rows, k) == Periods(rows[..|rows| - 1], k)
      + (if KeyOf(rows[|rows| - 1]) == k then {rows[|rows| - 1].block} else {})
  {
    var init, last := rows[..|rows| - 1], rows[|rows| - 1];
    assert rows == init + [last];
    forall s | s in rows ensures s in init || s == last { }
  }

  lemma NoPeriodsOfUnseen(rows: seq<Sale>, k: SeriesKey)
    ensures k !in SeriesKeys(rows) ==> Periods(rows, k) == {}
  {
    if k !in SeriesKeys(rows) {
      assert forall s :: s in rows ==> KeyOf(s) != k;
    }
  }

  /** The `groupby(["shop_id", "item_id"]).agg({"date_block_num": "nunique"})` step, folded row by row. */
  function GroupPeriods(rows: seq<Sale>): (g: map<SeriesKey, set<int>>)
    ensures g.Keys == SeriesKeys(rows)
    ensures forall k :: k in g ==> g[k] == Periods(rows, k)
    decreases |rows|
  {
    if rows == [] then map[]
    else
      var init, last := rows[..|rows| - 1], rows[|rows| - 1];
      var g := GroupPeriods(init);
      var k := KeyOf(last);
      SplitLast(rows, k);
      NoPeriodsOfUnseen(init, k);
      var g' := g[k := (if k in g then g[k] else {}) + {last.block}];
      assert forall k' :: k' in g' ==> g'[k'] == Periods(rows, k') by {
        forall k' | k' in g' ensures g'[k'] == Periods(rows, k') {
          SplitLast(rows, k');
        }
      }
      g'
  }

  /** The series observed in exactly `n` distinct month blocks (`encuentra_series_con_n_periodos`). */
  function FindCompleteSeries(rows: seq<Sale>, n: int): (r: set<SeriesKey>)
    ensures forall k :: k in r <==> k in SeriesKeys(rows) && |Periods(rows, k)| == n
  {
    var g := GroupPeriods(rows);
    set k | k in g && |g[k]| == n
  }

  /** The inner join of the rows with the key set (`filtra_series_completas`). */
  function FilterCompleteSeries(rows: seq<Sale>, keys: set<SeriesKey>): (r: seq<Sale>)
    ensures forall s :: s in r <==> s in rows && KeyOf(s) in keys
  {
    Filter(rows, (s: Sale) => KeyOf(s) in keys)
  }

  /** The join keeps each selected row as often as it occurs and in its original order; no other row survives. */
  lemma FilterCompleteSeriesKeepsRows(rows: seq<Sale>, keys: set<SeriesKey>)
    ensures var r := FilterCompleteSeries(rows, keys);
      forall s :: multiset(r)[s] == if KeyOf(s) in keys then multiset(rows)[s] else 0
    ensures Subsequence(FilterCompleteSeries(rows, keys), rows)
  {
    FilterCounts(rows, (s: Sale) => KeyOf(s) in keys);
    FilterKeepsOrder(rows, (s: Sale) => KeyOf(s) in keys);
  }

  /** After the filter, the series present are exactly the series found complete. */
  lemma FilteredSeriesAreTheCompleteOnes(rows: seq<Sale>, n: int)
    ensures SeriesKeys(FilterCompleteSeries(rows, FindCompleteSeries(rows, n))) == FindCompleteSeries(rows, n)
  {
    var found := FindCompleteSeries(rows, n);
    var kept := FilterCompleteSeries(rows, found);
    forall k | k in found ensures k in SeriesKeys(kept) {
      var s :| s in rows && KeyOf(s) == k;
      assert s in kept;
    }
  }

  // ---------------------------------------------------------------------------
  // Zero-completion on the daily calendar
  // ---------------------------------------------------------------------------

  /** `df.ds.min()` of a non-empty table. */
  function MinDs(rows: seq<Sale>): (m: int)
    requires rows != []
    ensures forall s :: s in rows ==> m <= s.ds
    ensures exists s :: s in rows && s.ds == m
  {
    if |rows| == 1 then rows[0].ds
    else
      var m := MinDs(rows[1..]);
      assert rows == [rows[0]] + rows[1..];
      if rows[0].ds <= m then rows[0].ds else m
  }

  /** `df.ds.max()` of a non-empty table. */
  function MaxDs(rows: seq<Sale>): (m: int)
    requires rows != []
    ensures forall s :: s in rows ==> s.ds <= m
    ensures exists s :: s in rows && s.ds == m
  {
    if |rows| == 1 then rows[0].ds
    else
      var m := MaxDs(rows[1..]);
      assert rows == [rows[0]] + rows[1..];
      if rows[0].ds >= m then rows[0].ds else m
  }

  /** No two rows share a (ds, shop_id, item_id) label, as `reindex` needs. */
  predicate UniqueLabels(rows: seq<Sale>) {
    forall i, j :: 0 <= i < j < |rows| ==> SaleLabel(rows[i]) != SaleLabel(rows[j])
  }

  /** A row carrying the label `at`, if any. */
  function Lookup(rows: seq<Sale>, at: Label): (r: Option<Sale>)
    ensures r.Some? ==> r.value in rows && SaleLabel(r.value) == at
    ensures r.None? ==> forall s :: s in rows ==> SaleLabel(s) != at
  {
    if rows == [] then None
    else if SaleLabel(rows[0]) == at then Some(rows[0])
    else
      assert rows == [rows[0]] + rows[1..];
      Lookup(rows[1..], at)
  }

  /** The completed row for day `d` of series `k`: the observed quantity, or 0 for a gap. */
  function FillRow(d: int, k: SeriesKey, rows: seq<Sale>): (r: DailyRow)
    ensures r.ds == d && DailyKey(r) == k
    ensures (forall s :: s in rows ==> SaleLabel(s) != Label(d, k)) ==> r.count == 0.0
  {
    match Lookup(rows, Label(d, k))
    case Some(s) => DailyRow(d, k.shop, k.item, s.count)
    case None => DailyRow(d, k.shop, k.item, 0.0)
  }

  /** With unique labels, an observed label keeps the quantity of the row that carries it. */
  lemma FillRowKeepsObserved(d: int, k: SeriesKey, rows: seq<Sale>, s: Sale)
    requires UniqueLabels(rows)
    requires s in rows && SaleLabel(s) == Label(d, k)
    ensures FillRow(d, k, rows).count == s.count
  {
    var t := Lookup(rows, Label(d, k));
    var i :| 0 <= i < |rows| && rows[i] == s;
    var j :| 0 <= j < |rows| && rows[j] == t.value;
    assert SaleLabel(rows[i]) == SaleLabel(rows[j]);
    assert i == j;
  }

  /** The observed pairs of one shop, in the order of `items` (one shop's slice of the product index, after the inner join). */
  function ShopGrid(shop: int, items: seq<int>, observed: set<SeriesKey>): (keys: seq<SeriesKey>)
    ensures forall k :: k in keys <==> k.shop == shop && k.item in items && k in observed
    ensures Distinct(items) ==> Distinct(keys)
  {
    if items == [] then []
    else
      var head := if SeriesKey(shop, items[0]) in observed then [SeriesKey(shop, items[0])] else [];
      var rest := ShopGrid(shop, items[1..], observed);
      assert items == [items[0]] + items[1..];
      assert Distinct(items) ==> Distinct(items[1..]) && items[0] !in items[1..];
      DistinctConcat(head, rest);
      head + rest
  }

  /** The product `shops × items` in order, restricted to the observed pairs. */
  function SeriesGrid(shops: seq<int>, items: seq<int>, observed: set<SeriesKey>): (keys: seq<SeriesKey>)
    ensures forall k :: k in keys <==> k.shop in shops && k.item in items && k in observed
    ensures Distinct(shops) && Distinct(items) ==> Distinct(keys)
  {
    if shops == [] then []
    else
      var head := ShopGrid(shops[0], items, observed);
      var rest := SeriesGrid(shops[1..], items, observed);
      assert shops == [shops[0]] + shops[1..];
      assert Distinct(shops) ==> Distinct(shops[1..]) && shops[0] !in shops[1..];
      DistinctConcat(head, rest);
      head + rest
  }

  /** The observed series in the order of the completed table: shops, then items, by first appearance. */
  function ObservedGrid(rows: seq<Sale>): seq<SeriesKey> {
    var shops := Unique(seq(|rows|, i requires 0 <= i < |rows| => rows[i].shop));
    var items := Unique(seq(|rows|, i requires 0 <= i < |rows| => rows[i].item));
    SeriesGrid(shops, items, SeriesKeys(rows))
  }

  /** The grid lists every observed series once and nothing else. */
  lemma ObservedGridExact(rows: seq<Sale>)
    ensures forall k :: k in ObservedGrid(rows) <==> k in SeriesKeys(rows)
    ensures Distinct(ObservedGrid(rows))
    ensures |ObservedGrid(rows)| == |SeriesKeys(rows)|
  {
    var shops := seq(|rows|, i requires 0 <= i < |rows| => rows[i].shop);
    var items := seq(|rows|, i requires 0 <= i < |rows| => rows[i].item);
    var grid := ObservedGrid(rows);
    forall k | k in SeriesKeys(rows) ensures k in grid {
      var s :| s in rows && KeyOf(s) == k;
      var i :| 0 <= i < |rows| && rows[i] == s;
      assert shops[i] == k.shop && items[i] == k.item;
    }
    DistinctCard(grid);
    assert Elements(grid) == SeriesKeys(rows);
  }

  /** One day of the completed table. */
  function DayRows(d: int, keys: seq<SeriesKey>, rows: seq<Sale>): (out: seq<DailyRow>)
    ensures |out| == |keys|
    ensures forall j :: 0 <= j < |out| ==> out[j] == FillRow(d, keys[j], rows)
    ensures forall j :: 0 <= j < |out| ==> RowLabel(out[j]) == Label(d, keys[j])
    ensures Distinct(keys) ==> DistinctLabels(out)
  {
    seq(|keys|, j requires 0 <= j < |keys| => FillRow(d, keys[j], rows))
  }

  /** Every day of [lo, hi] in ascending order, each with one row per key. */
  function Calendar(lo: int, hi: int, keys: seq<SeriesKey>, rows: seq<Sale>): (out: seq<DailyRow>)
    ensures lo <= hi + 1 ==> |out| == (hi - lo + 1) * |keys|
    ensures forall j :: 0 <= j < |out| ==>
      && lo <= out[j].ds <= hi
      && DailyKey(out[j]) in keys
      && out[j] == FillRow(out[j].ds, DailyKey(out[j]), rows)
    ensures forall i, j :: 0 <= i < j < |out| ==> out[i].ds <= out[j].ds
    decreases hi - lo
  {
    if lo > hi then []
    else
      var day := DayRows(lo, keys, rows);
      var rest := Calendar(lo + 1, hi, keys, rows);
      assert (hi - lo + 1) * |keys| == |keys| + (hi - (lo + 1) + 1) * |keys|;
      assert forall j :: 0 <= j < |day| ==> day[j].ds == lo && day[j] == FillRow(lo, keys[j], rows);
      day + rest
  }

  /** Some row of `out` is labelled (d, k). */
  predicate Covers(out: seq<DailyRow>, d: int, k: SeriesKey) {
    exists j :: 0 <= j < |out| && out[j].ds == d && DailyKey(out[j]) == k
  }

  lemma {:induction false} CalendarCovers(lo: int, hi: int, keys: seq<SeriesKey>, rows: seq<Sale>)
    ensures forall d, k :: lo <= d <= hi && k in keys ==> Covers(Calendar(lo, hi, keys, rows), d, k)
    decreases hi - lo
  {
    if lo <= hi {
      var out := Calendar(lo, hi, keys, rows);
      var day := DayRows(lo, keys, rows);
      var rest := Calendar(lo + 1, hi, keys, rows);
      assert out == day + rest;
      CalendarCovers(lo + 1, hi, keys, rows);
      forall d, k | lo <= d <= hi && k in keys ensures Covers(out, d, k) {
        if d == lo {
          var j :| 0 <= j < |keys| && keys[j] == k;
          assert out[j] == day[j];
        } else {
          assert Covers(rest, d, k);
          var j :| 0 <= j < |rest| && rest[j].ds == d && DailyKey(rest[j]) == k;
          assert out[|day| + j] == rest[j];
        }
      }
    }
  }

  /** No two rows share a (ds, shop_id, item_id) label. */
  predicate DistinctLabels(out: seq<DailyRow>) {
    forall i, j :: 0 <= i < j < |out| ==> RowLabel(out[i]) != RowLabel(out[j])
  }

  lemma {:induction false} CalendarDistinct(lo: int, hi: int, keys: seq<SeriesKey>, rows: seq<Sale>)
    requires Distinct(keys)
    ensures DistinctLabels(Calendar(lo, hi, keys, rows))
    decreases hi - lo
  {
    if lo <= hi {
      var out := Calendar(lo, hi, keys, rows);
      var day := DayRows(lo, keys, rows);
      var rest := Calendar(lo + 1, hi, keys, rows);
      assert out == day + rest;
      CalendarDistinct(lo + 1, hi, keys, rows);
      forall i, j | 0 <= i < j < |out| ensures RowLabel(out[i]) != RowLabel(out[j]) {
        if j < |day| {
          assert DailyKey(out[i]) == keys[i] && DailyKey(out[j]) == keys[j];
        } else if i >= |day| {
          assert out[i] == rest[i - |day|] && out[j] == rest[j - |day|];
        } else {
          assert out[i].ds == lo && out[j] == rest[j - |day|];
        }
      }
    }
  }

  /**
    `completa_ceros_en_series`: the product of every day in [min ds, max ds]
    with the shops and items seen, reindexed (gaps filled with 0) and joined
    back to the observed pairs. An empty table has no dates to range over, and
    a repeated (ds, shop_id, item_id) label makes the reindex fail.
   */
  function CompleteZeros(rows: seq<Sale>): (r: Result<seq<DailyRow>>)
    ensures rows == [] ==> r == Err(EmptyTable)
    ensures rows != [] && !UniqueLabels(rows) ==> r == Err(DuplicateLabels)
    ensures r.Ok? <==> rows != [] && UniqueLabels(rows)
  {
    if rows == [] then Err(EmptyTable)
    else if !UniqueLabels(rows) then Err(DuplicateLabels)
    else Ok(Calendar(MinDs(rows), MaxDs(rows), ObservedGrid(rows), rows))
  }

  lemma CompletedIsCalendar(rows: seq<Sale>)
    requires CompleteZeros(rows).Ok?
    ensures CompleteZeros(rows).value == Calendar(MinDs(rows), MaxDs(rows), ObservedGrid(rows), rows)
    ensures |Calendar(MinDs(rows), MaxDs(rows), ObservedGrid(rows), rows)|
      == (MaxDs(rows) - MinDs(rows) + 1) * |ObservedGrid(rows)|
  {
  }

  /** Row count: one row per day of the observed range per observed series. */
  lemma CompletionSize(rows: seq<Sale>)
    requires CompleteZeros(rows).Ok?
    ensures |CompleteZeros(rows).value| == (MaxDs(rows) - MinDs(rows) + 1) * |SeriesKeys(rows)|
  {
    CompletedIsCalendar(rows);
    ObservedGridExact(rows);
  }

  /** Exact coverage: every output label is an observed series on a day of the range, and every such label is present. */
  lemma CompletionCoverage(rows: seq<Sale>)
    requires CompleteZeros(rows).Ok?
    ensures var out := CompleteZeros(rows).value;
      forall j :: 0 <= j < |out| ==> MinDs(rows) <= out[j].ds <= MaxDs(rows) && DailyKey(out[j]) in SeriesKeys(rows)
    ensures var out := CompleteZeros(rows).value;
      forall d, k :: MinDs(rows) <= d <= MaxDs(rows) && k in SeriesKeys(rows) ==> Covers(out, d, k)
  {
    ObservedGridExact(rows);
    CalendarCovers(MinDs(rows), MaxDs(rows), ObservedGrid(rows), rows);
  }

  /** A shop and an item that were both seen but never together get no rows, although the product index holds them. */
  lemma CompletionSkipsUnobservedPairs(rows: seq<Sale>, shop: int, item: int)
    requires CompleteZeros(rows).Ok?
    requires SeriesKey(shop, item) !in SeriesKeys(rows)
    ensures forall j :: 0 <= j < |CompleteZeros(rows).value| ==>
      DailyKey(CompleteZeros(rows).value[j]) != SeriesKey(shop, item)
  {
    CompletionCoverage(rows);
  }

  /** Exactly one row per (ds, shop_id, item_id). */
  lemma CompletionOneRowPerLabel(rows: seq<Sale>)
    requires CompleteZeros(rows).Ok?
    ensures DistinctLabels(CompleteZeros(rows).value)
  {
    ObservedGridExact(rows);
    CalendarDistinct(MinDs(rows), MaxDs(rows), ObservedGrid(rows), rows);
  }

  /** Rows are in ascending `ds` order, and the output spans the same first and last day as the input. */
  lemma CompletionOrderAndRange(rows: seq<Sale>)
    requires CompleteZeros(rows).Ok?
    ensures var out := CompleteZeros(rows).value;
      forall i, j :: 0 <= i < j < |out| ==> out[i].ds <= out[j].ds
    ensures var out := CompleteZeros(rows).value;
      && (exists j :: 0 <= j < |out| && out[j].ds == MinDs(rows))
      && (exists j :: 0 <= j < |out| && out[j].ds == MaxDs(rows))
    ensures var out := CompleteZeros(rows).value;
      && |out| > 0
      && out[0].ds == MinDs(rows)
      && out[|out| - 1].ds == MaxDs(rows)
  {
    var out := CompleteZeros(rows).value;
    CompletionCoverage(rows);
    var k := KeyOf(rows[0]);
    assert k in SeriesKeys(rows);
    assert Covers(out, MinDs(rows), k);
    assert Covers(out, MaxDs(rows), k);
  }

  /** An observed label keeps its row's quantity; a gap row holds 0. */
  lemma CompletionValues(rows: seq<Sale>)
    requires CompleteZeros(rows).Ok?
    ensures var out := CompleteZeros(rows).value;
      forall j, s :: 0 <= j < |out| && s in rows && SaleLabel(s) == RowLabel(out[j]) ==> out[j].count == s.count
    ensures var out := CompleteZeros(rows).value;
      forall j :: 0 <= j < |out| && (forall s :: s in rows ==> SaleLabel(s) != RowLabel(out[j])) ==> out[j].count == 0.0
  {
    var out := CompleteZeros(rows).value;
    forall j, s | 0 <= j < |out| && s in rows && SaleLabel(s) == RowLabel(out[j])
      ensures out[j].count == s.count
    {
      FillRowKeepsObserved(out[j].ds, DailyKey(out[j]), rows, s);
    }
  }

  /** Every input row survives completion with its day, series and quantity. */
  lemma CompletionKeepsEveryObservation(rows: seq<Sale>)
    requires CompleteZeros(rows).Ok?
    ensures forall s :: s in rows ==> DailyRow(s.ds, s.shop, s.item, s.count) in CompleteZeros(rows).value
  {
    var out := CompleteZeros(rows).value;
    CompletionCoverage(rows);
    forall s | s in rows ensures DailyRow(s.ds, s.shop, s.item, s.count) in out {
      assert KeyOf(s) in SeriesKeys(rows);
      assert Covers(out, s.ds, KeyOf(s));
      var j :| 0 <= j < |out| && out[j].ds == s.ds && DailyKey(out[j]) == KeyOf(s);
      FillRowKeepsObserved(s.ds, KeyOf(s), rows, s);
    }
  }

  /** The completeness filter followed by zero-completion, as the preparation pipeline composes them. */
  function CompletedSeries(sales: seq<Sale>, n: int): Result<seq<DailyRow>> {
    CompleteZeros(FilterCompleteSeries(sales, FindCompleteSeries(sales, n)))
  }

  /**
    The composed pipeline: every series in the completed table was observed in
    exactly `n` distinct month blocks of the raw input, and every such series is
    in the completed table.
   */
  lemma PreparedSeriesHaveNPeriods(sales: seq<Sale>, n: int)
    requires CompletedSeries(sales, n).Ok?
    ensures var out := CompletedSeries(sales, n).value;
      forall j :: 0 <= j < |out| ==> |Periods(sales, DailyKey(out[j]))| == n
    ensures var kept := FilterCompleteSeries(sales, FindCompleteSeries(sales, n));
      forall k :: k in SeriesKeys(sales) && |Periods(sales, k)| == n ==>
        Covers(CompletedSeries(sales, n).value, MinDs(kept), k)
  {
    var kept := FilterCompleteSeries(sales, FindCompleteSeries(sales, n));
    FilteredSeriesAreTheCompleteOnes(sales, n);
    CompletionCoverage(kept);
  }

  // ---------------------------------------------------------------------------
  // Column selection and the root column, on the data frame
  // ---------------------------------------------------------------------------

  /** Columns of the completed table (other raw numeric columns are not modelled). */
  const CompletedColumns: seq<string> := ["ds", "shop_id", "item_id", "item_cnt_day"]

  /** The default four-column selection of `seleccion_variables_hts`. */
  const HtsColumns: seq<string> := ["shop_id", "item_id", "ds", "item_cnt_day"]

  function CompletedRow(r: DailyRow): Row {
    map["ds" := Int(r.ds), "shop_id" := Int(r.shop), "item_id" := Int(r.item), "item_cnt_day" := Num(r.count)]
  }

  /** A row of the selected table: the quantity now lives under `y`. */
  function HtsRow(row: Row): Row
    requires forall c :: c in HtsColumns ==> c in row
  {
    map["shop_id" := row["shop_id"], "item_id" := row["item_id"], "ds" := row["ds"], "y" := row["item_cnt_day"]]
  }

  /** A row of the prepared table that the trainer reads. */
  function PreparedRow(r: DailyRow): Row {
    map["shop_id" := Int(r.shop), "item_id" := Int(r.item), "ds" := Int(r.ds), "y" := Num(r.count), "total" := Text(TotalName)]
  }

  lemma CompletedTableWellFormed(daily: seq<DailyRow>)
    ensures WellFormed(CompletedColumns, seq(|daily|, i requires 0 <= i < |daily| => CompletedRow(daily[i])))
    ensures forall c :: c in HtsColumns ==> c in CompletedColumns
  {
    var cols := Elements(CompletedColumns);
    assert cols == {"ds", "shop_id", "item_id", "item_cnt_day"};
    forall d: DailyRow ensures CompletedRow(d).Keys == cols { }
  }

  lemma HtsColumnsRenamed()
    ensures Without(WithColumns(HtsColumns, ["y"]), "item_cnt_day") == ["shop_id", "item_id", "ds", "y"]
  {
    YAppended();
    var front := ["shop_id", "item_id", "ds"];
    assert HtsColumns + ["y"] == front + ["item_cnt_day"] + ["y"];
    WithoutOne(front, "item_cnt_day", ["y"]);
  }

  lemma YAppended()
    ensures WithColumns(HtsColumns, ["y"]) == HtsColumns + ["y"]
  {
    assert WithColumns(HtsColumns, []) == HtsColumns;
    assert "y" !in HtsColumns;
  }

  lemma TotalColumnAppended()
    ensures WithColumns(["shop_id", "item_id", "ds", "y"], ["total"]) == ["shop_id", "item_id", "ds", "y", "total"]
  {
    assert WithColumns(["shop_id", "item_id", "ds", "y"], []) == ["shop_id", "item_id", "ds", "y"];
  }

  lemma HtsRowParts(row: Row)
    requires forall c :: c in HtsColumns ==> c in row
    ensures Project(row, HtsColumns)["y" := row["item_cnt_day"]] - {"item_cnt_day"} == HtsRow(row)
  {
    var lhs := Project(row, HtsColumns)["y" := row["item_cnt_day"]] - {"item_cnt_day"};
    assert lhs.Keys == HtsRow(row).Keys;
  }

  lemma PreparedRowParts(d: DailyRow)
    ensures HtsRow(CompletedRow(d))["total" := Text(TotalName)] == PreparedRow(d)
  {
    assert HtsRow(CompletedRow(d))["total" := Text(TotalName)].Keys == PreparedRow(d).Keys;
  }

  /**
    `seleccion_variables_hts` with its default four columns: a new frame with
    shop_id, item_id, ds and y, where y is the former item_cnt_day row by row.
    The caller's frame is not changed (`df[vars]` builds a new one).
   */
  method SelectHtsColumns(df: Frame) returns (r: Result<Frame>)
    requires df.Valid()
    ensures r.Ok? <==> forall c :: c in HtsColumns ==> c in df.columns
    ensures r.Err? ==> r.error.MissingColumn?
    ensures r.Ok? ==> fresh(r.value) && r.value.Valid()
    ensures r.Ok? ==> r.value.columns == ["shop_id", "item_id", "ds", "y"]
    ensures r.Ok? ==> |r.value.rows| == |df.rows|
    ensures r.Ok? ==> forall i :: 0 <= i < |df.rows| ==> r.value.rows[i] == HtsRow(df.rows[i])
  {
    var selected := df.Select(HtsColumns);
    if selected.Err? {
      return Err(selected.error);
    }
    var f := selected.value;
    var source := f.rows;
    f.SetColumn("y", seq(|source|, i requires 0 <= i < |source| => source[i]["item_cnt_day"]));
    var _ := f.DropColumn("item_cnt_day");
    HtsColumnsRenamed();
    forall i | 0 <= i < |df.rows| ensures f.rows[i] == HtsRow(df.rows[i]) {
      HtsRowParts(df.rows[i]);
    }
    return Ok(f);
  }

  /** `agrega_columna_total`: every row of the caller's frame gets `total` = name; nothing else changes. */
  method AddTotalColumn(df: Frame, name: string)
    requires df.Valid()
    modifies df
    ensures df.Valid()
    ensures df.columns == WithColumns(old(df.columns), ["total"])
    ensures |df.rows| == |old(df.rows)|
    ensures forall i :: 0 <= i < |df.rows| ==> df.rows[i] == old(df.rows)[i]["total" := Text(name)]
  {
    df.SetColumn("total", seq(|df.rows|, _ => Text(name)));
  }

  /**
    The data path of `prep_series_jeraquicas` without reading or writing files:
    completeness filter with the default period count, zero-completion, column
    selection and the `total` column.
   */
  method PrepareHierarchicalSeries(sales: seq<Sale>) returns (r: Result<Frame>)
    ensures r.Err? <==> CompletedSeries(sales, DefaultPeriods).Err?
    ensures r.Err? ==> r.error == CompletedSeries(sales, DefaultPeriods).error
    ensures r.Ok? ==> fresh(r.value) && r.value.Valid()
    ensures r.Ok? ==> r.value.columns == ["shop_id", "item_id", "ds", "y", "total"]
    ensures r.Ok? ==> |r.value.rows| == |CompletedSeries(sales, DefaultPeriods).value|
    ensures r.Ok? ==> forall i :: 0 <= i < |r.value.rows| ==>
      r.value.rows[i] == PreparedRow(CompletedSeries(sales, DefaultPeriods).value[i])
  {
    var daily := CompletedSeries(sales, DefaultPeriods);
    if daily.Err? {
      return Err(daily.error);
    }
    var table := seq(|daily.value|, i requires 0 <= i < |daily.value| => CompletedRow(daily.value[i]));
    CompletedTableWellFormed(daily.value);
    var completed := new Frame(CompletedColumns, table);
    var selected := SelectHtsColumns(completed);
    assert selected.Ok?;
    var f := selected.value;
    AddTotalColumn(f, TotalName);
    TotalColumnAppended();
    forall i | 0 <= i < |daily.value| ensures f.rows[i] == PreparedRow(daily.value[i]) {
      PreparedRowParts(daily.value[i]);
    }
    return Ok(f);
  }
}
