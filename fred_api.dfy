/**
 * `fetch_treasury_yields`: one table per FRED series (its values coerced to
 * numbers, unparsable ones missing), outer-merged on the date and indexed by
 * date in ascending order.
 *
 * The HTTP request per series is the parameter `fetch`, pandas' `to_numeric`
 * with `errors="coerce"` is the parameter `toNumeric`, and dates are integers
 * (the conversion of "YYYY-MM-DD" strings is monotone, so it does not change
 * the order).
 */
module FredApi {
  import opened Wrappers
  import opened Sequences
  import opened Tables

  /** One element of `observations`: the date and the value text ("." when FRED has no value). */
  datatype Observation = Observation(date: int, value: string)

  /** `pd.DataFrame([])["value"]` raises KeyError when a series returns no observations. */
  datatype FredError = NoObservations(seriesId: string)

  /** The keys of `TREASURY_SERIES`, in insertion order. */
  const TreasurySeries: seq<string> := ["DGS3", "DGS1"]

  function ObsDate(o: Observation): int { o.date }

  function SeriesDates(obs: seq<Observation>): set<int> { KeySet(obs, ObsDate) }

  /** The dates of all the series named in `ids`. */
  function UnionDates(ids: seq<string>, fetch: string -> seq<Observation>): set<int> {
    if ids == [] then {} else UnionDates(ids[..|ids| - 1], fetch) + SeriesDates(fetch(ids[|ids| - 1]))
  }

  /** The value a series holds on `date`, or missing when it has no observation that day. */
  function ValueOn(obs: seq<Observation>, date: int, toNumeric: string -> Option<real>): (v: Cell)
    ensures date !in SeriesDates(obs) ==> v == None
    ensures UniqueKeys(obs, ObsDate) ==> forall i :: 0 <= i < |obs| && obs[i].date == date ==> v == toNumeric(obs[i].value)
  {
    if obs == [] then None
    else
      var rest := ValueOn(obs[1..], date, toNumeric);
      assert forall i :: 0 < i < |obs| ==> obs[1..][i - 1] == obs[i];
      assert UniqueKeys(obs, ObsDate) ==> UniqueKeys(obs[1..], ObsDate);
      assert obs[0] in obs && SeriesDates(obs[1..]) <= SeriesDates(obs);
      if obs[0].date == date then toNumeric(obs[0].value) else rest
  }

  /** Lines 76-80: one row per observation, one value column named by the series id. */
  function SeriesRows(id: string, obs: seq<Observation>, toNumeric: string -> Option<real>): (rows: seq<Row>)
    ensures |rows| == |obs|
    ensures forall i :: 0 <= i < |rows| ==> rows[i].key == obs[i].date && rows[i].cells == map[id := toNumeric(obs[i].value)]
  {
    if obs == [] then [] else [Row(obs[0].date, map[id := toNumeric(obs[0].value)])] + SeriesRows(id, obs[1..], toNumeric)
  }

  function SeriesFrame(id: string, obs: seq<Observation>, toNumeric: string -> Option<real>): Table {
    Table([id], SeriesRows(id, obs, toNumeric))
  }

  // ---------------------------------------------------------------------------
  // Outer merge on the date
  // ---------------------------------------------------------------------------

  function NoneCells(cols: seq<string>): map<string, Cell> {
    map c | c in ColumnSet(cols) :: None
  }

  /** The cells of the first row keyed `k`, or all-missing cells when there is none. */
  function CellsAt(rows: seq<Row>, k: int, cols: seq<string>): map<string, Cell> {
    if rows == [] then NoneCells(cols)
    else if rows[0].key == k then rows[0].cells
    else CellsAt(rows[1..], k, cols)
  }

  /** Left rows extended with the right side's cells on their date. */
  function ExtendLeft(left: seq<Row>, b: Table): (rows: seq<Row>)
    ensures |rows| == |left|
    ensures forall i :: 0 <= i < |rows| ==> rows[i] == Row(left[i].key, left[i].cells + CellsAt(b.rows, left[i].key, b.columns))
  {
    if left == [] then []
    else [Row(left[0].key, left[0].cells + CellsAt(b.rows, left[0].key, b.columns))] + ExtendLeft(left[1..], b)
  }

  /** Right rows whose date the left side lacks, with missing values in the left columns. */
  function RightOnly(a: Table, right: seq<Row>): (rows: seq<Row>)
    ensures forall r :: r in rows <==> exists f :: f in right && f.key !in Keys(a) && r == Row(f.key, NoneCells(a.columns) + f.cells)
  {
    if right == [] then []
    else
      var rest := RightOnly(a, right[1..]);
      assert forall f :: f in right <==> f == right[0] || f in right[1..];
      (if right[0].key !in Keys(a) then [Row(right[0].key, NoneCells(a.columns) + right[0].cells)] else []) + rest
  }

  /**
   * `a.merge(b, on="date", how="outer")` for tables without repeated dates:
   * one row per date of either side. Rows are left unordered here; the final
   * `sort_index` fixes the order.
   */
  function OuterMerge(a: Table, b: Table): (m: Table)
    ensures m.columns == a.columns + b.columns
    ensures Keys(m) == Keys(a) + Keys(b)
  {
    MergedKeySet(a, b, ExtendLeft(a.rows, b), RightOnly(a, b.rows));
    Table(a.columns + b.columns, ExtendLeft(a.rows, b) + RightOnly(a, b.rows))
  }

  /**
   * The merge loop's invariant after the series `ids`: one column per series,
   * one row per date of any of them, each cell the series' value that day.
   */
  predicate MergedSeries(t: Table, ids: seq<string>, fetch: string -> seq<Observation>, toNumeric: string -> Option<real>) {
    && t.columns == ids
    && WellFormed(t)
    && UniqueKeys(t.rows, RowKey)
    && Keys(t) == UnionDates(ids, fetch)
    && forall r :: r in t.rows ==> CellsMatch(r, ids, fetch, toNumeric)
  }

  /** Each cell of `r` in the columns `ids` holds that series' value on `r`'s date. */
  predicate CellsMatch(r: Row, ids: seq<string>, fetch: string -> seq<Observation>, toNumeric: string -> Option<real>) {
    forall c :: c in ids ==> c in r.cells && r.cells[c] == ValueOn(fetch(c), r.key, toNumeric)
  }

  lemma CellsAtSeries(id: string, obs: seq<Observation>, k: int, toNumeric: string -> Option<real>)
    ensures CellsAt(SeriesRows(id, obs, toNumeric), k, [id]) == map[id := ValueOn(obs, k, toNumeric)]
  {
    if obs != [] {
      var rows := SeriesRows(id, obs, toNumeric);
      assert rows[1..] == SeriesRows(id, obs[1..], toNumeric);
      CellsAtSeries(id, obs[1..], k, toNumeric);
    } else {
      assert ColumnSet([id]) == {id};
    }
  }

  lemma UnionDatesContains(ids: seq<string>, c: string, fetch: string -> seq<Observation>)
    requires c in ids
    ensures SeriesDates(fetch(c)) <= UnionDates(ids, fetch)
  {
    if ids[|ids| - 1] != c {
      assert c in ids[..|ids| - 1];
      UnionDatesContains(ids[..|ids| - 1], c, fetch);
    }
  }

  /** A single series already satisfies the merge invariant. */
  lemma SeriesFrameMerged(id: string, fetch: string -> seq<Observation>, toNumeric: string -> Option<real>)
    requires UniqueKeys(fetch(id), ObsDate)
    ensures MergedSeries(SeriesFrame(id, fetch(id), toNumeric), [id], fetch, toNumeric)
    ensures Keys(SeriesFrame(id, fetch(id), toNumeric)) == SeriesDates(fetch(id))
  {
    var obs := fetch(id);
    var t := SeriesFrame(id, obs, toNumeric);
    assert [id][..0] == [];
    assert UnionDates([id], fetch) == SeriesDates(obs);
    SeriesFrameKeys(id, obs, toNumeric);
    forall r | r in t.rows ensures CellsMatch(r, [id], fetch, toNumeric) && r.cells.Keys == ColumnSet([id]) {
      var i :| 0 <= i < |t.rows| && t.rows[i] == r;
    }
  }

  /** A series' table is indexed by exactly the series' dates. */
  lemma SeriesFrameKeys(id: string, obs: seq<Observation>, toNumeric: string -> Option<real>)
    ensures Keys(SeriesFrame(id, obs, toNumeric)) == SeriesDates(obs)
  {
    var rows := SeriesRows(id, obs, toNumeric);
    forall k | k in KeySet(rows, RowKey) ensures k in SeriesDates(obs) {
      var r :| r in rows && r.key == k;
      var i :| 0 <= i < |rows| && rows[i] == r;
      assert obs[i] in obs;
    }
    forall k | k in SeriesDates(obs) ensures k in KeySet(rows, RowKey) {
      var o :| o in obs && o.date == k;
      var i :| 0 <= i < |obs| && obs[i] == o;
      assert rows[i] in rows;
    }
  }

  /** Left rows keep their date and gain the new series' value on that date. */
  lemma ExtendLeftCells(t: Table, ids: seq<string>, id: string, fetch: string -> seq<Observation>, toNumeric: string -> Option<real>, i: int)
    requires MergedSeries(t, ids, fetch, toNumeric) && id !in ids
    requires 0 <= i < |t.rows|
    ensures var x := ExtendLeft(t.rows, SeriesFrame(id, fetch(id), toNumeric))[i];
      && x.key == t.rows[i].key
      && x.cells.Keys == ColumnSet(ids + [id])
      && CellsMatch(x, ids + [id], fetch, toNumeric)
  {
    var r := t.rows[i];
    assert r in t.rows;
    CellsAtSeries(id, fetch(id), r.key, toNumeric);
  }

  /** Rows only the new series has: missing in every earlier series, the new series' value otherwise. */
  lemma RightOnlyCells(t: Table, ids: seq<string>, id: string, fetch: string -> seq<Observation>, toNumeric: string -> Option<real>, x: Row)
    requires MergedSeries(t, ids, fetch, toNumeric) && id !in ids && UniqueKeys(fetch(id), ObsDate)
    requires x in RightOnly(t, SeriesFrame(id, fetch(id), toNumeric).rows)
    ensures x.key in Keys(SeriesFrame(id, fetch(id), toNumeric)) && x.key !in Keys(t)
    ensures x.cells.Keys == ColumnSet(ids + [id])
    ensures CellsMatch(x, ids + [id], fetch, toNumeric)
  {
    var f := SeriesFrame(id, fetch(id), toNumeric);
    SeriesFrameMerged(id, fetch, toNumeric);
    var fr :| fr in f.rows && fr.key !in Keys(t) && x == Row(fr.key, NoneCells(t.columns) + fr.cells);
    assert fr.key in Keys(f);
    assert fr.cells.Keys == {id} && fr.cells[id] == ValueOn(fetch(id), fr.key, toNumeric);
    assert x.cells.Keys == ColumnSet(ids + [id]) by {
      assert ColumnSet(ids + [id]) == ColumnSet(ids) + {id};
    }
    forall c | c in ids + [id] ensures c in x.cells && x.cells[c] == ValueOn(fetch(c), x.key, toNumeric) {
      if c != id {
        UnionDatesContains(ids, c, fetch);
      }
    }
  }

  /** Outer-merging one more series keeps the invariant, now over `ids + [id]`. */
  lemma OuterMergeStep(t: Table, ids: seq<string>, id: string, fetch: string -> seq<Observation>, toNumeric: string -> Option<real>)
    requires MergedSeries(t, ids, fetch, toNumeric)
    requires id !in ids && UniqueKeys(fetch(id), ObsDate)
    ensures MergedSeries(OuterMerge(t, SeriesFrame(id, fetch(id), toNumeric)), ids + [id], fetch, toNumeric)
  {
    var f := SeriesFrame(id, fetch(id), toNumeric);
    SeriesFrameMerged(id, fetch, toNumeric);
    var left, right := ExtendLeft(t.rows, f), RightOnly(t, f.rows);
    var all := ids + [id];
    RowFacts(t, ids, id, fetch, toNumeric);
    var m := Table(all, left + right);
    assert OuterMerge(t, f) == m;
    assert WellFormed(m) by {
      ConcatDistinct(t.columns, f.columns);
      MergedRowsShape(left, right, all);
    }
    assert UniqueKeys(m.rows, RowKey) by {
      MergedUniqueKeys(t, f, left, right);
    }
    assert Keys(m) == UnionDates(all, fetch) by {
      MergedKeySet(t, f, left, right);
      assert all[..|all| - 1] == ids && all[|all| - 1] == id;
      assert UnionDates(all, fetch) == UnionDates(ids, fetch) + SeriesDates(fetch(id));
      assert Keys(m) == KeySet(left + right, RowKey);
    }
    assert forall r :: r in m.rows ==> CellsMatch(r, all, fetch, toNumeric) by {
      MergedCells(left, right, all, fetch, toNumeric);
    }
  }

  /** What the merge step knows of each left row and each right-only row. */
  lemma RowFacts(t: Table, ids: seq<string>, id: string, fetch: string -> seq<Observation>, toNumeric: string -> Option<real>)
    requires MergedSeries(t, ids, fetch, toNumeric)
    requires id !in ids && UniqueKeys(fetch(id), ObsDate)
    ensures var f := SeriesFrame(id, fetch(id), toNumeric);
      var left := ExtendLeft(t.rows, f);
      && |left| == |t.rows|
      && (forall i :: 0 <= i < |left| ==>
            && left[i].key == t.rows[i].key && left[i].cells.Keys == ColumnSet(ids + [id])
            && CellsMatch(left[i], ids + [id], fetch, toNumeric))
      && (forall x :: x in RightOnly(t, f.rows) ==>
            && x.key in Keys(f) && x.key !in Keys(t) && x.cells.Keys == ColumnSet(ids + [id])
            && CellsMatch(x, ids + [id], fetch, toNumeric))
  {
    var f := SeriesFrame(id, fetch(id), toNumeric);
    var left, right := ExtendLeft(t.rows, f), RightOnly(t, f.rows);
    forall i | 0 <= i < |left|
      ensures left[i].key == t.rows[i].key && left[i].cells.Keys == ColumnSet(ids + [id])
      ensures CellsMatch(left[i], ids + [id], fetch, toNumeric)
    {
      ExtendLeftCells(t, ids, id, fetch, toNumeric, i);
    }
    forall x | x in right
      ensures x.key in Keys(f) && x.key !in Keys(t) && x.cells.Keys == ColumnSet(ids + [id])
      ensures CellsMatch(x, ids + [id], fetch, toNumeric)
    {
      RightOnlyCells(t, ids, id, fetch, toNumeric, x);
    }
  }

  lemma MergedCells(left: seq<Row>, right: seq<Row>, all: seq<string>, fetch: string -> seq<Observation>, toNumeric: string -> Option<real>)
    requires forall i :: 0 <= i < |left| ==> CellsMatch(left[i], all, fetch, toNumeric)
    requires forall x :: x in right ==> CellsMatch(x, all, fetch, toNumeric)
    ensures forall r :: r in left + right ==> CellsMatch(r, all, fetch, toNumeric)
  {
    forall r | r in left + right ensures CellsMatch(r, all, fetch, toNumeric) {
      if r in left {
        var i :| 0 <= i < |left| && left[i] == r;
      }
    }
  }

  lemma MergedRowsShape(left: seq<Row>, right: seq<Row>, all: seq<string>)
    requires forall i :: 0 <= i < |left| ==> left[i].cells.Keys == ColumnSet(all)
    requires forall x :: x in right ==> x.cells.Keys == ColumnSet(all)
    ensures forall r :: r in left + right ==> r.cells.Keys == ColumnSet(all)
  {
    forall r | r in left + right ensures r.cells.Keys == ColumnSet(all) {
      if r in left {
        var i :| 0 <= i < |left| && left[i] == r;
      }
    }
  }

  lemma MergedUniqueKeys(t: Table, f: Table, left: seq<Row>, right: seq<Row>)
    requires UniqueKeys(t.rows, RowKey) && UniqueKeys(f.rows, RowKey)
    requires right == RightOnly(t, f.rows)
    requires |left| == |t.rows| && forall i :: 0 <= i < |left| ==> left[i].key == t.rows[i].key
    requires forall x :: x in right ==> x.key !in Keys(t)
    ensures UniqueKeys(left + right, RowKey)
  {
    var rows := left + right;
    FilterUniqueKeys(f.rows, (fr: Row) => fr.key !in Keys(t), RowKey);
    RightOnlyKeys(t, f.rows);
    forall a, b | 0 <= a < |rows| && 0 <= b < |rows| && a != b ensures rows[a].key != rows[b].key {
      if a < |left| && b < |left| {
        assert rows[a] == left[a] && rows[b] == left[b];
      } else if a >= |left| && b >= |left| {
        assert rows[a] == right[a - |left|] && rows[b] == right[b - |left|];
      } else if a < |left| {
        assert t.rows[a] in t.rows && rows[a] == left[a] && rows[b] in right;
      } else {
        assert t.rows[b] in t.rows && rows[b] == left[b] && rows[a] in right;
      }
    }
  }

  lemma MergedKeySet(t: Table, f: Table, left: seq<Row>, right: seq<Row>)
    requires right == RightOnly(t, f.rows)
    requires |left| == |t.rows| && forall i :: 0 <= i < |left| ==> left[i].key == t.rows[i].key
    ensures KeySet(left + right, RowKey) == Keys(t) + Keys(f)
  {
    KeySetConcat(left, right, RowKey);
    KeySetPointwise(left, t.rows, RowKey, RowKey);
    RightOnlyKeySet(t, f);
  }

  /** The right-only rows carry exactly the right dates the left side lacks. */
  lemma RightOnlyKeySet(t: Table, f: Table)
    ensures KeySet(RightOnly(t, f.rows), RowKey) == Keys(f) - Keys(t)
  {
    var right := RightOnly(t, f.rows);
    forall k | k in KeySet(right, RowKey) ensures k in Keys(f) - Keys(t) {
      var x :| x in right && x.key == k;
      var fr :| fr in f.rows && fr.key !in Keys(t) && x == Row(fr.key, NoneCells(t.columns) + fr.cells);
    }
    forall k | k in Keys(f) - Keys(t) ensures k in KeySet(right, RowKey) {
      var fr :| fr in f.rows && fr.key == k;
      var x := Row(fr.key, NoneCells(t.columns) + fr.cells);
      assert x in right;
    }
  }

  /** The right-only rows are one per kept right row, in order, so they inherit distinct keys. */
  lemma {:induction false} RightOnlyKeys(a: Table, right: seq<Row>)
    ensures |RightOnly(a, right)| == |Filter(right, (fr: Row) => fr.key !in Keys(a))|
    ensures forall i :: 0 <= i < |RightOnly(a, right)| ==> RightOnly(a, right)[i].key == Filter(right, (fr: Row) => fr.key !in Keys(a))[i].key
    ensures UniqueKeys(Filter(right, (fr: Row) => fr.key !in Keys(a)), RowKey) ==> UniqueKeys(RightOnly(a, right), RowKey)
  {
    if right != [] {
      RightOnlyKeys(a, right[1..]);
    }
  }

  /**
   * `fetch_treasury_yields` (lines 61-91): fetch every series in
   * `TREASURY_SERIES` order, outer-merge them on the date and sort by date.
   * FRED reports each date at most once per series.
   */
  method FetchTreasuryYields(fetch: string -> seq<Observation>, toNumeric: string -> Option<real>)
    returns (res: Result<Table, FredError>)
    requires forall c :: c in TreasurySeries ==> UniqueKeys(fetch(c), ObsDate)
    ensures res.Failure? <==> exists c :: c in TreasurySeries && fetch(c) == []
    ensures res.Failure? ==>
      exists k :: && 0 <= k < |TreasurySeries| && TreasurySeries[k] == res.error.seriesId
                  && fetch(TreasurySeries[k]) == []
                  && forall j :: 0 <= j < k ==> fetch(TreasurySeries[j]) != []
    ensures res.Success? ==>
      && WellFormed(res.value)
      && res.value.columns == TreasurySeries
      && StrictlySortedBy(res.value.rows, RowKey)
      && Keys(res.value) == UnionDates(TreasurySeries, fetch)
      && forall r :: r in res.value.rows ==> CellsMatch(r, TreasurySeries, fetch, toNumeric)
  {
    var dfs: seq<Table> := [];
    for i := 0 to |TreasurySeries|
      invariant |dfs| == i
      invariant forall j :: 0 <= j < i ==> fetch(TreasurySeries[j]) != []
      invariant forall j :: 0 <= j < i ==> dfs[j] == SeriesFrame(TreasurySeries[j], fetch(TreasurySeries[j]), toNumeric)
    {
      var seriesId := TreasurySeries[i];
      var observations := fetch(seriesId);
      if observations == [] {
        return Failure(NoObservations(seriesId));
      }
      dfs := dfs + [SeriesFrame(seriesId, observations, toNumeric)];
    }
    var result := MergeAll(dfs, TreasurySeries, fetch, toNumeric);
    SortIndexKeeps(result, TreasurySeries, fetch, toNumeric);
    result := Table(result.columns, SortBy(result.rows, RowKey));
    return Success(result);
  }

  /**
   * Lines 83-86: starting from the first series' table, outer-merge the
   * others one by one; the result holds one row per date of any series and
   * each series' value on that date.
   */
  method MergeAll(dfs: seq<Table>, ids: seq<string>, fetch: string -> seq<Observation>, toNumeric: string -> Option<real>)
    returns (result: Table)
    requires |dfs| == |ids| > 0 && DistinctColumns(ids)
    requires forall j :: 0 <= j < |ids| ==> UniqueKeys(fetch(ids[j]), ObsDate)
    requires forall j :: 0 <= j < |ids| ==> dfs[j] == SeriesFrame(ids[j], fetch(ids[j]), toNumeric)
    ensures MergedSeries(result, ids, fetch, toNumeric)
  {
    result := dfs[0];
    SeriesFrameMerged(ids[0], fetch, toNumeric);
    assert ids[..1] == [ids[0]];
    for i := 1 to |dfs|
      invariant MergedSeries(result, ids[..i], fetch, toNumeric)
    {
      assert ids[..i + 1] == ids[..i] + [ids[i]];
      assert ids[i] !in ids[..i];
      OuterMergeStep(result, ids[..i], ids[i], fetch, toNumeric);
      result := OuterMerge(result, dfs[i]);
    }
    assert ids[..|dfs|] == ids;
  }

  /**
   * Lines 88-91: sorting the merged rows by date keeps the columns, the
   * date set and every row, and with one row per date the order is strict.
   */
  lemma SortIndexKeeps(t: Table, ids: seq<string>, fetch: string -> seq<Observation>, toNumeric: string -> Option<real>)
    requires MergedSeries(t, ids, fetch, toNumeric)
    ensures var u := Table(t.columns, SortBy(t.rows, RowKey));
      && WellFormed(u)
      && StrictlySortedBy(u.rows, RowKey)
      && Keys(u) == UnionDates(ids, fetch)
      && forall r :: r in u.rows ==> CellsMatch(r, ids, fetch, toNumeric)
  {
    var rows := SortBy(t.rows, RowKey);
    SortByKeepsUniqueKeys(t.rows, RowKey);
    SameMultisetSameKeys(rows, t.rows, RowKey);
    SortByMembers(t.rows, RowKey);
  }
}
