/**
 * The statistical-results script: `load_data` reduces the stablecoin table
 * to one `market_cap` column, truncates both indices to calendar dates,
 * merges on the index and drops incomplete rows; `run_granger_tests` runs
 * the Granger test in both directions for six yields; `main` prints the
 * lag-1 F test of each.
 *
 * Date truncation is the parameter `dateOf`, the Granger test the parameter
 * `granger` (a two-column table and a maximum lag to the F test per lag).
 */
module StatisticalResults {
  import opened Wrappers
  import opened Sequences
  import opened Tables

  const SourceColumn := "circulating_supply_usd"
  const MarketCap := "market_cap"
  const GrangerYields: seq<string> := ["DGS3MO", "DGS1", "DGS2", "DGS5", "DGS10", "DGS30"]
  const MaxLag: nat := 5

  // ---------------------------------------------------------------------------
  // Lines 13-35: load_data
  // ---------------------------------------------------------------------------

  /**
   * The column that ends up named `market_cap` after the rename: the
   * renamed `circulating_supply_usd`, else an existing `market_cap`.
   */
  function MarketCapSource(cols: seq<string>): (src: Option<string>)
    ensures src.Some? ==> src.value in cols && (src.value == SourceColumn || src.value == MarketCap)
    ensures src.None? <==> SourceColumn !in cols && MarketCap !in cols
  {
    if SourceColumn in cols then Some(SourceColumn)
    else if MarketCap in cols then Some(MarketCap)
    else None
  }

  /** Lines 23-28: the market-cap side, one column, index truncated to the date. */
  function MarketCapSide(t: Table, src: string, dateOf: int -> int): (m: Table)
    requires WellFormed(t) && src in t.columns
    ensures m.columns == [MarketCap] && |m.rows| == |t.rows|
    ensures forall i :: 0 <= i < |t.rows| ==>
      src in t.rows[i].cells && m.rows[i] == Row(dateOf(t.rows[i].key), map[MarketCap := t.rows[i].cells[src]])
  {
    assert forall i :: 0 <= i < |t.rows| ==> t.rows[i] in t.rows;
    Table([MarketCap], seq(|t.rows|, i requires 0 <= i < |t.rows| && src in t.rows[i].cells =>
      Row(dateOf(t.rows[i].key), map[MarketCap := t.rows[i].cells[src]])))
  }

  /** Line 29: the Treasury side with its index truncated to the date. */
  function TruncateIndex(t: Table, dateOf: int -> int): (u: Table)
    ensures u.columns == t.columns && |u.rows| == |t.rows|
    ensures forall i :: 0 <= i < |t.rows| ==> u.rows[i] == Row(dateOf(t.rows[i].key), t.rows[i].cells)
  {
    Table(t.columns, seq(|t.rows|, i requires 0 <= i < |t.rows| => Row(dateOf(t.rows[i].key), t.rows[i].cells)))
  }

  /** `pd.merge`'s default suffixes for a column name both sides carry. */
  const LeftSuffix := "_x"
  const RightSuffix := "_y"

  /** `c`, suffixed when it is the shared name `market_cap`. */
  function SuffixName(c: string, suffix: string): (n: string)
    requires suffix != ""
    ensures n != MarketCap
    ensures c != MarketCap ==> n == c
  {
    if c == MarketCap then MarketCap + suffix else c
  }

  /** A row's cells with a `market_cap` cell moved to its suffixed name. */
  function SuffixCells(cells: map<string, Cell>, suffix: string): (m: map<string, Cell>)
    requires suffix != ""
    ensures MarketCap !in m
    ensures forall c :: c in cells && c != MarketCap && c != MarketCap + suffix ==> c in m && m[c] == cells[c]
    ensures MarketCap in cells ==> MarketCap + suffix in m && m[MarketCap + suffix] == cells[MarketCap]
  {
    if MarketCap in cells then (cells - {MarketCap})[MarketCap + suffix := cells[MarketCap]] else cells
  }

  /** One side of the merge after suffixing: `market_cap` renamed in the columns and in every row. */
  function Suffixed(t: Table, suffix: string): (u: Table)
    requires suffix != ""
    ensures |u.columns| == |t.columns| && |u.rows| == |t.rows|
    ensures forall i :: 0 <= i < |t.columns| ==> u.columns[i] == SuffixName(t.columns[i], suffix)
    ensures forall i :: 0 <= i < |t.rows| ==> u.rows[i] == Row(t.rows[i].key, SuffixCells(t.rows[i].cells, suffix))
  {
    Table(seq(|t.columns|, i requires 0 <= i < |t.columns| => SuffixName(t.columns[i], suffix)),
      seq(|t.rows|, i requires 0 <= i < |t.rows| => Row(t.rows[i].key, SuffixCells(t.rows[i].cells, suffix))))
  }

  /** The Treasury table also has `market_cap`, so the merge suffixes both copies. */
  predicate Clash(treasuryCols: seq<string>) {
    MarketCap in treasuryCols
  }

  /** The market-cap column's name after the merge. */
  function LeftName(treasuryCols: seq<string>): (n: string)
    ensures n == MarketCap <==> !Clash(treasuryCols)
  {
    if Clash(treasuryCols) then SuffixName(MarketCap, LeftSuffix) else MarketCap
  }

  /** A Treasury row's cells after the merge. */
  function RightCells(treasuryCols: seq<string>, cells: map<string, Cell>): map<string, Cell> {
    if Clash(treasuryCols) then SuffixCells(cells, RightSuffix) else cells
  }

  /** The merged table's columns: the market cap, then the Treasury columns, suffixed on a clash. */
  function MergedColumns(treasuryCols: seq<string>): (cols: seq<string>)
    ensures |cols| == 1 + |treasuryCols| && cols[0] == LeftName(treasuryCols)
    ensures !Clash(treasuryCols) ==> cols == [MarketCap] + treasuryCols
    ensures Clash(treasuryCols) ==> MarketCap !in cols
    ensures forall i :: 0 <= i < |treasuryCols| && treasuryCols[i] != MarketCap ==> cols[i + 1] == treasuryCols[i]
  {
    if Clash(treasuryCols) then [LeftName(treasuryCols)] + Suffixed(Table(treasuryCols, []), RightSuffix).columns
    else [MarketCap] + treasuryCols
  }

  /** The suffixed names collide with a Treasury column: `pd.merge` raises MergeError. */
  predicate SuffixCollision(treasuryCols: seq<string>) {
    Clash(treasuryCols) && (MarketCap + LeftSuffix in treasuryCols || MarketCap + RightSuffix in treasuryCols)
  }

  /**
   * `load_data` on the two loaded tables. Selecting `[['market_cap']]`
   * raises KeyError when neither name is present; the merge raises
   * MergeError when its suffixes would duplicate a column name.
   */
  function LoadData(marketCap: Table, treasury: Table, dateOf: int -> int): (res: Result<Table, TableError>)
    requires WellFormed(marketCap) && WellFormed(treasury)
    ensures res.Failure? <==>
      (SourceColumn !in marketCap.columns && MarketCap !in marketCap.columns) || SuffixCollision(treasury.columns)
    ensures res.Success? ==> res.value.columns == MergedColumns(treasury.columns)
    ensures res.Success? && Clash(treasury.columns) ==> MarketCap !in res.value.columns
    ensures res.Success? ==> forall r, c :: r in res.value.rows && c in res.value.columns ==> c in r.cells && r.cells[c].Some?
  {
    match MarketCapSource(marketCap.columns)
    case None => Failure(MissingColumn(MarketCap))
    case Some(src) =>
      if SuffixCollision(treasury.columns) then Failure(ColumnsOverlap)
      else Success(DropNa(Aligned(marketCap, treasury, src, dateOf)))
  }

  /** Example inputs for a clash: both tables carry `market_cap`, with dates already whole days. */
  const ClashStablecoin := Table([MarketCap], [Row(1, map[MarketCap := Some(5.0)])])
  const ClashTreasury := Table([MarketCap, "DGS1"], [Row(1, map[MarketCap := Some(99.0), "DGS1" := Some(4.0)])])

  function WholeDay(k: int): int { k }

  /** The two sides of the example after suffixing. */
  lemma ClashSides()
    ensures Suffixed(MarketCapSide(ClashStablecoin, MarketCap, WholeDay), LeftSuffix).rows
      == [Row(1, map["market_cap_x" := Some(5.0)])]
    ensures Suffixed(TruncateIndex(ClashTreasury, WholeDay), RightSuffix).rows
      == [Row(1, map["market_cap_y" := Some(99.0), "DGS1" := Some(4.0)])]
  {
    assert MarketCap + LeftSuffix == "market_cap_x" && MarketCap + RightSuffix == "market_cap_y";
    assert ColumnSet([MarketCap]) == {MarketCap};
    SuffixedSingle(1, Some(5.0), LeftSuffix);
    var cells := ClashTreasury.rows[0].cells;
    var r := Suffixed(TruncateIndex(ClashTreasury, WholeDay), RightSuffix);
    assert cells - {MarketCap} == map["DGS1" := Some(4.0)];
    assert SuffixCells(cells, RightSuffix) == map["DGS1" := Some(4.0)]["market_cap_y" := Some(99.0)];
    assert map["DGS1" := Some(4.0)]["market_cap_y" := Some(99.0)] == map["market_cap_y" := Some(99.0), "DGS1" := Some(4.0)];
    assert |r.rows| == 1;
  }

  /** The example's merge: one row, the two market caps side by side under suffixed names. */
  lemma ClashAligned()
    ensures ColumnSet(ClashStablecoin.columns) == {MarketCap}
    ensures Aligned(ClashStablecoin, ClashTreasury, MarketCap, WholeDay)
      == Table(["market_cap_x", "market_cap_y", "DGS1"],
        [Row(1, map["market_cap_x" := Some(5.0), "market_cap_y" := Some(99.0), "DGS1" := Some(4.0)])])
  {
    assert ColumnSet([MarketCap]) == {MarketCap};
    ClashSides();
    var lx := Row(1, map["market_cap_x" := Some(5.0)]);
    var ry := Row(1, map["market_cap_y" := Some(99.0), "DGS1" := Some(4.0)]);
    var x := Merge(lx, ry);
    assert x == Row(1, map["market_cap_x" := Some(5.0), "market_cap_y" := Some(99.0), "DGS1" := Some(4.0)]);
    assert Matches(lx, [ry]) == [x];
    assert JoinRows([lx], [ry]) == [x];
    assert MergedColumns(ClashTreasury.columns) == ["market_cap_x", "market_cap_y", "DGS1"] by {
      assert MarketCap + LeftSuffix == "market_cap_x" && MarketCap + RightSuffix == "market_cap_y";
    }
  }

  /**
   * A Treasury table with its own `market_cap`: both values survive, under
   * `market_cap_x` (the stablecoin's) and `market_cap_y` (the Treasury's).
   */
  lemma ClashKeepsBothValues()
    ensures var df := LoadData(ClashStablecoin, ClashTreasury, WholeDay);
      && df.Success?
      && df.value.columns == ["market_cap_x", "market_cap_y", "DGS1"]
      && df.value.rows == [Row(1, map["market_cap_x" := Some(5.0), "market_cap_y" := Some(99.0), "DGS1" := Some(4.0)])]
  {
    ClashAligned();
    assert ColumnSet(ClashTreasury.columns) == {MarketCap, "DGS1"};
    assert MarketCap + LeftSuffix == "market_cap_x" && MarketCap + RightSuffix == "market_cap_y";
    assert MarketCapSource(ClashStablecoin.columns) == Some(MarketCap);
    assert !SuffixCollision(ClashTreasury.columns);
    var a := Aligned(ClashStablecoin, ClashTreasury, MarketCap, WholeDay);
    var x := a.rows[0];
    assert CompleteOn(x, a.columns);
    assert RowsCompleteOn([x], a.columns) == [x];
  }

  /** A market-cap row after suffixing holds its value under the merged name. */
  lemma SuffixedSingle(key: int, v: Cell, suffix: string)
    requires suffix != ""
    ensures Row(key, SuffixCells(map[MarketCap := v], suffix)) == Row(key, map[SuffixName(MarketCap, suffix) := v])
  {
    assert map[MarketCap := v] - {MarketCap} == map[];
  }

  /** Line 32: the two sides merged on the truncated date, before `dropna()`. */
  function Aligned(marketCap: Table, treasury: Table, src: string, dateOf: int -> int): (a: Table)
    requires WellFormed(marketCap) && src in marketCap.columns
    ensures a.columns == MergedColumns(treasury.columns)
    ensures forall x :: x in a.rows <==> exists i, j ::
      && 0 <= i < |marketCap.rows| && 0 <= j < |treasury.rows|
      && dateOf(marketCap.rows[i].key) == dateOf(treasury.rows[j].key) && src in marketCap.rows[i].cells
      && x == Row(dateOf(marketCap.rows[i].key),
        map[LeftName(treasury.columns) := marketCap.rows[i].cells[src]] + RightCells(treasury.columns, treasury.rows[j].cells))
  {
    var left := MarketCapSide(marketCap, src, dateOf);
    var right := TruncateIndex(treasury, dateOf);
    if Clash(treasury.columns) then
      var l, r := Suffixed(left, LeftSuffix), Suffixed(right, RightSuffix);
      SuffixedLeft(marketCap, src, dateOf, treasury.columns);
      AlignedJoin(marketCap, treasury, src, dateOf, l.rows, r.rows);
      Table(MergedColumns(treasury.columns), JoinRows(l.rows, r.rows))
    else
      AlignedJoin(marketCap, treasury, src, dateOf, left.rows, right.rows);
      Table(left.columns + right.columns, JoinRows(left.rows, right.rows))
  }

  /** The suffixed market-cap side holds each value under the merged name. */
  lemma SuffixedLeft(marketCap: Table, src: string, dateOf: int -> int, treasuryCols: seq<string>)
    requires WellFormed(marketCap) && src in marketCap.columns && Clash(treasuryCols)
    ensures var l := Suffixed(MarketCapSide(marketCap, src, dateOf), LeftSuffix);
      |l.rows| == |marketCap.rows| && forall i :: 0 <= i < |l.rows| ==>
        src in marketCap.rows[i].cells && l.rows[i] == Row(dateOf(marketCap.rows[i].key), map[LeftName(treasuryCols) := marketCap.rows[i].cells[src]])
  {
    var l := Suffixed(MarketCapSide(marketCap, src, dateOf), LeftSuffix);
    forall i | 0 <= i < |l.rows|
      ensures src in marketCap.rows[i].cells && l.rows[i] == Row(dateOf(marketCap.rows[i].key), map[LeftName(treasuryCols) := marketCap.rows[i].cells[src]])
    {
      SuffixedSingle(dateOf(marketCap.rows[i].key), marketCap.rows[i].cells[src], LeftSuffix);
    }
  }

  /** Joining the two prepared sides pairs every stablecoin row with every Treasury row on its date. */
  lemma AlignedJoin(marketCap: Table, treasury: Table, src: string, dateOf: int -> int, l: seq<Row>, r: seq<Row>)
    requires |l| == |marketCap.rows| && |r| == |treasury.rows|
    requires forall i :: 0 <= i < |l| ==>
      src in marketCap.rows[i].cells && l[i] == Row(dateOf(marketCap.rows[i].key), map[LeftName(treasury.columns) := marketCap.rows[i].cells[src]])
    requires forall j :: 0 <= j < |r| ==> r[j] == Row(dateOf(treasury.rows[j].key), RightCells(treasury.columns, treasury.rows[j].cells))
    ensures forall x :: x in JoinRows(l, r) <==> exists i, j ::
      && 0 <= i < |marketCap.rows| && 0 <= j < |treasury.rows|
      && dateOf(marketCap.rows[i].key) == dateOf(treasury.rows[j].key) && src in marketCap.rows[i].cells
      && x == Row(dateOf(marketCap.rows[i].key),
        map[LeftName(treasury.columns) := marketCap.rows[i].cells[src]] + RightCells(treasury.columns, treasury.rows[j].cells))
  {
  }

  /**
   * The load fails when the stablecoin table has no market-cap column under
   * either name (KeyError), or else when the merge's suffixes would repeat a
   * Treasury column name (MergeError).
   */
  lemma LoadDataFails(marketCap: Table, treasury: Table, dateOf: int -> int)
    requires WellFormed(marketCap) && WellFormed(treasury)
    ensures SourceColumn !in marketCap.columns && MarketCap !in marketCap.columns ==>
      LoadData(marketCap, treasury, dateOf) == Failure(MissingColumn(MarketCap))
    ensures (SourceColumn in marketCap.columns || MarketCap in marketCap.columns) && SuffixCollision(treasury.columns) ==>
      LoadData(marketCap, treasury, dateOf) == Failure(ColumnsOverlap)
  {
  }

  /**
   * The stablecoin side contributes exactly one column, `market_cap`, in
   * front of the Treasury columns, and the table is well-formed.
   */
  lemma LoadDataShape(marketCap: Table, treasury: Table, dateOf: int -> int)
    requires WellFormed(marketCap) && WellFormed(treasury) && MarketCap !in treasury.columns
    requires LoadData(marketCap, treasury, dateOf).Success?
    ensures LoadData(marketCap, treasury, dateOf).value.columns == [MarketCap] + treasury.columns
    ensures WellFormed(LoadData(marketCap, treasury, dateOf).value)
  {
    var src := MarketCapSource(marketCap.columns).value;
    var left := MarketCapSide(marketCap, src, dateOf);
    var right := TruncateIndex(treasury, dateOf);
    assert WellFormed(left) by {
      assert ColumnSet([MarketCap]) == {MarketCap};
    }
    assert WellFormed(right) by {
      forall r | r in right.rows ensures r.cells.Keys == ColumnSet(right.columns) {
        var i :| 0 <= i < |right.rows| && right.rows[i] == r;
        assert treasury.rows[i] in treasury.rows;
      }
    }
    JoinWellFormed(left, right);
    DropNaWellFormed(Aligned(marketCap, treasury, src, dateOf), left.columns + right.columns);
  }

  /** After `dropna()` no remaining row has a missing value in any column. */
  lemma LoadDataComplete(marketCap: Table, treasury: Table, dateOf: int -> int)
    requires WellFormed(marketCap) && WellFormed(treasury)
    requires LoadData(marketCap, treasury, dateOf).Success?
    ensures var df := LoadData(marketCap, treasury, dateOf).value;
      forall r, c :: r in df.rows && c in df.columns ==> c in r.cells && r.cells[c].Some?
  {
  }

  /**
   * Every merged row's date is the truncated date of a stablecoin row and
   * of a Treasury row, and its market cap is that stablecoin row's value.
   */
  lemma LoadDataKeysInBoth(marketCap: Table, treasury: Table, dateOf: int -> int)
    requires WellFormed(marketCap) && WellFormed(treasury) && MarketCap !in treasury.columns
    requires LoadData(marketCap, treasury, dateOf).Success?
    ensures var df := LoadData(marketCap, treasury, dateOf).value;
      var src := MarketCapSource(marketCap.columns).value;
      forall r :: r in df.rows ==>
        && (exists l :: l in marketCap.rows && dateOf(l.key) == r.key && MarketCap in r.cells && src in l.cells && r.cells[MarketCap] == l.cells[src])
        && (exists t :: t in treasury.rows && dateOf(t.key) == r.key)
  {
    var src := MarketCapSource(marketCap.columns).value;
    var df := LoadData(marketCap, treasury, dateOf).value;
    assert df == DropNa(Aligned(marketCap, treasury, src, dateOf));
    forall r | r in df.rows
      ensures exists l :: l in marketCap.rows && dateOf(l.key) == r.key && MarketCap in r.cells && src in l.cells && r.cells[MarketCap] == l.cells[src]
      ensures exists t :: t in treasury.rows && dateOf(t.key) == r.key
    {
      AlignedRowSource(marketCap, treasury, src, dateOf, r);
    }
  }

  /** A merged row comes from a stablecoin row and a Treasury row on its date, and carries the stablecoin value. */
  lemma AlignedRowSource(marketCap: Table, treasury: Table, src: string, dateOf: int -> int, r: Row)
    requires WellFormed(marketCap) && WellFormed(treasury) && src in marketCap.columns && MarketCap !in treasury.columns
    requires r in Aligned(marketCap, treasury, src, dateOf).rows
    ensures exists l :: l in marketCap.rows && dateOf(l.key) == r.key && MarketCap in r.cells && src in l.cells && r.cells[MarketCap] == l.cells[src]
    ensures exists t :: t in treasury.rows && dateOf(t.key) == r.key
  {
    var left := MarketCapSide(marketCap, src, dateOf);
    var right := TruncateIndex(treasury, dateOf);
    assert r in JoinRows(left.rows, right.rows);
    var i, j :| 0 <= i < |left.rows| && 0 <= j < |right.rows| && left.rows[i].key == right.rows[j].key && r == Merge(left.rows[i], right.rows[j]);
    var l, t := marketCap.rows[i], treasury.rows[j];
    assert l in marketCap.rows && t in treasury.rows;
    assert src in l.cells && left.rows[i] == Row(dateOf(l.key), map[MarketCap := l.cells[src]]);
    assert right.rows[j] == Row(dateOf(t.key), t.cells);
    assert MarketCap !in t.cells;
    assert r.key == dateOf(l.key) && r.key == dateOf(t.key);
    assert MarketCap in r.cells && r.cells[MarketCap] == l.cells[src];
  }

  /**
   * Two timestamps on the same calendar day meet in the merge: a stablecoin
   * row and a Treasury row whose truncated dates agree, with no value
   * missing, give a merged row on that date.
   */
  lemma LoadDataSameDay(marketCap: Table, treasury: Table, dateOf: int -> int, l: Row, t: Row)
    requires WellFormed(marketCap) && WellFormed(treasury)
    requires LoadData(marketCap, treasury, dateOf).Success?
    requires l in marketCap.rows && t in treasury.rows && dateOf(l.key) == dateOf(t.key)
    requires MarketCapSource(marketCap.columns).value in l.cells && l.cells[MarketCapSource(marketCap.columns).value].Some?
    requires forall c :: c in t.cells ==> t.cells[c].Some?
    ensures MergedRow(dateOf(l.key), l.cells[MarketCapSource(marketCap.columns).value], treasury.columns, t.cells)
      in LoadData(marketCap, treasury, dateOf).value.rows
  {
    var src := MarketCapSource(marketCap.columns).value;
    var i :| 0 <= i < |marketCap.rows| && marketCap.rows[i] == l;
    var j :| 0 <= j < |treasury.rows| && treasury.rows[j] == t;
    AlignedPair(marketCap, treasury, src, dateOf, i, j);
  }

  /** The row the merge emits for a market cap `v` and a Treasury row's cells on date `key`. */
  function MergedRow(key: int, v: Cell, treasuryCols: seq<string>, cells: map<string, Cell>): Row {
    Row(key, map[LeftName(treasuryCols) := v] + RightCells(treasuryCols, cells))
  }

  /** The merged row of stablecoin row i and Treasury row j on a shared date, kept when complete. */
  lemma AlignedPair(marketCap: Table, treasury: Table, src: string, dateOf: int -> int, i: int, j: int)
    requires WellFormed(marketCap) && WellFormed(treasury) && src in marketCap.columns
    requires 0 <= i < |marketCap.rows| && 0 <= j < |treasury.rows|
    requires dateOf(marketCap.rows[i].key) == dateOf(treasury.rows[j].key)
    requires src in marketCap.rows[i].cells && marketCap.rows[i].cells[src].Some?
    requires forall c :: c in treasury.rows[j].cells ==> treasury.rows[j].cells[c].Some?
    ensures MergedRow(dateOf(marketCap.rows[i].key), marketCap.rows[i].cells[src], treasury.columns, treasury.rows[j].cells)
      in DropNa(Aligned(marketCap, treasury, src, dateOf)).rows
  {
    var l, t := marketCap.rows[i], treasury.rows[j];
    AlignedMerges(marketCap, treasury, src, dateOf, i, j);
    assert t in treasury.rows;
    MergedRowComplete(dateOf(l.key), l.cells[src], treasury.columns, t.cells);
  }

  /** Rows i and j on a shared truncated date meet in the merge. */
  lemma AlignedMerges(marketCap: Table, treasury: Table, src: string, dateOf: int -> int, i: int, j: int)
    requires WellFormed(marketCap) && src in marketCap.columns
    requires 0 <= i < |marketCap.rows| && 0 <= j < |treasury.rows|
    requires dateOf(marketCap.rows[i].key) == dateOf(treasury.rows[j].key)
    requires src in marketCap.rows[i].cells
    ensures MergedRow(dateOf(marketCap.rows[i].key), marketCap.rows[i].cells[src], treasury.columns, treasury.rows[j].cells)
      in Aligned(marketCap, treasury, src, dateOf).rows
  {
  }

  /** A merged row whose market cap and Treasury cells are all present is kept by `dropna()`. */
  lemma MergedRowComplete(key: int, v: Cell, cols: seq<string>, cells: map<string, Cell>)
    requires cells.Keys == ColumnSet(cols) && forall c :: c in cells ==> cells[c].Some?
    requires v.Some?
    ensures CompleteOn(MergedRow(key, v, cols, cells), MergedColumns(cols))
  {
    var x := MergedRow(key, v, cols, cells);
    var right := RightCells(cols, cells);
    forall c | c in right ensures right[c].Some? {
      if Clash(cols) && c == MarketCap + RightSuffix && MarketCap in cells {
      } else {
        assert c in cells;
      }
    }
    forall c | c in MergedColumns(cols) ensures c in x.cells && x.cells[c].Some? {
      var k :| 0 <= k < |MergedColumns(cols)| && MergedColumns(cols)[k] == c;
      if k > 0 {
        assert cols[k - 1] in cells;
        if cols[k - 1] == MarketCap {
          assert c == MarketCap + RightSuffix;
        }
      }
    }
  }

  // ---------------------------------------------------------------------------
  // Lines 48-64: run_granger_tests
  // ---------------------------------------------------------------------------

  /** The `ssr_ftest` entry of one lag: F statistic and p-value. */
  datatype FTest = FTest(fStatistic: real, pValue: real)

  /** `grangercausalitytests` on a two-column table up to a maximum lag (library numerics). */
  type GrangerTest = (Table, nat) -> map<int, FTest>

  /** Every lag from 1 to the maximum has an entry. */
  predicate CoversLags(m: map<int, FTest>) {
    forall l :: 1 <= l <= MaxLag ==> l in m
  }

  /** The library's promise: a test up to lag 5 reports every lag 1..5. */
  ghost predicate ReportsAllLags(granger: GrangerTest) {
    forall t :: CoversLags(granger(t, MaxLag))
  }

  /** The two directions tested for one yield. */
  datatype GrangerPair = GrangerPair(yieldToMarketCap: map<int, FTest>, marketCapToYield: map<int, FTest>)

  /** The result dictionary: its keys in insertion order, and the entries. */
  datatype GrangerResults = GrangerResults(order: seq<string>, tests: map<string, GrangerPair>)

  /** The label pandas names when `df[[a, b]]` fails: the first one missing. */
  function FirstAbsent(a: string, b: string, cols: seq<string>): string {
    if a !in cols then a else b
  }

  /**
   * The pair of tests for one yield: `[market_cap, col]` (does the yield
   * help predict the market cap) and `[col, market_cap]` (the reverse).
   */
  function TestPair(df: Table, c: string, granger: GrangerTest): (p: GrangerPair)
    requires WellFormed(df) && MarketCap in df.columns && c in df.columns && c != MarketCap
    ensures ReportsAllLags(granger) ==> HasLagOne(p)
  {
    GrangerPair(granger(Project(df, [MarketCap, c]), MaxLag), granger(Project(df, [c, MarketCap]), MaxLag))
  }

  /** The two tables tested hold the same rows; only the column order is swapped. */
  lemma TestTablesSwapped(df: Table, c: string)
    requires WellFormed(df) && MarketCap in df.columns && c in df.columns && c != MarketCap
    ensures Project(df, [MarketCap, c]).columns == [MarketCap, c]
    ensures Project(df, [c, MarketCap]).columns == [c, MarketCap]
    ensures Project(df, [MarketCap, c]).rows == Project(df, [c, MarketCap]).rows
  {
    assert ColumnSet([MarketCap, c]) == ColumnSet([c, MarketCap]);
  }

  /**
   * `run_granger_tests`: one entry per yield, in order, each with both
   * directions at maximum lag 5; a missing column raises KeyError at the
   * first test that needs it.
   */
  method RunGrangerTests(df: Table, granger: GrangerTest) returns (res: Result<GrangerResults, TableError>)
    requires WellFormed(df)
    ensures res.Failure? <==> MarketCap !in df.columns || exists c :: c in GrangerYields && c !in df.columns
    ensures res.Failure? ==>
      && res.error.MissingColumn?
      && res.error.name !in df.columns
      && (res.error.name == MarketCap || res.error.name in GrangerYields)
    ensures res.Success? ==>
      && MarketCap in df.columns
      && (forall c :: c in GrangerYields ==> c in df.columns)
      && res.value.order == GrangerYields
      && res.value.tests.Keys == set c | c in GrangerYields
      && forall c :: c in GrangerYields ==> c in res.value.tests && res.value.tests[c] == TestPair(df, c, granger)
    ensures res.Success? && ReportsAllLags(granger) ==>
      Consistent(res.value) && forall c :: c in res.value.order ==> HasLagOne(res.value.tests[c])
  {
    var results: map<string, GrangerPair> := map[];
    var order: seq<string> := [];
    for k := 0 to |GrangerYields|
      invariant order == GrangerYields[..k]
      invariant MarketCap in df.columns || k == 0
      invariant forall c :: c in order ==> c in df.columns
      invariant results.Keys == set c | c in order
      invariant forall c :: c in order ==> results[c] == TestPair(df, c, granger)
    {
      var col := GrangerYields[k];
      if MarketCap !in df.columns || col !in df.columns {
        return Failure(MissingColumn(FirstAbsent(MarketCap, col, df.columns)));
      }
      var res1 := granger(Project(df, [MarketCap, col]), MaxLag);
      var res2 := granger(Project(df, [col, MarketCap]), MaxLag);
      results := results[col := GrangerPair(res1, res2)];
      order := order + [col];
      assert order == GrangerYields[..k + 1];
    }
    assert order == GrangerYields;
    return Success(GrangerResults(order, results));
  }

  // ---------------------------------------------------------------------------
  // Lines 133-141: the printed summary
  // ---------------------------------------------------------------------------

  /** The two F tests printed for one yield. */
  datatype SummaryLine = SummaryLine(column: string, yieldToMarketCap: FTest, marketCapToYield: FTest)

  /** `results[...][1]` raises KeyError when a test has no lag-1 entry. */
  datatype SummaryError = MissingLagOne(column: string)

  /** Every key of the insertion order has an entry, as for any dictionary. */
  predicate Consistent(results: GrangerResults) {
    forall c :: c in results.order ==> c in results.tests
  }

  predicate HasLagOne(p: GrangerPair) {
    1 in p.yieldToMarketCap && 1 in p.marketCapToYield
  }

  /**
   * The printing loop of `main`: for each yield in order, the lag-1 F test
   * of each direction (never the entry of the maximum lag).
   */
  method GrangerSummary(results: GrangerResults) returns (res: Result<seq<SummaryLine>, SummaryError>)
    requires Consistent(results)
    ensures res.Failure? <==> exists c :: c in results.order && !HasLagOne(results.tests[c])
    ensures res.Failure? ==> res.error.column in results.order && !HasLagOne(results.tests[res.error.column])
    ensures res.Success? ==> |res.value| == |results.order|
    ensures res.Success? ==> forall m :: 0 <= m < |results.order| ==>
      var p := results.tests[results.order[m]];
      HasLagOne(p) && res.value[m] == SummaryLine(results.order[m], p.yieldToMarketCap[1], p.marketCapToYield[1])
  {
    var lines: seq<SummaryLine> := [];
    for m := 0 to |results.order|
      invariant |lines| == m
      invariant forall j :: 0 <= j < m ==> HasLagOne(results.tests[results.order[j]])
      invariant forall j :: 0 <= j < m ==>
        var p := results.tests[results.order[j]];
        lines[j] == SummaryLine(results.order[j], p.yieldToMarketCap[1], p.marketCapToYield[1])
    {
      var col := results.order[m];
      var p := results.tests[col];
      if 1 !in p.yieldToMarketCap || 1 !in p.marketCapToYield {
        return Failure(MissingLagOne(col));
      }
      lines := lines + [SummaryLine(col, p.yieldToMarketCap[1], p.marketCapToYield[1])];
    }
    return Success(lines);
  }
}
