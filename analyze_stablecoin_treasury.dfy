/**
 * The analysis script: join the stablecoin table (sorted by date) with the
 * Treasury table on the date index, drop rows missing a key column, then
 * build the report from the columns that exist: 5- and 20-row lagged
 * correlations, 30-row rolling correlations and the DGS10 key finding.
 *
 * The Pearson coefficient itself is the parameter `corr`, applied to the
 * complete (x, y) pairs pandas would hand to it; only which rows are paired
 * and when a value is missing is modelled. The summary table and the
 * correlation matrix are kept as opaque report entries.
 */
module StablecoinTreasuryAnalysis {
  import opened Wrappers
  import opened Sequences
  import opened Tables

  const MarketCap := "circulating_supply_usd"

  /** The columns a row must have a value in to survive cleaning. */
  const KeyColumns: seq<string> := [MarketCap, "DGS10", "DGS3MO"]

  const ColsToDescribe: seq<string> :=
    [MarketCap, "DGS3MO", "DGS1", "DGS2", "DGS5", "DGS10", "DGS30", "10Y-2Y", "10Y-3M", "2Y-3M"]

  const ShortLag: nat := 5
  const LongLag: nat := 20
  const Window: nat := 30
  const Threshold: real := 0.2

  /** Pearson's coefficient of a non-empty list of complete pairs (library numerics). */
  type Correlator = seq<(real, real)> -> Option<real>

  // ---------------------------------------------------------------------------
  // Lines 26-39: sort, join, clean
  // ---------------------------------------------------------------------------

  /** `set_index("date").sort_index()` on the stablecoin table. */
  function SortedStable(stable: Table): (t: Table)
    ensures t.columns == stable.columns
    ensures SortedBy(t.rows, RowKey) && multiset(t.rows) == multiset(stable.rows)
  {
    Table(stable.columns, SortBy(stable.rows, RowKey))
  }

  /** The joined table with rows missing a key column removed; pandas' KeyError and overlap errors become failures. */
  function Cleaned(stable: Table, treasury: Table): (res: Result<Table, TableError>)
    ensures res.Success? ==> res.value.columns == stable.columns + treasury.columns
    ensures res.Success? ==> forall r :: r in res.value.rows ==> CompleteOn(r, KeyColumns)
  {
    match Join(SortedStable(stable), treasury)
    case Failure(e) => Failure(e)
    case Success(joined) => DropNaSubset(joined, KeyColumns)
  }

  /** The script stops exactly when the column names collide or a key column is absent from both tables. */
  lemma CleanedFails(stable: Table, treasury: Table)
    ensures Cleaned(stable, treasury).Failure? <==>
      !Disjoint(stable.columns, treasury.columns)
      || exists c :: c in KeyColumns && c !in stable.columns + treasury.columns
    ensures Cleaned(stable, treasury).Success? ==> Cleaned(stable, treasury).value.columns == stable.columns + treasury.columns
  {
  }

  /** Every row of the cleaned table has a date present in both inputs and values in all key columns. */
  lemma CleanedRows(stable: Table, treasury: Table)
    requires Cleaned(stable, treasury).Success?
    ensures forall r :: r in Cleaned(stable, treasury).value.rows ==>
      r.key in Keys(stable) && r.key in Keys(treasury) && CompleteOn(r, KeyColumns)
  {
    var sorted := SortedStable(stable);
    JoinKeysInBoth(sorted.rows, treasury.rows);
    SortByMembers(stable.rows, RowKey);
    forall r | r in Cleaned(stable, treasury).value.rows
      ensures r.key in Keys(stable) && r.key in Keys(treasury)
    {
      assert r in JoinRows(sorted.rows, treasury.rows);
      assert r.key in KeySet(JoinRows(sorted.rows, treasury.rows), RowKey);
      var x :| x in sorted.rows && x.key == r.key;
    }
  }

  /** The join keeps the order of the sorted stablecoin side, so the cleaned rows are in ascending date order. */
  lemma CleanedSorted(stable: Table, treasury: Table)
    requires Cleaned(stable, treasury).Success?
    ensures SortedBy(Cleaned(stable, treasury).value.rows, RowKey)
  {
    var sorted := SortedStable(stable);
    JoinRowsSorted(sorted.rows, treasury.rows);
    FilterSorted(JoinRows(sorted.rows, treasury.rows), (r: Row) => CompleteOn(r, KeyColumns), RowKey);
  }

  /**
   * Only the key columns decide: every matching pair with values in the key
   * columns is kept, whatever other columns (DGS30, spreads) it lacks.
   */
  lemma CleanedKeepsOtherGaps(stable: Table, treasury: Table)
    requires Cleaned(stable, treasury).Success?
    ensures forall l, r :: l in stable.rows && r in treasury.rows && l.key == r.key && CompleteOn(Merge(l, r), KeyColumns) ==>
      Merge(l, r) in Cleaned(stable, treasury).value.rows
  {
    var sorted := SortedStable(stable);
    SortByMembers(stable.rows, RowKey);
    forall l, r | l in stable.rows && r in treasury.rows && l.key == r.key && CompleteOn(Merge(l, r), KeyColumns)
      ensures Merge(l, r) in Cleaned(stable, treasury).value.rows
    {
      var i :| 0 <= i < |sorted.rows| && sorted.rows[i] == l;
      var j :| 0 <= j < |treasury.rows| && treasury.rows[j] == r;
      assert Merge(sorted.rows[i], treasury.rows[j]) in JoinRows(sorted.rows, treasury.rows);
    }
  }

  // ---------------------------------------------------------------------------
  // Lines 45-49: the columns that exist
  // ---------------------------------------------------------------------------

  function ExistingColumns(cols: seq<string>): (e: seq<string>)
    ensures forall c :: c in e <==> c in ColsToDescribe && c in cols
  {
    Filter(ColsToDescribe, (c: string) => c in cols)
  }

  /**
   * `existing_cols` lists the described columns the table has, in the order
   * of `cols_to_describe`; with the market cap present it comes first.
   */
  lemma ExistingColumnsOrder(cols: seq<string>) returns (idx: seq<nat>)
    ensures Embeds(idx, ExistingColumns(cols), ColsToDescribe)
    ensures MarketCap in cols ==> |ExistingColumns(cols)| > 0 && ExistingColumns(cols)[0] == MarketCap
  {
    idx := FilterEmbedding(ColsToDescribe, (c: string) => c in cols);
  }

  /** With the key columns present, the market cap leads `existing_cols` and DGS10 and DGS3MO follow it. */
  lemma ExistingKeyColumns(cols: seq<string>)
    requires forall c :: c in KeyColumns ==> c in cols
    ensures var e := ExistingColumns(cols);
      |e| > 0 && e[0] == MarketCap && "DGS10" in e[1..] && "DGS3MO" in e[1..]
  {
    var e := ExistingColumns(cols);
    assert |e| > 0 && e[0] == MarketCap by {
      var _ := ExistingColumnsOrder(cols);
    }
    assert "DGS10" in e && "DGS3MO" in e by {
      assert "DGS10" in ColsToDescribe && "DGS3MO" in ColsToDescribe;
      assert "DGS10" in cols && "DGS3MO" in cols;
    }
    assert e == [e[0]] + e[1..];
  }

  /** After cleaning, the market cap leads `existing_cols`, and DGS10 and DGS3MO are among the rest. */
  lemma CleanedExistingColumns(stable: Table, treasury: Table)
    requires Cleaned(stable, treasury).Success?
    ensures var e := ExistingColumns(Cleaned(stable, treasury).value.columns);
      |e| > 0 && e[0] == MarketCap && "DGS10" in e[1..] && "DGS3MO" in e[1..]
  {
    CleanedFails(stable, treasury);
    ExistingKeyColumns(Cleaned(stable, treasury).value.columns);
  }

  // ---------------------------------------------------------------------------
  // Lines 63 and 65: lagged correlation
  // ---------------------------------------------------------------------------

  /** `shift(k)`: k missing values in front, the last k values dropped. */
  function Shift(xs: seq<Cell>, k: nat): (r: seq<Cell>)
    ensures |r| == |xs|
    ensures forall i :: 0 <= i < |r| ==> r[i] == if i < k then None else xs[i - k]
  {
    if k >= |xs| then seq(|xs|, _ => None)
    else seq(k, _ => None) + xs[..|xs| - k]
  }

  predicate BothPresent(xs: seq<Cell>, ys: seq<Cell>, i: int) {
    0 <= i < |xs| && 0 <= i < |ys| && xs[i].Some? && ys[i].Some?
  }

  /** The rows pandas pairs when correlating two aligned columns: both values present. */
  function PairedIndices(xs: seq<Cell>, ys: seq<Cell>): (idx: seq<int>)
    ensures forall i :: i in idx <==> BothPresent(xs, ys, i)
    ensures forall a, b :: 0 <= a < b < |idx| ==> idx[a] < idx[b]
  {
    assert StrictlySortedBy(Range(0, |xs|), (i: int) => i);
    FilterStrictlySorted(Range(0, |xs|), (i: int) => BothPresent(xs, ys, i), (i: int) => i);
    Filter(Range(0, |xs|), (i: int) => BothPresent(xs, ys, i))
  }

  /** The complete pairs, in row order. */
  function CompletePairs(xs: seq<Cell>, ys: seq<Cell>): (pairs: seq<(real, real)>)
    ensures |pairs| == |PairedIndices(xs, ys)|
    ensures forall m :: 0 <= m < |pairs| ==>
      BothPresent(xs, ys, PairedIndices(xs, ys)[m])
      && pairs[m] == (xs[PairedIndices(xs, ys)[m]].value, ys[PairedIndices(xs, ys)[m]].value)
  {
    var idx := PairedIndices(xs, ys);
    assert forall m :: 0 <= m < |idx| ==> idx[m] in idx;
    seq(|idx|, m requires 0 <= m < |idx| && BothPresent(xs, ys, idx[m]) => (xs[idx[m]].value, ys[idx[m]].value))
  }

  /** `Series.corr`: missing when no row has both values (at least one pair is required). */
  function SeriesCorrelation(xs: seq<Cell>, ys: seq<Cell>, corr: Correlator): (r: Option<real>)
    ensures (exists i :: BothPresent(xs, ys, i)) ==> r == corr(CompletePairs(xs, ys))
    ensures (forall i :: !BothPresent(xs, ys, i)) ==> r == None
  {
    var pairs := CompletePairs(xs, ys);
    if |pairs| == 0 then None
    else
      assert PairedIndices(xs, ys)[0] in PairedIndices(xs, ys);
      corr(pairs)
  }

  /** `xs.corr(ys.shift(k))`: missing when the shift leaves no row with both values. */
  function LagCorrelation(xs: seq<Cell>, ys: seq<Cell>, k: nat, corr: Correlator): (r: Option<real>)
    ensures |ys| <= k ==> r == None
    ensures r.Some? ==> exists i :: k <= i < |xs| && i < |ys| && xs[i].Some? && ys[i - k].Some?
  {
    SeriesCorrelation(xs, Shift(ys, k), corr)
  }

  /**
   * Lag k pairs the value at row i with the other column at row i - k:
   * exactly the rows i >= k where both of those values are present, in row
   * order.
   */
  lemma LagPairedRows(xs: seq<Cell>, ys: seq<Cell>, k: nat)
    requires |xs| == |ys|
    ensures var idx := PairedIndices(xs, Shift(ys, k));
      && (forall i :: i in idx <==> k <= i < |xs| && xs[i].Some? && ys[i - k].Some?)
      && (forall m :: 0 <= m < |idx| ==>
            k <= idx[m] && CompletePairs(xs, Shift(ys, k))[m] == (xs[idx[m]].value, ys[idx[m] - k].value))
  {
    var sh := Shift(ys, k);
    var idx := PairedIndices(xs, sh);
    forall m | 0 <= m < |idx| ensures 0 <= idx[m] < |xs| && k <= idx[m] && sh[idx[m]] == ys[idx[m] - k] {
      assert idx[m] in idx;
    }
  }

  /**
   * Rows 0..k-1 contribute no pair, so at most n - k pairs are used (none
   * when k >= n), and exactly n - k when no value is missing.
   */
  lemma LagPairCount(xs: seq<Cell>, ys: seq<Cell>, k: nat)
    requires |xs| == |ys|
    ensures var idx := PairedIndices(xs, Shift(ys, k));
      && (k <= |xs| ==> |idx| <= |xs| - k)
      && (k >= |xs| ==> idx == [])
      && (k <= |xs| && (forall i :: 0 <= i < |xs| ==> xs[i].Some? && ys[i].Some?) ==> |idx| == |xs| - k)
  {
    var n := |xs|;
    var sh := Shift(ys, k);
    var p := (i: int) => BothPresent(xs, sh, i);
    var cut := if k <= n then k else n;
    var back := Range(cut, n);
    assert PairedIndices(xs, sh) == Filter(Range(0, n), p);
    FilterSkipsPrefix(n, cut, p);
    if forall i :: 0 <= i < n ==> xs[i].Some? && ys[i].Some? {
      assert Filter(back, p) == back by {
        assert forall x :: x in back ==> p(x);
        FilterAll(back, p);
      }
    }
  }

  // ---------------------------------------------------------------------------
  // Lines 70-73: rolling correlation
  // ---------------------------------------------------------------------------

  /** Entry i of `rolling(window).corr`: rows i-window+1..i, defined only when all of them are complete. */
  function RollingAt(xs: seq<Cell>, ys: seq<Cell>, i: nat, window: nat, corr: Correlator): (r: Option<real>)
    requires |xs| == |ys| && i < |xs| && 0 < window
    ensures r.Some? ==> window <= i + 1 && forall j :: i + 1 - window <= j <= i ==> xs[j].Some? && ys[j].Some?
  {
    if i + 1 < window then None
    else
      var pairs := CompletePairs(xs[i + 1 - window..i + 1], ys[i + 1 - window..i + 1]);
      if |pairs| < window then None
      else
        WindowComplete(xs, ys, i + 1 - window, i + 1);
        corr(pairs)
  }

  /** A slice with as many complete pairs as rows has both values in every row. */
  lemma WindowComplete(xs: seq<Cell>, ys: seq<Cell>, lo: nat, hi: nat)
    requires |xs| == |ys| && lo <= hi <= |xs|
    requires |CompletePairs(xs[lo..hi], ys[lo..hi])| >= hi - lo
    ensures forall j :: lo <= j < hi ==> xs[j].Some? && ys[j].Some?
  {
    var wx, wy := xs[lo..hi], ys[lo..hi];
    FullyPaired(wx, wy);
    forall j | lo <= j < hi ensures xs[j].Some? && ys[j].Some? {
      assert wx[j - lo] == xs[j] && wy[j - lo] == ys[j];
    }
  }

  function RollingCorrelation(xs: seq<Cell>, ys: seq<Cell>, window: nat, corr: Correlator): (r: seq<Option<real>>)
    requires |xs| == |ys| && 0 < window
    ensures |r| == |xs|
  {
    seq(|xs|, i requires 0 <= i < |xs| => RollingAt(xs, ys, i, window, corr))
  }

  /** The first window-1 entries are missing. */
  lemma RollingWarmUp(xs: seq<Cell>, ys: seq<Cell>, window: nat, corr: Correlator)
    requires |xs| == |ys| && 0 < window
    ensures forall i :: 0 <= i < |xs| && i + 1 < window ==> RollingCorrelation(xs, ys, window, corr)[i] == None
  {
  }

  /** An entry is defined only if every row of its window has both values. */
  lemma RollingNeedsFullWindow(xs: seq<Cell>, ys: seq<Cell>, window: nat, corr: Correlator, i: nat)
    requires |xs| == |ys| && 0 < window && i < |xs|
    requires RollingCorrelation(xs, ys, window, corr)[i].Some?
    ensures window <= i + 1
    ensures forall j :: i + 1 - window <= j <= i ==> xs[j].Some? && ys[j].Some?
  {
    assert RollingCorrelation(xs, ys, window, corr)[i] == RollingAt(xs, ys, i, window, corr);
  }

  /** If every row is paired, no value is missing. */
  lemma FullyPaired(xs: seq<Cell>, ys: seq<Cell>)
    requires |xs| == |ys| && |CompletePairs(xs, ys)| >= |xs|
    ensures forall j :: 0 <= j < |xs| ==> xs[j].Some? && ys[j].Some?
  {
    var p := (j: int) => BothPresent(xs, ys, j);
    assert PairedIndices(xs, ys) == Filter(Range(0, |xs|), p);
    FilterFull(Range(0, |xs|), p);
    forall j | 0 <= j < |xs| ensures xs[j].Some? && ys[j].Some? {
      assert j in Range(0, |xs|);
      assert p(j);
    }
  }

  /** With a complete window, entry i is `corr` of exactly rows i-window+1..i, in order. */
  lemma RollingUsesWindow(xs: seq<Cell>, ys: seq<Cell>, window: nat, corr: Correlator, i: nat)
    requires |xs| == |ys| && 0 < window && window <= i + 1 < |xs| + 1
    requires forall j :: i + 1 - window <= j <= i ==> xs[j].Some? && ys[j].Some?
    ensures RollingCorrelation(xs, ys, window, corr)[i]
      == corr(seq(window, m requires 0 <= m < window => (xs[i + 1 - window + m].value, ys[i + 1 - window + m].value)))
  {
    WindowPairs(xs, ys, i + 1 - window, i + 1);
    assert RollingCorrelation(xs, ys, window, corr)[i] == RollingAt(xs, ys, i, window, corr);
  }

  /** A window with no missing value pairs its rows one by one, in order. */
  lemma WindowPairs(xs: seq<Cell>, ys: seq<Cell>, lo: nat, hi: nat)
    requires |xs| == |ys| && lo <= hi <= |xs|
    requires forall j :: lo <= j < hi ==> xs[j].Some? && ys[j].Some?
    ensures CompletePairs(xs[lo..hi], ys[lo..hi])
      == seq(hi - lo, m requires 0 <= m < hi - lo => (xs[lo + m].value, ys[lo + m].value))
  {
    var wx, wy := xs[lo..hi], ys[lo..hi];
    forall j | 0 <= j < |wx| ensures wx[j].Some? && wy[j].Some? {
      assert wx[j] == xs[lo + j] && wy[j] == ys[lo + j];
    }
    AllPresentPairs(wx, wy);
    SliceValues(xs, ys, lo, hi, CompletePairs(wx, wy));
  }

  /** Values read off a slice are the values at the shifted rows. */
  lemma SliceValues(xs: seq<Cell>, ys: seq<Cell>, lo: nat, hi: nat, p: seq<(real, real)>)
    requires |xs| == |ys| && lo <= hi <= |xs|
    requires forall j :: lo <= j < hi ==> xs[j].Some? && ys[j].Some?
    requires |p| == hi - lo
    requires forall m :: 0 <= m < hi - lo ==> p[m] == (xs[lo..hi][m].value, ys[lo..hi][m].value)
    ensures p == seq(hi - lo, m requires 0 <= m < hi - lo => (xs[lo + m].value, ys[lo + m].value))
  {
    forall m | 0 <= m < hi - lo ensures p[m] == (xs[lo + m].value, ys[lo + m].value) {
      assert xs[lo..hi][m] == xs[lo + m] && ys[lo..hi][m] == ys[lo + m];
    }
  }

  /** When no value is missing every row is paired, in order. */
  lemma AllPresentPairs(xs: seq<Cell>, ys: seq<Cell>)
    requires |xs| == |ys| && forall j :: 0 <= j < |xs| ==> xs[j].Some? && ys[j].Some?
    ensures |CompletePairs(xs, ys)| == |xs|
    ensures forall m :: 0 <= m < |xs| ==> CompletePairs(xs, ys)[m] == (xs[m].value, ys[m].value)
  {
    var p := (j: int) => BothPresent(xs, ys, j);
    assert forall x :: x in Range(0, |xs|) ==> p(x);
    FilterAll(Range(0, |xs|), p);
    var idx := PairedIndices(xs, ys);
    assert idx == Range(0, |xs|);
  }

  // ---------------------------------------------------------------------------
  // Lines 141-147: the key finding
  // ---------------------------------------------------------------------------

  datatype Strength = Negative | Positive | LittleToNone

  /** The three-way reading of the headline coefficient; a missing coefficient reads as little to none. */
  function Classify(c: Option<real>): (s: Strength)
    ensures s == Negative <==> c.Some? && c.value < -Threshold
    ensures s == Positive <==> c.Some? && c.value > Threshold
    ensures s == LittleToNone <==> c.None? || -Threshold <= c.value <= Threshold
  {
    match c
    case None => LittleToNone
    case Some(v) => if v < -Threshold then Negative else if v > Threshold then Positive else LittleToNone
  }

  // ---------------------------------------------------------------------------
  // The report
  // ---------------------------------------------------------------------------

  datatype ReportLine =
    | SummaryHeading
    | SummaryTable(columns: seq<string>)
    | MatrixHeading
    | MatrixTable(columns: seq<string>)
    | LagHeading
    | LagLine(lag: nat, column: string, value: Option<real>)
    | RollingHeading(window: nat)
    | RollingSaved(column: string)
    | Finding(strength: Strength)
    | Blank

  function MarketCapColumn(df: Table): seq<Cell>
    requires WellFormed(df) && MarketCap in df.columns
  {
    Column(df, MarketCap)
  }

  /** The two lines reported for one column: its 5-row and 20-row lagged correlation with the market cap. */
  function LagPair(df: Table, c: string, corr: Correlator): seq<ReportLine>
    requires WellFormed(df) && MarketCap in df.columns && c in df.columns
  {
    [LagLine(ShortLag, c, LagCorrelation(MarketCapColumn(df), Column(df, c), ShortLag, corr)),
     LagLine(LongLag, c, LagCorrelation(MarketCapColumn(df), Column(df, c), LongLag, corr))]
  }

  function LagLines(df: Table, cols: seq<string>, corr: Correlator): seq<ReportLine>
    requires WellFormed(df) && MarketCap in df.columns && forall c :: c in cols ==> c in df.columns
  {
    if cols == [] then [] else LagLines(df, cols[..|cols| - 1], corr) + LagPair(df, cols[|cols| - 1], corr)
  }

  /** Exactly two lines per column. */
  lemma {:induction false} LagLinesLength(df: Table, cols: seq<string>, corr: Correlator)
    requires WellFormed(df) && MarketCap in df.columns && forall c :: c in cols ==> c in df.columns
    ensures |LagLines(df, cols, corr)| == 2 * |cols|
  {
    if cols != [] {
      LagLinesLength(df, cols[..|cols| - 1], corr);
    }
  }

  /** Lines 2m and 2m+1 are the 5-row and the 20-row line of column m. */
  lemma {:induction false} LagLinesAt(df: Table, cols: seq<string>, corr: Correlator, m: nat)
    requires WellFormed(df) && MarketCap in df.columns && forall c :: c in cols ==> c in df.columns
    requires m < |cols|
    ensures 2 * m + 1 < |LagLines(df, cols, corr)|
    ensures LagLines(df, cols, corr)[2 * m] == LagPair(df, cols[m], corr)[0]
    ensures LagLines(df, cols, corr)[2 * m + 1] == LagPair(df, cols[m], corr)[1]
  {
    var init, last := cols[..|cols| - 1], cols[|cols| - 1];
    assert forall c :: c in init ==> c in cols;
    LagLinesLength(df, init, corr);
    var prev, pair := LagLines(df, init, corr), LagPair(df, last, corr);
    assert LagLines(df, cols, corr) == prev + pair;
    if m < |init| {
      LagLinesAt(df, init, corr, m);
      assert init[m] == cols[m];
      assert LagPair(df, init[m], corr) == LagPair(df, cols[m], corr);
      assert (prev + pair)[2 * m] == prev[2 * m] && (prev + pair)[2 * m + 1] == prev[2 * m + 1];
    } else {
      assert cols[m] == last;
      assert LagPair(df, cols[m], corr) == pair;
      assert (prev + pair)[2 * m] == pair[0] && (prev + pair)[2 * m + 1] == pair[1];
    }
  }

  /** Exactly two lines per column, the 5-row one first, in column order. */
  lemma LagLinesShape(df: Table, cols: seq<string>, corr: Correlator)
    requires WellFormed(df) && MarketCap in df.columns && forall c :: c in cols ==> c in df.columns
    ensures |LagLines(df, cols, corr)| == 2 * |cols|
    ensures forall m :: 0 <= m < |cols| ==>
      LagLines(df, cols, corr)[2 * m] == LagPair(df, cols[m], corr)[0]
      && LagLines(df, cols, corr)[2 * m + 1] == LagPair(df, cols[m], corr)[1]
  {
    LagLinesLength(df, cols, corr);
    forall m | 0 <= m < |cols|
      ensures LagLines(df, cols, corr)[2 * m] == LagPair(df, cols[m], corr)[0]
      ensures LagLines(df, cols, corr)[2 * m + 1] == LagPair(df, cols[m], corr)[1]
    {
      LagLinesAt(df, cols, corr, m);
    }
  }

  /** Lines 61-67: the lag section, built by appending two lines per column. */
  method LagReport(df: Table, cols: seq<string>, corr: Correlator) returns (lines: seq<ReportLine>)
    requires WellFormed(df) && MarketCap in df.columns && forall c :: c in cols ==> c in df.columns
    ensures lines == LagLines(df, cols, corr)
  {
    lines := [];
    for m := 0 to |cols|
      invariant lines == LagLines(df, cols[..m], corr)
    {
      assert cols[..m + 1][..m] == cols[..m];
      var c := cols[m];
      var lagCorr := LagCorrelation(MarketCapColumn(df), Column(df, c), ShortLag, corr);
      lines := lines + [LagLine(ShortLag, c, lagCorr)];
      var lagCorr20 := LagCorrelation(MarketCapColumn(df), Column(df, c), LongLag, corr);
      lines := lines + [LagLine(LongLag, c, lagCorr20)];
    }
    assert cols[..|cols|] == cols;
  }

  /**
   * Lines 69-82: one rolling series per column (it goes to a plot) and one
   * report line per column, in column order.
   */
  method RollingReport(df: Table, cols: seq<string>, corr: Correlator) returns (lines: seq<ReportLine>, series: seq<seq<Option<real>>>)
    requires WellFormed(df) && MarketCap in df.columns && forall c :: c in cols ==> c in df.columns
    ensures |lines| == |cols| && |series| == |cols|
    ensures forall m :: 0 <= m < |cols| ==> lines[m] == RollingSaved(cols[m])
    ensures forall m :: 0 <= m < |cols| ==>
      series[m] == RollingCorrelation(MarketCapColumn(df), Column(df, cols[m]), Window, corr)
      && |series[m]| == |df.rows|
  {
    lines, series := [], [];
    for m := 0 to |cols|
      invariant |lines| == m && |series| == m
      invariant forall j :: 0 <= j < m ==> lines[j] == RollingSaved(cols[j])
      invariant forall j :: 0 <= j < m ==> series[j] == RollingCorrelation(MarketCapColumn(df), Column(df, cols[j]), Window, corr)
    {
      var rolling := RollingCorrelation(MarketCapColumn(df), Column(df, cols[m]), Window, corr);
      series := series + [rolling];
      lines := lines + [RollingSaved(cols[m])];
    }
  }

  /** Lines 140-147: one finding about DGS10 when the table has that column, none otherwise. */
  function KeyFinding(df: Table, corr: Correlator): (lines: seq<ReportLine>)
    requires WellFormed(df) && MarketCap in df.columns
    ensures |lines| == if "DGS10" in df.columns then 1 else 0
    ensures forall k :: 0 <= k < |lines| ==> lines[k].Finding?
  {
    if "DGS10" in df.columns then [Finding(Classify(SeriesCorrelation(MarketCapColumn(df), Column(df, "DGS10"), corr)))]
    else []
  }

  /** The columns after the market cap in `existing_cols`. */
  function Others(df: Table): seq<string> {
    var e := ExistingColumns(df.columns);
    if e == [] then [] else e[1..]
  }

  /** The summary and correlation-matrix sections and the lag heading. */
  function Preamble(e: seq<string>): seq<ReportLine> {
    [SummaryHeading, SummaryTable(e), Blank, MatrixHeading, MatrixTable(e), Blank, LagHeading]
  }

  function RollingLines(cols: seq<string>): seq<ReportLine> {
    seq(|cols|, m requires 0 <= m < |cols| => RollingSaved(cols[m]))
  }

  /** Everything the script appends before the key finding. */
  function ReportBody(df: Table, corr: Correlator): (lines: seq<ReportLine>)
    requires WellFormed(df) && MarketCap in df.columns
    ensures |lines| == 10 + 3 * |Others(df)|
  {
    LagLinesLength(df, Others(df), corr);
    Preamble(ExistingColumns(df.columns)) + LagLines(df, Others(df), corr)
      + [Blank, RollingHeading(Window)] + RollingLines(Others(df)) + [Blank]
  }

  /** The whole report, section by section. */
  function Report(df: Table, corr: Correlator): (lines: seq<ReportLine>)
    requires WellFormed(df) && MarketCap in df.columns
    ensures |lines| == |ReportBody(df, corr)| + (if "DGS10" in df.columns then 1 else 0)
    ensures "DGS10" in df.columns ==>
      lines[|lines| - 1] == Finding(Classify(SeriesCorrelation(MarketCapColumn(df), Column(df, "DGS10"), corr)))
  {
    ReportBody(df, corr) + KeyFinding(df, corr)
  }

  lemma {:induction false} LagLinesNoFinding(df: Table, cols: seq<string>, corr: Correlator)
    requires WellFormed(df) && MarketCap in df.columns && forall c :: c in cols ==> c in df.columns
    ensures forall k :: 0 <= k < |LagLines(df, cols, corr)| ==> LagLines(df, cols, corr)[k].LagLine?
  {
    if cols != [] {
      LagLinesNoFinding(df, cols[..|cols| - 1], corr);
    }
  }

  /** No line of `lines` is a finding. */
  predicate NoFinding(lines: seq<ReportLine>) {
    forall k :: 0 <= k < |lines| ==> !lines[k].Finding?
  }

  lemma NoFindingConcat(a: seq<ReportLine>, b: seq<ReportLine>)
    requires NoFinding(a) && NoFinding(b)
    ensures NoFinding(a + b)
  {
    forall k | 0 <= k < |a + b| ensures !(a + b)[k].Finding? {
      if k < |a| {
        assert (a + b)[k] == a[k];
      } else {
        assert (a + b)[k] == b[k - |a|];
      }
    }
  }

  /** The fixed sections hold no finding, whatever the lag lines are, as long as those hold none. */
  lemma SectionsNoFinding(e: seq<string>, lag: seq<ReportLine>, others: seq<string>)
    requires NoFinding(lag)
    ensures NoFinding(Preamble(e) + lag + [Blank, RollingHeading(Window)] + RollingLines(others) + [Blank])
  {
    var pre, mid, roll := Preamble(e), [Blank, RollingHeading(Window)], RollingLines(others);
    assert NoFinding(pre) && NoFinding(mid) && NoFinding(roll) && NoFinding([Blank]);
    NoFindingConcat(pre, lag);
    NoFindingConcat(pre + lag, mid);
    NoFindingConcat(pre + lag + mid, roll);
    NoFindingConcat(pre + lag + mid + roll, [Blank]);
  }

  /** No line before the key finding is a finding. */
  lemma ReportBodyNoFinding(df: Table, corr: Correlator)
    requires WellFormed(df) && MarketCap in df.columns
    ensures NoFinding(ReportBody(df, corr))
  {
    LagLinesNoFinding(df, Others(df), corr);
    SectionsNoFinding(ExistingColumns(df.columns), LagLines(df, Others(df), corr), Others(df));
  }

  /**
   * For a cleaned table the report ends with exactly one finding, the
   * classification of the market cap's correlation with DGS10, and no
   * other line is a finding.
   */
  lemma ReportFinding(stable: Table, treasury: Table, corr: Correlator)
    requires WellFormed(stable) && WellFormed(treasury) && Cleaned(stable, treasury).Success?
    ensures var df := Cleaned(stable, treasury).value;
      WellFormed(df) && MarketCap in df.columns && "DGS10" in df.columns
      && var lines := Report(df, corr);
      && |lines| > 0
      && lines[|lines| - 1] == Finding(Classify(SeriesCorrelation(MarketCapColumn(df), Column(df, "DGS10"), corr)))
      && forall k :: 0 <= k < |lines| - 1 ==> !lines[k].Finding?
  {
    var df := Cleaned(stable, treasury).value;
    CleanedFails(stable, treasury);
    CleanedWellFormed(stable, treasury);
    ReportBodyNoFinding(df, corr);
    var body := ReportBody(df, corr);
    var lines := Report(df, corr);
    assert |KeyFinding(df, corr)| == 1;
    forall k | 0 <= k < |lines| - 1 ensures !lines[k].Finding? {
      assert lines[k] == body[k];
    }
  }

  /** A cleaned table of well-formed inputs is well-formed. */
  lemma CleanedWellFormed(stable: Table, treasury: Table)
    requires WellFormed(stable) && WellFormed(treasury) && Cleaned(stable, treasury).Success?
    ensures WellFormed(Cleaned(stable, treasury).value)
  {
    var sorted := SortedStable(stable);
    SortByMembers(stable.rows, RowKey);
    assert WellFormed(sorted);
    JoinWellFormed(sorted, treasury);
    DropNaWellFormed(Table(sorted.columns + treasury.columns, JoinRows(sorted.rows, treasury.rows)), KeyColumns);
  }

  /** Lines 42-147: the report lines, appended section by section, and the rolling series plotted. */
  method Analyze(df: Table, corr: Correlator) returns (lines: seq<ReportLine>, rolling: seq<seq<Option<real>>>)
    requires WellFormed(df) && MarketCap in df.columns
    ensures lines == Report(df, corr)
    ensures |rolling| == |Others(df)|
    ensures forall m :: 0 <= m < |rolling| ==>
      rolling[m] == RollingCorrelation(MarketCapColumn(df), Column(df, Others(df)[m]), Window, corr)
  {
    var existing := ExistingColumns(df.columns);
    lines := Preamble(existing);
    var rest := Others(df);
    var lagLines := LagReport(df, rest, corr);
    lines := lines + lagLines + [Blank, RollingHeading(Window)];
    var rollingLines;
    rollingLines, rolling := RollingReport(df, rest, corr);
    assert rollingLines == RollingLines(rest);
    lines := lines + rollingLines + [Blank];
    lines := lines + KeyFinding(df, corr);
  }

  /**
   * The script from the loaded tables to the report: cleaning fails as
   * pandas would, otherwise the report of the cleaned table.
   */
  method RunAnalysis(stable: Table, treasury: Table, corr: Correlator)
    returns (res: Result<seq<ReportLine>, TableError>)
    requires WellFormed(stable) && WellFormed(treasury)
    ensures res.Failure? <==> Cleaned(stable, treasury).Failure?
    ensures res.Success? ==>
      && WellFormed(Cleaned(stable, treasury).value)
      && MarketCap in Cleaned(stable, treasury).value.columns
      && res.value == Report(Cleaned(stable, treasury).value, corr)
  {
    var cleaned := Cleaned(stable, treasury);
    if cleaned.Failure? {
      return Failure(cleaned.error);
    }
    var df := cleaned.value;
    CleanedFails(stable, treasury);
    CleanedWellFormed(stable, treasury);
    var lines, _ := Analyze(df, corr);
    return Success(lines);
  }
}
