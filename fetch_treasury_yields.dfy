/**
 * The derived column of the Treasury yield script: `spread = DGS3 - DGS1`,
 * assigned in place on the fetched yield table. A missing operand on a date
 * gives a missing spread on that date.
 */
module TreasurySpread {
  import opened Wrappers
  import opened Tables

  const SpreadColumn := "spread"

  /** Element-wise `a - b` with NaN propagation. */
  function Spread(a: Cell, b: Cell): (s: Cell)
    ensures s.Some? <==> a.Some? && b.Some?
    ensures s.Some? ==> s.value + b.value == a.value
  {
    if a.Some? && b.Some? then Some(a.value - b.value) else None
  }

  /** The column list after assigning `spread`: appended unless it already exists. */
  function WithColumn(cols: seq<string>, c: string): seq<string> {
    if c in cols then cols else cols + [c]
  }

  /** The row after assigning its spread cell. */
  function SpreadRow(r: Row): Row
    requires "DGS3" in r.cells && "DGS1" in r.cells
  {
    Row(r.key, r.cells[SpreadColumn := Spread(r.cells["DGS3"], r.cells["DGS1"])])
  }

  /** The table after `yields["spread"] = yields["DGS3"] - yields["DGS1"]`. */
  function WithSpread(t: Table): (u: Table)
    requires WellFormed(t) && "DGS3" in t.columns && "DGS1" in t.columns
    ensures |u.rows| == |t.rows| && forall i :: 0 <= i < |u.rows| ==> u.rows[i].key == t.rows[i].key
    ensures ColumnSet(u.columns) == ColumnSet(t.columns) + {SpreadColumn}
  {
    WithColumnDistinct(t.columns);
    Table(WithColumn(t.columns, SpreadColumn),
          seq(|t.rows|, i requires 0 <= i < |t.rows| && "DGS3" in t.rows[i].cells && "DGS1" in t.rows[i].cells =>
            SpreadRow(t.rows[i])))
  }

  /** The new column list has no duplicates and names the old columns and `spread`. */
  lemma WithColumnDistinct(cols: seq<string>)
    requires DistinctColumns(cols)
    ensures DistinctColumns(WithColumn(cols, SpreadColumn))
    ensures ColumnSet(WithColumn(cols, SpreadColumn)) == ColumnSet(cols) + {SpreadColumn}
  {
    var u := WithColumn(cols, SpreadColumn);
    if SpreadColumn !in cols {
      forall a, b | 0 <= a < b < |u| ensures u[a] != u[b] {
        if b == |cols| {
          assert u[a] in cols;
        }
      }
      assert ColumnSet(u) == ColumnSet(cols) + ColumnSet([SpreadColumn]);
    }
  }

  /**
   * Row i after the assignment: same date, one cell per new column, the
   * spread of its own DGS3 and DGS1 in the new column, every other cell
   * unchanged.
   */
  lemma WithSpreadRow(t: Table, i: int)
    requires WellFormed(t) && "DGS3" in t.columns && "DGS1" in t.columns && 0 <= i < |t.rows|
    ensures |WithSpread(t).rows| == |t.rows|
    ensures var r, u := t.rows[i], WithSpread(t).rows[i];
      && u.key == r.key
      && u.cells.Keys == ColumnSet(WithSpread(t).columns)
      && SpreadColumn in u.cells
      && u.cells[SpreadColumn] == Spread(r.cells["DGS3"], r.cells["DGS1"])
      && forall c :: c in t.columns && c != SpreadColumn ==> c in u.cells && u.cells[c] == r.cells[c]
  {
    assert t.rows[i] in t.rows;
    WithColumnDistinct(t.columns);
  }

  /** The date index is unchanged. */
  lemma WithSpreadKeys(t: Table)
    requires WellFormed(t) && "DGS3" in t.columns && "DGS1" in t.columns
    ensures Keys(WithSpread(t)) == Keys(t)
  {
    var u := WithSpread(t);
    forall k | k in Keys(u) ensures k in Keys(t) {
      var r :| r in u.rows && r.key == k;
      var i :| 0 <= i < |u.rows| && u.rows[i] == r;
      WithSpreadRow(t, i);
      assert t.rows[i] in t.rows;
    }
    forall k | k in Keys(t) ensures k in Keys(u) {
      var r :| r in t.rows && r.key == k;
      var i :| 0 <= i < |t.rows| && t.rows[i] == r;
      WithSpreadRow(t, i);
      assert u.rows[i] in u.rows;
    }
  }

  /**
   * Adding the spread keeps the table well-formed and its row count, and
   * adds exactly one column (none if `spread` was already there).
   */
  lemma WithSpreadWellFormed(t: Table)
    requires WellFormed(t) && "DGS3" in t.columns && "DGS1" in t.columns
    ensures WellFormed(WithSpread(t))
    ensures |WithSpread(t).rows| == |t.rows|
    ensures SpreadColumn !in t.columns ==> WithSpread(t).columns == t.columns + [SpreadColumn]
    ensures SpreadColumn in t.columns ==> WithSpread(t).columns == t.columns
  {
    var u := WithSpread(t);
    WithColumnDistinct(t.columns);
    forall r | r in u.rows ensures r.cells.Keys == ColumnSet(u.columns) {
      var i :| 0 <= i < |u.rows| && u.rows[i] == r;
      WithSpreadRow(t, i);
    }
  }

  /**
   * The yield table of the script, updated in place. `columns` lists the
   * column names in order, `rows` the dated rows.
   */
  class YieldFrame {
    var columns: seq<string>
    var rows: seq<Row>

    function Contents(): Table
      reads this
    {
      Table(columns, rows)
    }

    predicate Valid()
      reads this
    {
      WellFormed(Contents())
    }

    constructor (t: Table)
      requires WellFormed(t)
      ensures Valid() && Contents() == t
    {
      columns := t.columns;
      rows := t.rows;
    }

    /**
     * Line 47: `yields["DGS3"]` is looked up first, then `yields["DGS1"]`;
     * a missing one raises KeyError and the table is left as it was.
     */
    method AddSpread() returns (err: Option<TableError>)
      requires Valid()
      modifies this
      ensures Valid()
      ensures err.None? <==> "DGS3" in old(columns) && "DGS1" in old(columns)
      ensures "DGS3" !in old(columns) ==> err == Some(MissingColumn("DGS3"))
      ensures "DGS3" in old(columns) && "DGS1" !in old(columns) ==> err == Some(MissingColumn("DGS1"))
      ensures err.Some? ==> Contents() == old(Contents())
      ensures err.None? ==> Contents() == WithSpread(old(Contents()))
    {
      if "DGS3" !in columns {
        return Some(MissingColumn("DGS3"));
      }
      if "DGS1" !in columns {
        return Some(MissingColumn("DGS1"));
      }
      WithSpreadWellFormed(Contents());
      var rs := rows;
      forall i | 0 <= i < |rs| ensures "DGS3" in rs[i].cells && "DGS1" in rs[i].cells {
        assert rs[i] in rs;
      }
      rows := seq(|rs|, i requires 0 <= i < |rs| && "DGS3" in rs[i].cells && "DGS1" in rs[i].cells => SpreadRow(rs[i]));
      columns := WithColumn(columns, SpreadColumn);
      return None;
    }
  }
}
