/**
 * Date-keyed tables: the shape shared by every pandas DataFrame the scripts
 * build. A row carries its index value (a date or a timestamp, as an integer)
 * and one cell per column; a cell is a number or missing (NaN).
 */
module Tables {
  import opened Wrappers
  import opened Sequences

  type Cell = Option<real>

  datatype Row = Row(key: int, cells: map<string, Cell>)

  datatype Table = Table(columns: seq<string>, rows: seq<Row>)

  /** What pandas raises: a join whose column names collide, a label that is not a column. */
  datatype TableError = ColumnsOverlap | MissingColumn(name: string)

  function RowKey(r: Row): int { r.key }

  function ColumnSet(cols: seq<string>): set<string> { set c | c in cols }

  predicate DistinctColumns(cols: seq<string>) {
    forall i, j :: 0 <= i < j < |cols| ==> cols[i] != cols[j]
  }

  /** Distinct column names, and every row has exactly one cell per column. */
  predicate WellFormed(t: Table) {
    && DistinctColumns(t.columns)
    && forall r :: r in t.rows ==> r.cells.Keys == ColumnSet(t.columns)
  }

  predicate Disjoint(a: seq<string>, b: seq<string>) {
    forall c :: c in a ==> c !in b
  }

  /** The index values of a table. */
  function Keys(t: Table): set<int> { KeySet(t.rows, RowKey) }

  /** The values of one column, top to bottom. */
  function Column(t: Table, c: string): seq<Cell>
    requires WellFormed(t) && c in t.columns
  {
    seq(|t.rows|, i requires 0 <= i < |t.rows| => t.rows[i].cells[c])
  }

  // ---------------------------------------------------------------------------
  // Inner join on the index
  // ---------------------------------------------------------------------------

  /** The row a join emits for a matching pair: the left key, both rows' cells. */
  function Merge(l: Row, r: Row): Row { Row(l.key, l.cells + r.cells) }

  /** One output row per row of `right` whose key equals `l`'s, in `right`'s order. */
  function Matches(l: Row, right: seq<Row>): (m: seq<Row>)
    ensures forall x :: x in m ==> x.key == l.key
    ensures forall x :: x in m <==> exists j :: 0 <= j < |right| && right[j].key == l.key && x == Merge(l, right[j])
  {
    if right == [] then []
    else
      var rest := Matches(l, right[1..]);
      assert forall j :: 0 <= j < |right[1..]| ==> right[1..][j] == right[j + 1];
      (if right[0].key == l.key then [Merge(l, right[0])] else []) + rest
  }

  /** The rows carrying index value `k`. */
  function KeyIs(k: int): Row -> bool { (r: Row) => r.key == k }

  /** Exactly one merged row per right row with `l`'s key, in `right`'s order. */
  lemma {:induction false} MatchesPairwise(l: Row, right: seq<Row>)
    ensures var f := Filter(right, KeyIs(l.key));
      |Matches(l, right)| == |f| && forall k :: 0 <= k < |f| ==> Matches(l, right)[k] == Merge(l, f[k])
  {
    if right != [] {
      MatchesPairwise(l, right[1..]);
      var m, m' := Matches(l, right), Matches(l, right[1..]);
      var f, f' := Filter(right, KeyIs(l.key)), Filter(right[1..], KeyIs(l.key));
      if right[0].key == l.key {
        assert f == [right[0]] + f';
        assert m == [Merge(l, right[0])] + m';
      } else {
        assert f == f';
        assert m == m';
      }
    }
  }

  /**
   * Inner join of two row sequences on their keys: one row per matching pair
   * (so duplicate keys multiply), grouped in the order of the left rows.
   */
  function JoinRows(left: seq<Row>, right: seq<Row>): (out: seq<Row>)
    ensures forall x :: x in out <==>
      exists i, j :: 0 <= i < |left| && 0 <= j < |right| && left[i].key == right[j].key && x == Merge(left[i], right[j])
  {
    if left == [] then []
    else
      var rest := JoinRows(left[1..], right);
      assert forall i :: 0 <= i < |left[1..]| ==> left[1..][i] == left[i + 1];
      Matches(left[0], right) + rest
  }

  /** The rows of each left row come as one group, the groups in left-row order. */
  lemma {:induction false} JoinRowsConcat(a: seq<Row>, b: seq<Row>, right: seq<Row>)
    ensures JoinRows(a + b, right) == JoinRows(a, right) + JoinRows(b, right)
  {
    if a == [] {
      assert a + b == b;
    } else {
      var ab := a + b;
      assert ab[0] == a[0] && ab[1..] == a[1..] + b;
      JoinRowsConcat(a[1..], b, right);
      var m, x, y := Matches(a[0], right), JoinRows(a[1..], right), JoinRows(b, right);
      assert JoinRows(ab, right) == m + (x + y);
      assert JoinRows(a, right) == m + x;
      assert m + (x + y) == (m + x) + y;
    }
  }

  /** Every joined row's key occurs on both sides. */
  lemma JoinKeysInBoth(left: seq<Row>, right: seq<Row>)
    ensures KeySet(JoinRows(left, right), RowKey) <= KeySet(left, RowKey) * KeySet(right, RowKey)
  {
    forall k | k in KeySet(JoinRows(left, right), RowKey)
      ensures k in KeySet(left, RowKey) && k in KeySet(right, RowKey)
    {
      var x :| x in JoinRows(left, right) && x.key == k;
      var i, j :| 0 <= i < |left| && 0 <= j < |right| && left[i].key == right[j].key && x == Merge(left[i], right[j]);
      assert left[i] in left && right[j] in right;
    }
  }

  /** The join keeps the left order: a left side sorted by key gives a sorted result. */
  lemma {:induction false} JoinRowsSorted(left: seq<Row>, right: seq<Row>)
    requires SortedBy(left, RowKey)
    ensures SortedBy(JoinRows(left, right), RowKey)
  {
    if left != [] {
      JoinRowsSorted(left[1..], right);
      var m := Matches(left[0], right);
      var rest := JoinRows(left[1..], right);
      forall y | y in rest ensures left[0].key <= y.key {
        var i, j :| 0 <= i < |left[1..]| && 0 <= j < |right| && left[1..][i].key == right[j].key && y == Merge(left[1..][i], right[j]);
        assert left[1..][i] == left[i + 1];
      }
      assert SortedBy(m, RowKey) by {
        forall a, b | 0 <= a < b < |m| ensures m[a].key <= m[b].key {
          assert m[a] in m && m[b] in m;
        }
      }
      SortedConcat(m, rest, RowKey);
    }
  }

  /** Two duplicate-free, disjoint column lists concatenate to a duplicate-free one. */
  lemma ConcatDistinct(a: seq<string>, b: seq<string>)
    requires DistinctColumns(a) && DistinctColumns(b) && Disjoint(a, b)
    ensures DistinctColumns(a + b)
  {
    var all := a + b;
    forall i, j | 0 <= i < j < |all| ensures all[i] != all[j] {
      if i < |a| && j >= |a| {
        assert all[i] in a && all[j] in b;
      }
    }
  }

  /** A joined row has one cell per column of either side. */
  lemma MergeCells(x: Row, y: Row, a: seq<string>, b: seq<string>)
    requires x.cells.Keys == ColumnSet(a) && y.cells.Keys == ColumnSet(b)
    ensures Merge(x, y).cells.Keys == ColumnSet(a + b)
  {
    assert ColumnSet(a + b) == ColumnSet(a) + ColumnSet(b);
  }

  /** Joining well-formed tables with disjoint columns gives a well-formed table. */
  lemma JoinWellFormed(l: Table, r: Table)
    requires WellFormed(l) && WellFormed(r) && Disjoint(l.columns, r.columns)
    ensures WellFormed(Table(l.columns + r.columns, JoinRows(l.rows, r.rows)))
  {
    ConcatDistinct(l.columns, r.columns);
    forall x | x in JoinRows(l.rows, r.rows) ensures x.cells.Keys == ColumnSet(l.columns + r.columns) {
      var i, j :| 0 <= i < |l.rows| && 0 <= j < |r.rows| && l.rows[i].key == r.rows[j].key && x == Merge(l.rows[i], r.rows[j]);
      assert l.rows[i] in l.rows && r.rows[j] in r.rows;
      MergeCells(l.rows[i], r.rows[j], l.columns, r.columns);
    }
  }

  /**
   * `DataFrame.join(other, how="inner")`: pandas refuses to join tables whose
   * column names overlap when no suffix is given.
   */
  function Join(l: Table, r: Table): (res: Result<Table, TableError>)
    ensures res.Failure? <==> !Disjoint(l.columns, r.columns)
    ensures res.Success? ==> res.value.columns == l.columns + r.columns
  {
    if Disjoint(l.columns, r.columns) then Success(Table(l.columns + r.columns, JoinRows(l.rows, r.rows)))
    else Failure(ColumnsOverlap)
  }

  // ---------------------------------------------------------------------------
  // Removing rows with missing values
  // ---------------------------------------------------------------------------

  /** The row has a present value in every one of `cols`. */
  predicate CompleteOn(r: Row, cols: seq<string>) {
    forall c :: c in cols ==> c in r.cells && r.cells[c].Some?
  }

  function RowsCompleteOn(rows: seq<Row>, cols: seq<string>): seq<Row> {
    Filter(rows, (r: Row) => CompleteOn(r, cols))
  }

  /** `dropna(subset=cols)`: a label that is not a column raises KeyError. */
  function DropNaSubset(t: Table, subset: seq<string>): (res: Result<Table, TableError>)
    ensures res.Failure? <==> exists c :: c in subset && c !in t.columns
    ensures res.Success? ==> res.value.columns == t.columns
    ensures res.Success? ==> forall r :: r in res.value.rows <==> r in t.rows && CompleteOn(r, subset)
  {
    if forall c :: c in subset ==> c in t.columns then Success(Table(t.columns, RowsCompleteOn(t.rows, subset)))
    else Failure(MissingColumn(FirstMissing(subset, t.columns)))
  }

  /** The first label of `wanted` that is not among `cols`. */
  function FirstMissing(wanted: seq<string>, cols: seq<string>): (c: string)
    requires exists c :: c in wanted && c !in cols
    ensures c in wanted && c !in cols
  {
    if wanted[0] !in cols then wanted[0] else FirstMissing(wanted[1..], cols)
  }

  /** `dropna()`: every column counts. */
  function DropNa(t: Table): (res: Table)
    ensures res.columns == t.columns
    ensures forall r :: r in res.rows <==> r in t.rows && CompleteOn(r, t.columns)
  {
    Table(t.columns, RowsCompleteOn(t.rows, t.columns))
  }

  /** Removing rows keeps a table well-formed. */
  lemma DropNaWellFormed(t: Table, cols: seq<string>)
    requires WellFormed(t)
    ensures WellFormed(Table(t.columns, RowsCompleteOn(t.rows, cols)))
  {
  }

  /** `df[cols]`: the named columns, in the order asked for. */
  function Project(t: Table, cols: seq<string>): (p: Table)
    requires WellFormed(t) && DistinctColumns(cols)
    requires forall c :: c in cols ==> c in t.columns
    ensures WellFormed(p) && p.columns == cols && |p.rows| == |t.rows|
    ensures forall i, c :: 0 <= i < |p.rows| && c in cols ==> p.rows[i].key == t.rows[i].key && p.rows[i].cells[c] == t.rows[i].cells[c]
  {
    var rows := seq(|t.rows|, i requires 0 <= i < |t.rows| =>
      Row(t.rows[i].key, map c | c in ColumnSet(cols) :: t.rows[i].cells[c]));
    assert forall r :: r in rows ==> r.cells.Keys == ColumnSet(cols);
    Table(cols, rows)
  }
}
