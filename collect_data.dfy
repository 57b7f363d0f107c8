/**
 * `collect_data`: inner merge of the stablecoin and Treasury tables on their
 * `date` column, then the inclusive study-window filter. Both tables are
 * parameters (their collectors are not defined in the repository). Dates
 * are written as yyyymmdd integers, whose order is the calendar order and
 * the order of the ISO strings the filter compares against.
 */
module CollectData {
  import opened Sequences
  import opened Tables

  /** 2024-11-01 and 2025-04-30, the study bounds, both inclusive. */
  const StudyStart := 20241101
  const StudyEnd := 20250430

  predicate InStudyWindow(r: Row) {
    StudyStart <= r.key <= StudyEnd
  }

  /** The merged rows, before the window filter. */
  function MergedRows(stable: Table, treasury: Table): seq<Row> {
    JoinRows(stable.rows, treasury.rows)
  }

  /** Lines 11 and 14: merge on `date`, keep the study period. */
  function Collect(stable: Table, treasury: Table): (df: Table)
    requires Disjoint(stable.columns, treasury.columns)
    ensures df.columns == stable.columns + treasury.columns
    ensures |df.rows| <= |MergedRows(stable, treasury)|
  {
    Table(stable.columns + treasury.columns, Filter(MergedRows(stable, treasury), InStudyWindow))
  }

  /** Every output row's date appears in both input tables. */
  lemma CollectKeysInBoth(stable: Table, treasury: Table)
    requires Disjoint(stable.columns, treasury.columns)
    ensures forall r :: r in Collect(stable, treasury).rows ==> r.key in Keys(stable) && r.key in Keys(treasury)
  {
    JoinKeysInBoth(stable.rows, treasury.rows);
    forall r | r in Collect(stable, treasury).rows ensures r.key in Keys(stable) && r.key in Keys(treasury) {
      assert r in MergedRows(stable, treasury);
      assert r.key in KeySet(MergedRows(stable, treasury), RowKey);
    }
  }

  /**
   * Window soundness and completeness: a row is in the output iff it is a
   * merged pair whose date lies inside the study period, ends included.
   */
  lemma CollectWindow(stable: Table, treasury: Table)
    requires Disjoint(stable.columns, treasury.columns)
    ensures forall r :: r in Collect(stable, treasury).rows ==> StudyStart <= r.key <= StudyEnd
    ensures forall i, j ::
      (0 <= i < |stable.rows| && 0 <= j < |treasury.rows| && stable.rows[i].key == treasury.rows[j].key
       && StudyStart <= stable.rows[i].key <= StudyEnd) ==> Merge(stable.rows[i], treasury.rows[j]) in Collect(stable, treasury).rows
  {
    forall i, j | 0 <= i < |stable.rows| && 0 <= j < |treasury.rows| && stable.rows[i].key == treasury.rows[j].key
      && StudyStart <= stable.rows[i].key <= StudyEnd
      ensures Merge(stable.rows[i], treasury.rows[j]) in Collect(stable, treasury).rows
    {
      assert Merge(stable.rows[i], treasury.rows[j]) in MergedRows(stable, treasury);
    }
  }

  /**
   * The filter keeps the merged rows' relative order: the output is a
   * subsequence of the merge, and a merge of a date-sorted stablecoin table
   * is output in date order.
   */
  lemma CollectKeepsOrder(stable: Table, treasury: Table) returns (idx: seq<nat>)
    requires Disjoint(stable.columns, treasury.columns)
    ensures Embeds(idx, Collect(stable, treasury).rows, MergedRows(stable, treasury))
    ensures SortedBy(stable.rows, RowKey) ==> SortedBy(Collect(stable, treasury).rows, RowKey)
  {
    idx := FilterEmbedding(MergedRows(stable, treasury), InStudyWindow);
    if SortedBy(stable.rows, RowKey) {
      JoinRowsSorted(stable.rows, treasury.rows);
      FilterSorted(MergedRows(stable, treasury), InStudyWindow, RowKey);
    }
  }

  /** Applying the study-window filter again changes nothing. */
  lemma CollectIdempotent(stable: Table, treasury: Table)
    requires Disjoint(stable.columns, treasury.columns)
    ensures Filter(Collect(stable, treasury).rows, InStudyWindow) == Collect(stable, treasury).rows
  {
    FilterIdempotent(MergedRows(stable, treasury), InStudyWindow);
  }
}
