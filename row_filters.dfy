/** The two row-removing transformations: dropping every row that holds a
    null, and dropping every row that repeats an earlier one. Both answer
    `None` when there is nothing to remove, as the source does by falling off
    the end of the method. */
module RowFilters {
  import opened Seqs
  import opened Tables
  import opened Queries

  predicate NullFree(r: Row) {
    None !in r
  }

  /** `df.dropna()`: the rows that hold no null, in their original order. */
  function DropNa(t: Table): (r: Table)
    requires Rectangular(t)
    ensures r.columns == t.columns && |r.rows| <= |t.rows|
    ensures Rectangular(r)
    ensures forall i | 0 <= i < |r.rows| :: NullFree(r.rows[i])
  {
    Table(t.columns, Filter(t.rows, NullFree))
  }

  /** The rows `dropna` keeps are exactly the null-free rows, unmodified and in
      their original relative order. */
  lemma DropNaSurvivors(t: Table)
    requires Rectangular(t)
    ensures var idx := KeptIndices(t.rows, NullFree);
      StrictlyIncreasing(idx) &&
      (forall i | 0 <= i < |t.rows| :: i in idx <==> NullFree(t.rows[i])) &&
      DropNa(t).rows == Select(t.rows, idx)
  {
    FilterIsSelection(t.rows, NullFree);
  }

  /** `drop_missing_values`: `None` when the table holds no null at all;
      otherwise the null-free rows, which are strictly fewer than before and
      hold no null. */
  function DropMissing(t: Table): (r: Option<Table>)
    requires Rectangular(t)
    ensures r.None? <==> TotalNulls(t) == 0
    ensures r.None? <==> forall i | 0 <= i < |t.rows| :: NullFree(t.rows[i])
    ensures r.Some? ==> r.value == DropNa(t)
    ensures r.Some? ==> |r.value.rows| < |t.rows| && TotalNulls(r.value) == 0
  {
    if TotalNulls(t) == 0 then None
    else
      var i :| 0 <= i < |t.rows| && !NullFree(t.rows[i]);
      FilterShrinks(t.rows, NullFree, i);
      Some(DropNa(t))
  }

  /** `df.drop_duplicates()`: the first occurrence of every distinct row, in
      order; a frame without columns is returned whole. */
  function Dedup(t: Table): (r: Table)
    requires Rectangular(t)
    ensures r.columns == t.columns
    ensures Rectangular(r)
    ensures |r.rows| + DuplicateCount(t) == |t.rows|
    ensures DuplicateCount(r) == 0
  {
    if |t.columns| == 0 then t
    else
      KeepFirstLength(t.rows);
      KeepFirstIdempotent(t.rows);
      var r := Table(t.columns, KeepFirst(t.rows));
      assert Rectangular(r) by {
        forall i | 0 <= i < |r.rows| ensures |r.rows[i]| == |t.columns| &&
          forall j | 0 <= j < |t.columns| :: Fits(t.columns[j].kind, r.rows[i][j])
        {
          assert r.rows[i] in t.rows;
          var k :| 0 <= k < |t.rows| && t.rows[k] == r.rows[i];
        }
      }
      r
  }

  /** The rows `drop_duplicates` keeps are the first occurrences, unmodified and
      in order, and every row of the table is still represented; a table
      without columns keeps all its rows. */
  lemma DedupKeepsFirstOccurrences(t: Table)
    requires Rectangular(t)
    ensures |t.columns| > 0 ==> var idx := FirstIndices(t.rows);
      StrictlyIncreasing(idx) &&
      (forall i | 0 <= i < |t.rows| :: i in idx <==> !RepeatAt(t.rows, i)) &&
      Dedup(t).rows == Select(t.rows, idx)
    ensures |t.columns| == 0 ==> Dedup(t) == t
    ensures forall i | 0 <= i < |t.rows| :: t.rows[i] in Dedup(t).rows
  {
    KeepFirstIsSelection(t.rows);
    forall i | 0 <= i < |t.rows| ensures t.rows[i] in Dedup(t).rows {
      assert t.rows[i] in t.rows;
    }
  }

  /** `drop_duplicate_rows`: `None` when the frame has no column or no row
      repeats an earlier one; otherwise the deduplicated copy, shorter by
      exactly the duplicate count. */
  function DropDuplicates(t: Table): (r: Option<Table>)
    requires Rectangular(t)
    ensures r.None? <==> |t.columns| == 0 || Distinct(t.rows)
    ensures r.Some? ==> r.value == Dedup(t)
    ensures r.Some? ==> |r.value.rows| + DuplicateCount(t) == |t.rows| && DuplicateCount(t) > 0
  {
    if DuplicateCount(t) == 0 then None else Some(Dedup(t))
  }

  /** Deduplication is idempotent: a second `drop_duplicate_rows` on its result
      finds nothing to remove, and deduplicating again returns the same rows. */
  lemma DropDuplicatesIdempotent(t: Table)
    requires Rectangular(t)
    ensures Dedup(Dedup(t)) == Dedup(t)
    ensures DropDuplicates(t).Some? ==> DropDuplicates(DropDuplicates(t).value).None?
  {
    KeepFirstIdempotent(t.rows);
  }
}
