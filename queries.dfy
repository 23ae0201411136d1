/** The read-only reports of a DataCleaner: type counts, null counts and the
    duplicate count. Each is a function of the held table, so none changes it. */
module Queries {
  import opened Seqs
  import opened Tables

  /** One line of `get_type_counts`: a type tag, how many columns carry it,
      and that count as a percentage of all columns. */
  datatype TypeCount = TypeCount(kind: Kind, count: nat, percent: real)

  /** The number of columns of kind `k`. */
  function KindCount(cols: seq<Column>, k: Kind): (r: nat)
    ensures r <= |cols|
    ensures r == 0 <==> forall j | 0 <= j < |cols| :: cols[j].kind != k
    decreases |cols|
  {
    if |cols| == 0 then 0
    else
      var n := |cols| - 1;
      assert forall j | 0 <= j < n :: cols[..n][j] == cols[j];
      KindCount(cols[..n], k) + (if cols[n].kind == k then 1 else 0)
  }

  /** Every column is counted under exactly one tag. */
  lemma {:induction false} KindCountsCover(cols: seq<Column>)
    ensures KindCount(cols, Numeric) + KindCount(cols, Other) == |cols|
    decreases |cols|
  {
    if |cols| > 0 {
      KindCountsCover(cols[..|cols| - 1]);
    }
  }

  /** The positions of kind `k` among the columns. */
  function KindPositions(cols: seq<Column>, k: Kind): set<nat> {
    set j: nat | j < |cols| && cols[j].kind == k
  }

  /** One more column adds its position exactly when it has kind `k`. */
  lemma KindPositionsSnoc(cols: seq<Column>, k: Kind)
    requires |cols| > 0
    ensures var n := |cols| - 1;
      KindPositions(cols, k) ==
        KindPositions(cols[..n], k) + (if cols[n].kind == k then {n} else {})
  {
    var n := |cols| - 1;
    assert forall j | 0 <= j < n :: cols[..n][j] == cols[j];
  }

  lemma AddFresh(before: set<nat>, n: nat, hot: bool)
    requires forall j <- before :: j < n
    ensures |before + (if hot then {n} else {})| == |before| + (if hot then 1 else 0)
  {
    if hot {
      assert n !in before;
    } else {
      assert before + {} == before;
    }
  }

  /** `value_counts` counts the columns: the count of tag `k` is the number of
      column positions that carry it. */
  lemma {:induction false} KindCountIsCardinality(cols: seq<Column>, k: Kind)
    ensures KindCount(cols, k) == |KindPositions(cols, k)|
    decreases |cols|
  {
    if |cols| > 0 {
      var n := |cols| - 1;
      var hot := cols[n].kind == k;
      KindCountIsCardinality(cols[..n], k);
      KindPositionsSnoc(cols, k);
      AddFresh(KindPositions(cols[..n], k), n, hot);
      assert KindCount(cols, k) == KindCount(cols[..n], k) + (if hot then 1 else 0);
    }
  }

  /** Two shares of a whole, each scaled to percent, add up to 100. */
  lemma PercentsAddUp(c0: nat, c1: nat, n: nat)
    requires n > 0 && c0 + c1 == n
    ensures (c0 as real) * 100.0 / (n as real) + (c1 as real) * 100.0 / (n as real) == 100.0
  {
    var a, b := (c0 as real) * 100.0, (c1 as real) * 100.0;
    assert a / (n as real) + b / (n as real) == (a + b) / (n as real);
    assert a + b == 100.0 * (n as real);
  }

  /** `c` of `n` as a percentage: the share times the whole is `c` times 100,
      and a positive part of the whole lies in (0, 100]. */
  lemma ShareOfWhole(c: nat, n: nat)
    requires 0 < c <= n
    ensures (c as real) * 100.0 / (n as real) * (n as real) == (c as real) * 100.0
    ensures 0.0 < (c as real) * 100.0 / (n as real) <= 100.0
  {
    var p := (c as real) * 100.0 / (n as real);
    assert p * (n as real) == (c as real) * 100.0;
    assert (c as real) * 100.0 <= (n as real) * 100.0;
  }

  /** The entry for tag `k`: its count and its share of all columns in percent. */
  function Entry(cols: seq<Column>, k: Kind): (e: TypeCount)
    requires KindCount(cols, k) > 0
    ensures e.kind == k && e.count == KindCount(cols, k) > 0
  {
    var c := KindCount(cols, k);
    TypeCount(k, c, (c as real) * 100.0 / (|cols| as real))
  }

  /** The percentage of an entry is `Conteo/total*100`: times the number of
      columns it gives 100 times the count, and it lies in (0, 100]. */
  lemma EntryPercent(cols: seq<Column>, k: Kind)
    requires KindCount(cols, k) > 0
    ensures Entry(cols, k).percent * (|cols| as real) == (KindCount(cols, k) as real) * 100.0
    ensures 0.0 < Entry(cols, k).percent <= 100.0
  {
    ShareOfWhole(KindCount(cols, k), |cols|);
  }

  function SumCounts(r: seq<TypeCount>): nat {
    if |r| == 0 then 0 else r[0].count + SumCounts(r[1..])
  }

  function SumPercents(r: seq<TypeCount>): real {
    if |r| == 0 then 0.0 else r[0].percent + SumPercents(r[1..])
  }

  lemma SumsOfPair(a: TypeCount, b: TypeCount)
    ensures SumCounts([a, b]) == a.count + b.count
    ensures SumPercents([a, b]) == a.percent + b.percent
  {
    assert [a, b][1..] == [b];
    assert [b][1..] == [];
    assert SumCounts([b]) == b.count + SumCounts([]);
    assert SumPercents([b]) == b.percent + SumPercents([]);
  }

  /** `get_type_counts`: one entry per tag present, most frequent first (a tie
      lists Numeric first); the counts add up to the number of columns. */
  function TypeCounts(t: Table): (r: seq<TypeCount>)
    ensures forall e <- r :: KindCount(t.columns, e.kind) > 0 && e == Entry(t.columns, e.kind)
    ensures forall k: Kind :: KindCount(t.columns, k) > 0 <==> exists e <- r :: e.kind == k
    ensures |r| == 2 ==> r[0].kind != r[1].kind && r[0].count >= r[1].count
    ensures SumCounts(r) == |t.columns|
  {
    KindCountsCover(t.columns);
    var n, o := KindCount(t.columns, Numeric), KindCount(t.columns, Other);
    if n == 0 && o == 0 then []
    else if n == 0 then [Entry(t.columns, Other)]
    else if o == 0 then [Entry(t.columns, Numeric)]
    else
      var r := if n >= o then [Entry(t.columns, Numeric), Entry(t.columns, Other)]
               else [Entry(t.columns, Other), Entry(t.columns, Numeric)];
      SumsOfPair(r[0], r[1]);
      r
  }

  /** The percentages of `get_type_counts` add up to 100 for any table with a column. */
  lemma TypeCountPercentages(t: Table)
    requires |t.columns| > 0
    ensures SumPercents(TypeCounts(t)) == 100.0
  {
    var r := TypeCounts(t);
    var cols := t.columns;
    KindCountsCover(cols);
    var n, o := KindCount(cols, Numeric), KindCount(cols, Other);
    if n == 0 {
      assert r == [Entry(cols, Other)];
      SumOfSingle(r[0]);
      WholePercent(o, |cols|);
    } else if o == 0 {
      assert r == [Entry(cols, Numeric)];
      SumOfSingle(r[0]);
      WholePercent(n, |cols|);
    } else {
      PercentsAddUp(n, o, |cols|);
      var en, eo := Entry(cols, Numeric), Entry(cols, Other);
      if n >= o {
        assert r == [en, eo];
        SumsOfPair(en, eo);
      } else {
        assert r == [eo, en];
        SumsOfPair(eo, en);
      }
    }
  }

  /** The whole, scaled to percent, is 100. */
  lemma WholePercent(c: nat, n: nat)
    requires n > 0 && c == n
    ensures (c as real) * 100.0 / (n as real) == 100.0
  {
  }

  lemma SumOfSingle(a: TypeCount)
    ensures SumPercents([a]) == a.percent
  {
    assert [a][1..] == [];
  }

  /** The number of nulls among `cells`. */
  function CountNulls(cells: seq<Cell>): (r: nat)
    ensures r <= |cells|
    ensures r == 0 <==> !HasNull(cells)
    decreases |cells|
  {
    if |cells| == 0 then 0
    else
      var n := |cells| - 1;
      assert cells == cells[..n] + [cells[n]];
      CountNulls(cells[..n]) + (if cells[n].None? then 1 else 0)
  }

  /** The null count is the number of positions holding a null. */
  lemma {:induction false} CountNullsIsCardinality(cells: seq<Cell>)
    ensures CountNulls(cells) == |set i | 0 <= i < |cells| && cells[i].None?|
    decreases |cells|
  {
    if |cells| > 0 {
      var n := |cells| - 1;
      CountNullsIsCardinality(cells[..n]);
      var before := set i | 0 <= i < n && cells[..n][i].None?;
      var after := set i | 0 <= i < |cells| && cells[i].None?;
      if cells[n].None? {
        assert after == before + {n};
      } else {
        assert after == before;
      }
    }
  }

  /** `get_null_counts`: one entry per column, in column order, holding the
      column's name and how many of its cells are null. */
  function NullCounts(t: Table): (r: seq<(string, nat)>)
    requires Rectangular(t)
    ensures |r| == |t.columns|
    ensures forall j | 0 <= j < |r| ::
      r[j].0 == t.columns[j].name && r[j].1 == CountNulls(ColumnCells(t, j))
    ensures forall j | 0 <= j < |r| ::
      r[j].1 <= |t.rows| && (r[j].1 == 0 <==> forall i | 0 <= i < |t.rows| :: t.rows[i][j].Some?)
  {
    seq(|t.columns|, j requires 0 <= j < |t.columns| => (t.columns[j].name, CountNulls(ColumnCells(t, j))))
  }

  /** The null counts of the first `m` columns, added up. */
  function SumNulls(t: Table, m: nat): (r: nat)
    requires Rectangular(t) && m <= |t.columns|
    ensures r == 0 <==> forall i, j | 0 <= i < |t.rows| && 0 <= j < m :: t.rows[i][j].Some?
  {
    if m == 0 then 0
    else
      var c := CountNulls(ColumnCells(t, m - 1));
      assert c == 0 <==> forall i | 0 <= i < |t.rows| :: t.rows[i][m - 1].Some?;
      SumNulls(t, m - 1) + c
  }

  /** `df.isna().sum().sum()`: the number of null cells in the whole table. It
      is zero exactly when no row holds a null. */
  function TotalNulls(t: Table): (r: nat)
    requires Rectangular(t)
    ensures r == 0 <==> forall i | 0 <= i < |t.rows| :: !HasNull(t.rows[i])
  {
    var r := SumNulls(t, |t.columns|);
    assert r == 0 <==> forall i | 0 <= i < |t.rows| :: !HasNull(t.rows[i]) by {
      if r == 0 {
        forall i | 0 <= i < |t.rows| ensures !HasNull(t.rows[i]) {
          assert forall j | 0 <= j < |t.rows[i]| :: t.rows[i][j].Some?;
        }
      }
    }
    r
  }

  /** `get_duplicate_rows`: how many rows equal some earlier row, comparing whole
      rows with null equal to null. pandas marks no row of a frame without
      columns, so the count is zero exactly when there is no column or all rows
      differ. */
  function DuplicateCount(t: Table): (r: nat)
    ensures r <= |t.rows|
    ensures r == 0 <==> |t.columns| == 0 || Distinct(t.rows)
  {
    if |t.columns| == 0 then 0
    else
      RepeatCountZero(t.rows);
      RepeatCount(t.rows)
  }
}
