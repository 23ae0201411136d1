/** One-hot encoding with the first category dropped, as
    `pd.get_dummies(df, columns=<non-numeric columns>, drop_first=True)` does:
    the numeric columns come first, unchanged and in order; then every
    non-numeric column, in order, is replaced by one 0/1 indicator column per
    category except the first, the categories being its distinct labels sorted. */
module Encoding {
  import opened Seqs
  import opened Tables
  import opened Collation

  /** The labels present in `cells`, top to bottom, repeats included. */
  function Labels(cells: seq<Cell>): (r: seq<string>)
    ensures forall y :: y in r <==> Some(Str(y)) in cells
    decreases |cells|
  {
    if |cells| == 0 then []
    else
      var n := |cells| - 1;
      assert cells == cells[..n] + [cells[n]];
      Labels(cells[..n]) + (if cells[n].Some? && cells[n].value.Str? then [cells[n].value.s] else [])
  }

  /** The distinct labels of a column. */
  function LabelSet(cells: seq<Cell>): set<string> {
    set i | 0 <= i < |cells| && cells[i].Some? && cells[i].value.Str? :: cells[i].value.s
  }

  /** The categories pandas finds in a column: its distinct labels, sorted. */
  function Categories(cells: seq<Cell>): (r: seq<string>)
    ensures StrictlySorted(r)
    ensures forall y :: y in r <==> Some(Str(y)) in cells
  {
    SortUnique(Labels(cells))
  }

  /** The categories that get an indicator column: all but the first. */
  function Levels(cells: seq<Cell>): (r: seq<string>)
    ensures StrictlySorted(r)
    ensures |Categories(cells)| > 0 ==> r == Categories(cells)[1..]
    ensures |Categories(cells)| == 0 ==> r == []
  {
    var c := Categories(cells);
    if |c| == 0 then [] else c[1..]
  }

  /** The indicator column of `level` for a source column: `<name>_<level>`. */
  function IndicatorColumn(col: Column, level: string): Column {
    Column(col.name + "_" + level, Numeric)
  }

  function IndicatorColumns(col: Column, levels: seq<string>): (r: seq<Column>)
    ensures |r| == |levels|
  {
    seq(|levels|, k requires 0 <= k < |levels| => IndicatorColumn(col, levels[k]))
  }

  /** 1 where the cell holds `level`, 0 elsewhere, nulls included. */
  function Indicator(c: Cell, level: string): Cell {
    Some(Num(if c == Some(Str(level)) then 1.0 else 0.0))
  }

  function IndicatorRow(c: Cell, levels: seq<string>): (r: seq<Cell>)
    ensures |r| == |levels|
  {
    seq(|levels|, k requires 0 <= k < |levels| => Indicator(c, levels[k]))
  }

  /** A cell sets at most one indicator of a list of distinct levels. */
  lemma AtMostOneIndicator(c: Cell, levels: seq<string>)
    requires Distinct(levels)
    ensures forall k1, k2 | 0 <= k1 < k2 < |levels| ::
      !(Indicator(c, levels[k1]) == Some(Num(1.0)) && Indicator(c, levels[k2]) == Some(Num(1.0)))
  {
  }

  lemma SortedDistinct(s: seq<string>)
    requires StrictlySorted(s)
    ensures Distinct(s)
  {
    forall a, b | 0 <= a < b < |s| ensures s[a] != s[b] {
      SortedIsDistinct(s, a, b);
    }
  }

  /** Cell `i` of a column sets some indicator exactly when it holds a label
      other than the first category: nulls and the dropped first category
      read all zeros. */
  lemma HotIffNotFirst(cells: seq<Cell>, i: nat)
    requires i < |cells|
    ensures (exists k | 0 <= k < |Levels(cells)| :: Indicator(cells[i], Levels(cells)[k]) == Some(Num(1.0))) <==>
      cells[i].Some? && cells[i].value.Str? && cells[i].value.s != Categories(cells)[0]
  {
    if cells[i].Some? && cells[i].value.Str? && cells[i].value.s != Categories(cells)[0] {
      LaterLabelIsHot(cells, i);
    }
    if exists k | 0 <= k < |Levels(cells)| :: Indicator(cells[i], Levels(cells)[k]) == Some(Num(1.0)) {
      var k :| 0 <= k < |Levels(cells)| && Indicator(cells[i], Levels(cells)[k]) == Some(Num(1.0));
      HotIsLaterLabel(cells, i, k);
    }
  }

  /** A label other than the first category sets its own indicator. */
  lemma LaterLabelIsHot(cells: seq<Cell>, i: nat)
    requires i < |cells| && cells[i].Some? && cells[i].value.Str?
    requires cells[i].value.s != Categories(cells)[0]
    ensures exists k | 0 <= k < |Levels(cells)| :: Indicator(cells[i], Levels(cells)[k]) == Some(Num(1.0))
  {
    var c := Categories(cells);
    var lv := Levels(cells);
    var y := cells[i].value.s;
    assert y in c;
    var a :| 0 <= a < |c| && c[a] == y;
    assert lv[a - 1] == y;
    assert Indicator(cells[i], lv[a - 1]) == Some(Num(1.0));
  }

  /** A cell that sets an indicator holds a label other than the first category. */
  lemma HotIsLaterLabel(cells: seq<Cell>, i: nat, k: nat)
    requires i < |cells| && k < |Levels(cells)|
    requires Indicator(cells[i], Levels(cells)[k]) == Some(Num(1.0))
    ensures cells[i].Some? && cells[i].value.Str? && cells[i].value.s != Categories(cells)[0]
  {
    var c := Categories(cells);
    var lv := Levels(cells);
    assert cells[i] == Some(Str(lv[k]));
    assert lv[k] == c[k + 1];
    SortedIsDistinct(c, 0, k + 1);
  }

  /** A column with `k` distinct labels gets `k - 1` indicator columns (none
      when it has no label at all). */
  lemma LevelCount(cells: seq<Cell>)
    ensures |LabelSet(cells)| == 0 ==> |Levels(cells)| == 0
    ensures |LabelSet(cells)| > 0 ==> |Levels(cells)| == |LabelSet(cells)| - 1
  {
    var c := Categories(cells);
    SortedDistinct(c);
    DistinctCard(c);
    var elems := set k | 0 <= k < |c| :: c[k];
    assert elems == LabelSet(cells) by {
      forall y ensures y in elems <==> y in LabelSet(cells) {
        if y in LabelSet(cells) {
          var i :| 0 <= i < |cells| && cells[i].Some? && cells[i].value.Str? && cells[i].value.s == y;
          assert cells[i] == Some(Str(y));
          assert y in c;
        }
        if y in elems {
          assert y in c;
          assert Some(Str(y)) in cells;
          var i :| 0 <= i < |cells| && cells[i] == Some(Str(y));
          assert cells[i].value.s == y;
        }
      }
    }
  }

  /** One level list per non-numeric column of `cols`, in column order. */
  predicate LevelsFor(cols: seq<Column>, lv: seq<seq<string>>) {
    |lv| == |OtherIndices(cols)|
  }

  /** The indicator columns of every non-numeric column, one block each. */
  function HeaderBlocks(cols: seq<Column>, lv: seq<seq<string>>): (r: seq<seq<Column>>)
    requires LevelsFor(cols, lv)
    ensures |r| == |lv|
    ensures forall m | 0 <= m < |r| :: |r[m]| == |lv[m]|
  {
    var oth := OtherIndices(cols);
    seq(|oth|, m requires 0 <= m < |oth| => IndicatorColumns(cols[oth[m]], lv[m]))
  }

  /** The indicator cells of a row, one block per non-numeric column. */
  function RowBlocks(row: Row, cols: seq<Column>, lv: seq<seq<string>>): (r: seq<seq<Cell>>)
    requires |row| == |cols| && LevelsFor(cols, lv)
    ensures |r| == |lv|
    ensures forall m | 0 <= m < |r| :: |r[m]| == |lv[m]|
  {
    var oth := OtherIndices(cols);
    seq(|oth|, m requires 0 <= m < |oth| => IndicatorRow(row[oth[m]], lv[m]))
  }

  /** The columns after encoding: the numeric ones, then the indicator blocks. */
  function EncodedColumns(cols: seq<Column>, lv: seq<seq<string>>): seq<Column>
    requires LevelsFor(cols, lv)
  {
    Select(cols, NumericIndices(cols)) + Concat(HeaderBlocks(cols, lv))
  }

  /** A row after encoding: its numeric cells, then its indicator blocks. */
  function EncodedRow(row: Row, cols: seq<Column>, lv: seq<seq<string>>): seq<Cell>
    requires |row| == |cols| && LevelsFor(cols, lv)
  {
    Select(row, NumericIndices(cols)) + Concat(RowBlocks(row, cols, lv))
  }

  /** The indicator blocks of a row line up with the indicator column blocks. */
  lemma BlocksLineUp(row: Row, cols: seq<Column>, lv: seq<seq<string>>, m: nat)
    requires |row| == |cols| && LevelsFor(cols, lv) && m <= |lv|
    ensures |Concat(HeaderBlocks(cols, lv)[..m])| == |Concat(RowBlocks(row, cols, lv)[..m])|
  {
    ConcatSameShape(HeaderBlocks(cols, lv)[..m], RowBlocks(row, cols, lv)[..m]);
  }

  /** Every encoded column is numeric. */
  lemma ColumnsNumeric(cols: seq<Column>, lv: seq<seq<string>>)
    requires LevelsFor(cols, lv)
    ensures forall q | 0 <= q < |EncodedColumns(cols, lv)| :: EncodedColumns(cols, lv)[q].kind == Numeric
  {
    var num := NumericIndices(cols);
    var hb := HeaderBlocks(cols, lv);
    ConcatAll(hb, (c: Column) => c.kind == Numeric);
    forall q | 0 <= q < |EncodedColumns(cols, lv)| ensures EncodedColumns(cols, lv)[q].kind == Numeric {
      if q >= |num| {
        assert EncodedColumns(cols, lv)[q] == Concat(hb)[q - |num|];
      }
    }
  }

  /** An encoded row has one cell per encoded column, each null or a number. */
  lemma RowShape(row: Row, cols: seq<Column>, lv: seq<seq<string>>)
    requires |row| == |cols| && LevelsFor(cols, lv)
    requires forall j | 0 <= j < |cols| :: Fits(cols[j].kind, row[j])
    ensures |EncodedRow(row, cols, lv)| == |EncodedColumns(cols, lv)|
    ensures forall q | 0 <= q < |EncodedRow(row, cols, lv)| :: Fits(Numeric, EncodedRow(row, cols, lv)[q])
  {
    var num := NumericIndices(cols);
    var hb, rb := HeaderBlocks(cols, lv), RowBlocks(row, cols, lv);
    BlocksLineUp(row, cols, lv, |lv|);
    assert hb[..|lv|] == hb && rb[..|lv|] == rb;
    ConcatAll(rb, (c: Cell) => c.Some? && c.value.Num?);
    forall q | 0 <= q < |EncodedRow(row, cols, lv)| ensures Fits(Numeric, EncodedRow(row, cols, lv)[q]) {
      if q < |num| {
        assert EncodedRow(row, cols, lv)[q] == row[num[q]];
        assert Fits(cols[num[q]].kind, row[num[q]]);
      } else {
        assert EncodedRow(row, cols, lv)[q] == Concat(rb)[q - |num|];
      }
    }
  }

  /** Where the indicator of level `k` of the `m`-th non-numeric column sits. */
  function Position(cols: seq<Column>, lv: seq<seq<string>>, m: nat, k: nat): nat
    requires LevelsFor(cols, lv) && m < |lv|
  {
    |NumericIndices(cols)| + |Concat(HeaderBlocks(cols, lv)[..m])| + k
  }

  /** The column of level `k` of the `m`-th non-numeric column is `<name>_<level>`. */
  lemma IndicatorColumnAt(cols: seq<Column>, lv: seq<seq<string>>, m: nat, k: nat)
    requires LevelsFor(cols, lv) && m < |lv| && k < |lv[m]|
    ensures Position(cols, lv, m, k) < |EncodedColumns(cols, lv)|
    ensures EncodedColumns(cols, lv)[Position(cols, lv, m, k)] ==
      IndicatorColumn(cols[OtherIndices(cols)[m]], lv[m][k])
  {
    var hb := HeaderBlocks(cols, lv);
    ConcatIndex(hb, m, k);
    assert hb[m][k] == IndicatorColumn(cols[OtherIndices(cols)[m]], lv[m][k]);
  }

  /** The cell of level `k` of the `m`-th non-numeric column is 1 exactly where
      the row holds that level. */
  lemma IndicatorAt(row: Row, cols: seq<Column>, lv: seq<seq<string>>, m: nat, k: nat)
    requires |row| == |cols| && LevelsFor(cols, lv) && m < |lv| && k < |lv[m]|
    ensures Position(cols, lv, m, k) < |EncodedRow(row, cols, lv)|
    ensures EncodedRow(row, cols, lv)[Position(cols, lv, m, k)] ==
      Indicator(row[OtherIndices(cols)[m]], lv[m][k])
  {
    RowPosition(row, cols, lv, m, k);
    AppendConcatIndex(Select(row, NumericIndices(cols)), RowBlocks(row, cols, lv), m, k);
    RowBlockAt(row, cols, lv, m, k);
  }

  /** The position of an indicator, counted in the row's own blocks. */
  lemma RowPosition(row: Row, cols: seq<Column>, lv: seq<seq<string>>, m: nat, k: nat)
    requires |row| == |cols| && LevelsFor(cols, lv) && m < |lv|
    ensures Position(cols, lv, m, k) ==
      |Select(row, NumericIndices(cols))| + |Concat(RowBlocks(row, cols, lv)[..m])| + k
  {
    BlocksLineUp(row, cols, lv, m);
  }

  /** Cell `k` of block `m` of a row is the indicator of level `k` of the
      `m`-th non-numeric column. */
  lemma RowBlockAt(row: Row, cols: seq<Column>, lv: seq<seq<string>>, m: nat, k: nat)
    requires |row| == |cols| && LevelsFor(cols, lv) && m < |lv| && k < |lv[m]|
    ensures RowBlocks(row, cols, lv)[m][k] == Indicator(row[OtherIndices(cols)[m]], lv[m][k])
  {
  }

  /** The levels of column `j` of `t`. */
  function ColumnLevels(t: Table, j: nat): seq<string>
    requires Rectangular(t) && j < |t.columns|
  {
    Levels(ColumnCells(t, j))
  }

  /** The level lists of the non-numeric columns of `t`, in column order. */
  function LevelLists(t: Table): (lv: seq<seq<string>>)
    requires Rectangular(t)
    ensures LevelsFor(t.columns, lv)
    ensures forall m | 0 <= m < |lv| :: lv[m] == ColumnLevels(t, OtherIndices(t.columns)[m])
  {
    var oth := OtherIndices(t.columns);
    seq(|oth|, m requires 0 <= m < |oth| => ColumnLevels(t, oth[m]))
  }

  /** `apply_one_hot_encoding`. */
  function OneHot(t: Table): Table
    requires Rectangular(t)
  {
    var lv := LevelLists(t);
    Table(EncodedColumns(t.columns, lv),
      seq(|t.rows|, i requires 0 <= i < |t.rows| => EncodedRow(t.rows[i], t.columns, lv)))
  }

  /** The encoded table keeps the row count, is rectangular again, and has only
      numeric columns: no non-numeric column is left. */
  lemma OneHotShape(t: Table)
    requires Rectangular(t)
    ensures |OneHot(t).rows| == |t.rows|
    ensures Rectangular(OneHot(t))
    ensures forall q | 0 <= q < |OneHot(t).columns| :: OneHot(t).columns[q].kind == Numeric
  {
    var lv := LevelLists(t);
    ColumnsNumeric(t.columns, lv);
    forall i | 0 <= i < |t.rows|
      ensures |OneHot(t).rows[i]| == |OneHot(t).columns|
      ensures forall q | 0 <= q < |OneHot(t).columns| :: Fits(OneHot(t).columns[q].kind, OneHot(t).rows[i][q])
    {
      RowShape(t.rows[i], t.columns, lv);
    }
  }

  /** Numeric columns pass through unchanged, in order, ahead of the indicators. */
  lemma OneHotKeepsNumeric(t: Table)
    requires Rectangular(t)
    ensures |NumericIndices(t.columns)| <= |OneHot(t).columns|
    ensures forall k | 0 <= k < |NumericIndices(t.columns)| ::
      OneHot(t).columns[k] == t.columns[NumericIndices(t.columns)[k]] &&
      forall i | 0 <= i < |t.rows| :: OneHot(t).rows[i][k] == t.rows[i][NumericIndices(t.columns)[k]]
  {
  }

  /** The indicator column of level `k` of the `m`-th non-numeric column is
      named `<name>_<level>` and holds 1 exactly in the rows with that level. */
  lemma OneHotIndicator(t: Table, m: nat, k: nat)
    requires Rectangular(t) && m < |OtherIndices(t.columns)|
    requires k < |ColumnLevels(t, OtherIndices(t.columns)[m])|
    ensures var q := Position(t.columns, LevelLists(t), m, k);
      var j := OtherIndices(t.columns)[m];
      var level := ColumnLevels(t, j)[k];
      q < |OneHot(t).columns| &&
      OneHot(t).columns[q] == IndicatorColumn(t.columns[j], level) &&
      forall i | 0 <= i < |t.rows| ::
        q < |OneHot(t).rows[i]| && OneHot(t).rows[i][q] == Indicator(t.rows[i][j], level)
  {
    var lv := LevelLists(t);
    IndicatorColumnAt(t.columns, lv, m, k);
    forall i | 0 <= i < |t.rows|
      ensures var q := Position(t.columns, lv, m, k);
        q < |OneHot(t).rows[i]| &&
        OneHot(t).rows[i][q] == Indicator(t.rows[i][OtherIndices(t.columns)[m]], lv[m][k])
    {
      IndicatorAt(t.rows[i], t.columns, lv, m, k);
    }
  }

  /** In every row, at most one indicator of each non-numeric column is 1, and
      one is 1 exactly when the row's label is not the column's first category. */
  lemma OneHotAtMostOne(t: Table, i: nat, m: nat)
    requires Rectangular(t) && i < |t.rows| && m < |OtherIndices(t.columns)|
    ensures var j := OtherIndices(t.columns)[m];
      forall k1, k2 | 0 <= k1 < k2 < |ColumnLevels(t, j)| ::
        Position(t.columns, LevelLists(t), m, k2) < |OneHot(t).rows[i]| &&
        !(OneHot(t).rows[i][Position(t.columns, LevelLists(t), m, k1)] == Some(Num(1.0)) &&
          OneHot(t).rows[i][Position(t.columns, LevelLists(t), m, k2)] == Some(Num(1.0)))
    ensures var j := OtherIndices(t.columns)[m];
      (exists k | 0 <= k < |ColumnLevels(t, j)| ::
        Position(t.columns, LevelLists(t), m, k) < |OneHot(t).rows[i]| &&
        OneHot(t).rows[i][Position(t.columns, LevelLists(t), m, k)] == Some(Num(1.0))) <==>
      t.rows[i][j].Some? && t.rows[i][j].value.Str? &&
      t.rows[i][j].value.s != Categories(ColumnCells(t, j))[0]
  {
    var j := OtherIndices(t.columns)[m];
    var lv := LevelLists(t);
    SortedDistinct(lv[m]);
    AtMostOneIndicator(t.rows[i][j], lv[m]);
    forall k | 0 <= k < |lv[m]|
      ensures Position(t.columns, lv, m, k) < |OneHot(t).rows[i]|
      ensures OneHot(t).rows[i][Position(t.columns, lv, m, k)] == Indicator(t.rows[i][j], lv[m][k])
    {
      IndicatorAt(t.rows[i], t.columns, lv, m, k);
    }
    HotIffNotFirst(ColumnCells(t, j), i);
  }

  /** With no non-numeric column the encoding changes nothing. */
  lemma OneHotNoCategorical(t: Table)
    requires Rectangular(t)
    requires forall j | 0 <= j < |t.columns| :: t.columns[j].kind == Numeric
    ensures OneHot(t) == t
  {
    var lv := LevelLists(t);
    EncodedColumnsAllNumeric(t.columns, lv);
    forall i | 0 <= i < |t.rows| ensures OneHot(t).rows[i] == t.rows[i] {
      EncodedRowAllNumeric(t.rows[i], t.columns, lv);
    }
    assert OneHot(t).rows == t.rows;
  }

  /** Every position of an all-numeric header is numeric, none other. */
  lemma AllNumericIndices(cols: seq<Column>)
    requires forall j | 0 <= j < |cols| :: cols[j].kind == Numeric
    ensures NumericIndices(cols) == seq(|cols|, i => i)
    ensures OtherIndices(cols) == []
  {
    KeptAll(cols, IsNumeric);
    KeptNone(cols, IsOther);
  }

  /** An all-numeric header is kept as it is. */
  lemma EncodedColumnsAllNumeric(cols: seq<Column>, lv: seq<seq<string>>)
    requires LevelsFor(cols, lv)
    requires forall j | 0 <= j < |cols| :: cols[j].kind == Numeric
    ensures EncodedColumns(cols, lv) == cols
  {
    AllNumericIndices(cols);
    SelectAll(cols);
    assert HeaderBlocks(cols, lv) == [];
  }

  /** A row under an all-numeric header is kept as it is. */
  lemma EncodedRowAllNumeric(row: Row, cols: seq<Column>, lv: seq<seq<string>>)
    requires |row| == |cols| && LevelsFor(cols, lv)
    requires forall j | 0 <= j < |cols| :: cols[j].kind == Numeric
    ensures EncodedRow(row, cols, lv) == row
  {
    AllNumericIndices(cols);
    SelectAll(row);
    assert RowBlocks(row, cols, lv) == [];
  }
}
