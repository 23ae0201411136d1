/** Rescaling the numeric columns with scikit-learn's MinMaxScaler or
    StandardScaler. Both fit each column on its own, skip nulls when fitting
    and leave nulls null; a column whose spread is zero is divided by 1. */
module Scaling {
  import opened Tables
  import opened Imputation

  /** The two scalers the cleaner uses. StandardScaler needs a square root,
      which the model takes as a parameter. */
  datatype Scaler = MinMaxScaler | StandardScaler(root: real -> real)

  /** What a scaler learns from one column: it then maps each present number
      `x` to `(x - shift) / divisor`. */
  datatype Fitted = Fitted(shift: real, divisor: real)

  /** The image of one present number under a fitted scaler. */
  function Scaled(p: Fitted, x: real): real
    requires p.divisor != 0.0
  {
    (x - p.shift) / p.divisor
  }

  lemma ScaledTimesDivisor(p: Fitted, x: real)
    requires p.divisor != 0.0
    ensures Scaled(p, x) * p.divisor == x - p.shift
  {
  }

  /** One cell rescaled by `p`: a present number is mapped, anything else is kept. */
  function ScaleCell(c: Cell, p: Fitted): Cell
    requires p.divisor != 0.0
  {
    if c.Some? && c.value.Num? then Some(Num(Scaled(p, c.value.x))) else c
  }

  /** `cells` with every present number rescaled by `p`; nulls stay null. */
  function ScaleCells(cells: seq<Cell>, p: Fitted): (r: seq<Cell>)
    requires p.divisor != 0.0
    ensures |r| == |cells|
    decreases |cells|
  {
    if |cells| == 0 then []
    else
      var n := |cells| - 1;
      ScaleCells(cells[..n], p) + [ScaleCell(cells[n], p)]
  }

  /** Cell `i` of a rescaled column is cell `i` rescaled. */
  lemma {:induction false} ScaleCellsAt(cells: seq<Cell>, p: Fitted, i: nat)
    requires p.divisor != 0.0 && i < |cells|
    ensures ScaleCells(cells, p)[i] == ScaleCell(cells[i], p)
    decreases |cells|
  {
    var n := |cells| - 1;
    if i < n {
      ScaleCellsAt(cells[..n], p, i);
    }
  }

  /** Rescaling keeps nulls null and present cells present. */
  lemma ScaleCellsNulls(cells: seq<Cell>, p: Fitted)
    requires p.divisor != 0.0
    ensures forall i | 0 <= i < |cells| :: ScaleCells(cells, p)[i].None? <==> cells[i].None?
  {
    forall i | 0 <= i < |cells| ensures ScaleCells(cells, p)[i].None? <==> cells[i].None? {
      ScaleCellsAt(cells, p, i);
    }
  }

  /** Every number of `xs` rescaled by `p`. */
  function ScaleAll(xs: seq<real>, p: Fitted): (r: seq<real>)
    requires p.divisor != 0.0
    ensures |r| == |xs|
    decreases |xs|
  {
    if |xs| == 0 then [] else ScaleAll(xs[..|xs| - 1], p) + [Scaled(p, xs[|xs| - 1])]
  }

  /** The present numbers of a rescaled column are the rescaled present numbers. */
  lemma {:induction false} PresentOfScaled(cells: seq<Cell>, p: Fitted)
    requires p.divisor != 0.0
    ensures PresentNumbers(ScaleCells(cells, p)) == ScaleAll(PresentNumbers(cells), p)
    decreases |cells|
  {
    if |cells| > 0 {
      var n := |cells| - 1;
      var r := ScaleCells(cells, p);
      assert r[..n] == ScaleCells(cells[..n], p);
      assert r[n] == ScaleCell(cells[n], p);
      PresentOfScaled(cells[..n], p);
      var xs := PresentNumbers(cells[..n]);
      if cells[n].Some? && cells[n].value.Num? {
        var x := cells[n].value.x;
        assert PresentNumbers(cells) == xs + [x];
        assert (xs + [x])[..|xs|] == xs;
        assert PresentNumbers(r) == PresentNumbers(r[..n]) + [Scaled(p, x)];
      } else {
        assert PresentNumbers(cells) == xs;
        assert PresentNumbers(r) == PresentNumbers(r[..n]);
      }
    }
  }

  /** Every present number of `cells` is listed, and every listed number is present. */
  lemma {:induction false} PresentNumbersExact(cells: seq<Cell>)
    ensures forall i | 0 <= i < |cells| && cells[i].Some? && cells[i].value.Num? ::
      cells[i].value.x in PresentNumbers(cells)
    ensures forall k | 0 <= k < |PresentNumbers(cells)| ::
      Some(Num(PresentNumbers(cells)[k])) in cells
    decreases |cells|
  {
    if |cells| > 0 {
      var n := |cells| - 1;
      PresentNumbersExact(cells[..n]);
      assert forall i | 0 <= i < n :: cells[..n][i] == cells[i];
      assert forall c | c in cells[..n] :: c in cells;
    }
  }

  /** The table with every numeric column replaced by the scaler fitted on it
      and applied to it: `df_copy[numerical_columns] = scaler.fit_transform(...)`. */
  function Rescale(t: Table, s: Scaler): Table
    requires Rectangular(t)
  {
    Table(t.columns, seq(|t.rows|, i requires 0 <= i < |t.rows| =>
      seq(|t.columns|, j requires 0 <= j < |t.columns| =>
        if t.columns[j].kind == Numeric then ScaleCells(ColumnCells(t, j), Fit(s, ColumnCells(t, j)))[i]
        else t.rows[i][j])))
  }

  /** Rescaling keeps the columns, the rows and the nulls; a numeric column is
      its own cells rescaled by a scaler fitted on them alone, and every other
      column is copied. */
  lemma RescaleShape(t: Table, s: Scaler)
    requires Rectangular(t)
    ensures Rescale(t, s).columns == t.columns
    ensures |Rescale(t, s).rows| == |t.rows|
    ensures Rectangular(Rescale(t, s))
    ensures forall i, j | 0 <= i < |t.rows| && 0 <= j < |t.columns| ::
      Rescale(t, s).rows[i][j].None? <==> t.rows[i][j].None?
    ensures forall j | 0 <= j < |t.columns| && t.columns[j].kind == Numeric ::
      ColumnCells(Rescale(t, s), j) == ScaleCells(ColumnCells(t, j), Fit(s, ColumnCells(t, j)))
    ensures forall j | 0 <= j < |t.columns| && t.columns[j].kind != Numeric ::
      ColumnCells(Rescale(t, s), j) == ColumnCells(t, j)
  {
    var r := Rescale(t, s);
    forall i, j | 0 <= i < |t.rows| && 0 <= j < |t.columns|
      ensures Fits(r.columns[j].kind, r.rows[i][j])
      ensures r.rows[i][j].None? <==> t.rows[i][j].None?
    {
      if t.columns[j].kind == Numeric {
        var col := ColumnCells(t, j);
        assert Fits(Numeric, col[i]);
        assert r.rows[i][j] == ScaleCells(col, Fit(s, col))[i];
        ScaleCellsAt(col, Fit(s, col), i);
      }
    }
  }

  /** scikit-learn's `fit_transform` needs at least one sample: it raises
      `ValueError` on the numeric columns of a table that has no row. */
  predicate FitRejects(t: Table) {
    |NumericColumns(t)| > 0 && |t.rows| == 0
  }

  /** A table without numeric columns comes back unchanged. */
  lemma RescaleNoNumeric(t: Table, s: Scaler)
    requires Rectangular(t)
    requires forall j | 0 <= j < |t.columns| :: t.columns[j].kind != Numeric
    ensures Rescale(t, s) == t
  {
    RescaleShape(t, s);
    SameCells(Rescale(t, s), t);
  }

  function Min(xs: seq<real>): (m: real)
    requires |xs| > 0
    ensures m in xs
    ensures forall k | 0 <= k < |xs| :: m <= xs[k]
    decreases |xs|
  {
    var n := |xs| - 1;
    if n == 0 then xs[0]
    else
      var m := Min(xs[..n]);
      assert forall k | 0 <= k < n :: xs[..n][k] == xs[k];
      if xs[n] < m then xs[n] else m
  }

  function Max(xs: seq<real>): (m: real)
    requires |xs| > 0
    ensures m in xs
    ensures forall k | 0 <= k < |xs| :: xs[k] <= m
    decreases |xs|
  {
    var n := |xs| - 1;
    if n == 0 then xs[0]
    else
      var m := Max(xs[..n]);
      assert forall k | 0 <= k < n :: xs[..n][k] == xs[k];
      if xs[n] > m then xs[n] else m
  }

  /** MinMaxScaler fitted on a column: shift by the smallest present number
      and divide by the spread, or by 1 when the column is constant. */
  function MinMaxFitted(col: seq<Cell>): (p: Fitted)
    ensures p.divisor > 0.0
  {
    var xs := PresentNumbers(col);
    if |xs| == 0 then Fitted(0.0, 1.0)
    else
      var lo, hi := Min(xs), Max(xs);
      Fitted(lo, if hi == lo then 1.0 else hi - lo)
  }

  /** The squared deviations of `xs` from `m`. */
  function SquaredDeviations(xs: seq<real>, m: real): (r: seq<real>)
    ensures |r| == |xs|
    decreases |xs|
  {
    if |xs| == 0 then []
    else
      var n := |xs| - 1;
      SquaredDeviations(xs[..n], m) + [(xs[n] - m) * (xs[n] - m)]
  }

  lemma Square(a: real)
    ensures a * a >= 0.0
  {
    if a < 0.0 {
      assert a * a == (-a) * (-a);
    }
  }

  lemma {:induction false} SquaresNonNegative(xs: seq<real>, m: real)
    ensures Sum(SquaredDeviations(xs, m)) >= 0.0
    decreases |xs|
  {
    if |xs| > 0 {
      var n := |xs| - 1;
      SquaresNonNegative(xs[..n], m);
      Square(xs[n] - m);
    }
  }

  /** The population variance (`ddof=0`) of the present numbers; 0 without any. */
  function Variance(cells: seq<Cell>): (v: real)
    ensures v >= 0.0
  {
    var xs := PresentNumbers(cells);
    if |xs| == 0 then 0.0
    else
      SquaresNonNegative(xs, Mean(cells).value);
      Sum(SquaredDeviations(xs, Mean(cells).value)) / (|xs| as real)
  }

  /** StandardScaler fitted on a column: shift by the mean and divide by the
      standard deviation, or by 1 when that is zero. */
  function StandardFitted(col: seq<Cell>, root: real -> real): (p: Fitted)
    ensures p.divisor != 0.0
    ensures |PresentNumbers(col)| > 0 ==> p.shift == Mean(col).value
  {
    var xs := PresentNumbers(col);
    if |xs| == 0 then Fitted(0.0, 1.0)
    else
      var sd := root(Variance(col));
      Fitted(Mean(col).value, if sd == 0.0 then 1.0 else sd)
  }

  /** `scaler.fit` on one column. */
  function Fit(s: Scaler, col: seq<Cell>): (p: Fitted)
    ensures p.divisor != 0.0
  {
    match s
    case MinMaxScaler => MinMaxFitted(col)
    case StandardScaler(root) => StandardFitted(col, root)
  }

  lemma UnitFactorBounds(a: real, d: real)
    requires d > 0.0 && 0.0 <= a * d <= d
    ensures 0.0 <= a <= 1.0
  {
  }

  /** A number between `lo` and `hi` lands in [0, 1] under the min-max map. */
  lemma UnitInterval(lo: real, hi: real, x: real)
    requires lo <= x <= hi
    ensures 0.0 <= Scaled(Fitted(lo, if hi == lo then 1.0 else hi - lo), x) <= 1.0
  {
    var d := if hi == lo then 1.0 else hi - lo;
    var a := Scaled(Fitted(lo, d), x);
    ScaledTimesDivisor(Fitted(lo, d), x);
    if hi == lo {
      assert a * d == 0.0;
    } else {
      assert d == hi - lo && a * d == x - lo;
    }
    UnitFactorBounds(a, d);
  }

  /** Min-max scaling maps a present number of the column into [0, 1]. */
  lemma MinMaxCell(col: seq<Cell>, i: nat)
    requires i < |col| && col[i].Some? && col[i].value.Num?
    ensures var r := ScaleCells(col, MinMaxFitted(col))[i];
      r.Some? && r.value.Num? && 0.0 <= r.value.x <= 1.0
  {
    var xs := PresentNumbers(col);
    var x := col[i].value.x;
    PresentNumbersExact(col);
    assert x in xs;
    var lo, hi := Min(xs), Max(xs);
    var p := MinMaxFitted(col);
    assert p == Fitted(lo, if hi == lo then 1.0 else hi - lo);
    ScaleCellsAt(col, p, i);
    assert lo <= x <= hi;
    UnitInterval(lo, hi, x);
  }

  /** Min-max scaling maps every present number of the column into [0, 1]. */
  lemma MinMaxUnitRange(col: seq<Cell>)
    ensures forall i | 0 <= i < |col| && col[i].Some? && col[i].value.Num? ::
      var r := ScaleCells(col, MinMaxFitted(col))[i];
      r.Some? && r.value.Num? && 0.0 <= r.value.x <= 1.0
  {
    forall i | 0 <= i < |col| && col[i].Some? && col[i].value.Num?
      ensures var r := ScaleCells(col, MinMaxFitted(col))[i];
        r.Some? && r.value.Num? && 0.0 <= r.value.x <= 1.0
    {
      MinMaxCell(col, i);
    }
  }

  lemma ZeroFactor(a: real, d: real)
    requires a * d == 0.0 && d != 0.0
    ensures a == 0.0
  {
  }

  /** `y` is the image of `x` when `y` times the divisor is `x - shift`. */
  lemma ScaledEquals(p: Fitted, x: real, y: real)
    requires p.divisor != 0.0 && y * p.divisor == x - p.shift
    ensures Scaled(p, x) == y
  {
    ScaledTimesDivisor(p, x);
    assert (Scaled(p, x) - y) * p.divisor == 0.0;
    ZeroFactor(Scaled(p, x) - y, p.divisor);
  }

  /** Under the min-max map `lo` goes to 0 and, when `lo < hi`, `hi` goes to 1. */
  lemma EndpointImages(lo: real, hi: real)
    requires lo <= hi
    ensures Scaled(Fitted(lo, if hi == lo then 1.0 else hi - lo), lo) == 0.0
    ensures lo < hi ==> Scaled(Fitted(lo, hi - lo), hi) == 1.0
  {
    ScaledEquals(Fitted(lo, if hi == lo then 1.0 else hi - lo), lo, 0.0);
    if lo < hi {
      ScaledEquals(Fitted(lo, hi - lo), hi, 1.0);
    }
  }

  /** The smallest present number becomes 0 and, unless the column is
      constant, the largest becomes 1. */
  lemma MinMaxEndpoints(col: seq<Cell>)
    requires |PresentNumbers(col)| > 0
    ensures Some(Num(0.0)) in ScaleCells(col, MinMaxFitted(col))
    ensures Min(PresentNumbers(col)) < Max(PresentNumbers(col)) ==>
      Some(Num(1.0)) in ScaleCells(col, MinMaxFitted(col))
  {
    var xs := PresentNumbers(col);
    var lo, hi := Min(xs), Max(xs);
    var p := MinMaxFitted(col);
    assert p == Fitted(lo, if hi == lo then 1.0 else hi - lo);
    var r := ScaleCells(col, p);
    PresentNumbersExact(col);
    EndpointImages(lo, hi);
    assert Some(Num(lo)) in col;
    var i :| 0 <= i < |col| && col[i] == Some(Num(lo));
    ScaleCellsAt(col, p, i);
    assert r[i] == Some(Num(0.0));
    if lo < hi {
      assert Some(Num(hi)) in col;
      var j :| 0 <= j < |col| && col[j] == Some(Num(hi));
      ScaleCellsAt(col, p, j);
      assert r[j] == Some(Num(1.0));
    }
  }

  lemma FactorOrder(a: real, b: real, d: real)
    requires d > 0.0 && a * d <= b * d
    ensures a <= b
  {
  }

  /** A fitted map with a positive divisor keeps the order of numbers. */
  lemma ScaledMonotone(p: Fitted, x: real, y: real)
    requires p.divisor > 0.0 && x <= y
    ensures Scaled(p, x) <= Scaled(p, y)
  {
    ScaledTimesDivisor(p, x);
    ScaledTimesDivisor(p, y);
    FactorOrder(Scaled(p, x), Scaled(p, y), p.divisor);
  }

  /** Min-max scaling keeps the order of the present numbers. */
  lemma MinMaxMonotone(col: seq<Cell>, i: nat, j: nat)
    requires i < |col| && j < |col|
    requires col[i].Some? && col[i].value.Num? && col[j].Some? && col[j].value.Num?
    requires col[i].value.x <= col[j].value.x
    ensures var a, b := ScaleCells(col, MinMaxFitted(col))[i], ScaleCells(col, MinMaxFitted(col))[j];
      a.Some? && a.value.Num? && b.Some? && b.value.Num? && a.value.x <= b.value.x
  {
    var p := MinMaxFitted(col);
    ScaleCellsAt(col, p, i);
    ScaleCellsAt(col, p, j);
    ScaledMonotone(p, col[i].value.x, col[j].value.x);
  }

  /** `normalize`: after min-max scaling every present number of a numeric
      column lies in [0, 1]. */
  lemma NormalizeUnitRange(t: Table)
    requires Rectangular(t)
    ensures forall i, j | 0 <= i < |t.rows| && 0 <= j < |t.columns| && t.columns[j].kind == Numeric ::
      var c := Rescale(t, MinMaxScaler).rows[i][j];
      c.Some? ==> c.value.Num? && 0.0 <= c.value.x <= 1.0
  {
    RescaleShape(t, MinMaxScaler);
    forall i, j | 0 <= i < |t.rows| && 0 <= j < |t.columns| && t.columns[j].kind == Numeric
      ensures var c := Rescale(t, MinMaxScaler).rows[i][j];
        c.Some? ==> c.value.Num? && 0.0 <= c.value.x <= 1.0
    {
      var col := ColumnCells(t, j);
      MinMaxUnitRange(col);
      assert Fits(Numeric, col[i]);
      assert Rescale(t, MinMaxScaler).rows[i][j] == ColumnCells(Rescale(t, MinMaxScaler), j)[i];
    }
  }
}
