/** Mean imputation: in every targeted numeric column that holds a null, each
    null becomes the mean of the column's present values. */
module Imputation {
  import opened Seqs
  import opened Tables
  import opened Queries

  /** The numbers present in `cells`, top to bottom. */
  function PresentNumbers(cells: seq<Cell>): (r: seq<real>)
    ensures |r| <= |cells|
    ensures |r| == 0 <==> forall i | 0 <= i < |cells| :: !(cells[i].Some? && cells[i].value.Num?)
    decreases |cells|
  {
    if |cells| == 0 then []
    else
      var n := |cells| - 1;
      assert forall i | 0 <= i < n :: cells[..n][i] == cells[i];
      PresentNumbers(cells[..n]) + (if cells[n].Some? && cells[n].value.Num? then [cells[n].value.x] else [])
  }

  function Sum(xs: seq<real>): real
    decreases |xs|
  {
    if |xs| == 0 then 0.0 else Sum(xs[..|xs| - 1]) + xs[|xs| - 1]
  }

  lemma PresentNumbersSnoc(cells: seq<Cell>, c: Cell)
    ensures PresentNumbers(cells + [c]) ==
      PresentNumbers(cells) + (if c.Some? && c.value.Num? then [c.value.x] else [])
  {
    assert (cells + [c])[..|cells|] == cells;
  }

  lemma SumSnoc(xs: seq<real>, x: real)
    ensures Sum(xs + [x]) == Sum(xs) + x
  {
    assert (xs + [x])[..|xs|] == xs;
  }

  /** `Series.mean()`: the average of the present numbers, computed exactly;
      `None` stands for the NaN that pandas returns when none is present. */
  function Mean(cells: seq<Cell>): (m: Option<real>)
    ensures m.None? <==> PresentNumbers(cells) == []
  {
    var xs := PresentNumbers(cells);
    if |xs| == 0 then None else Some(Sum(xs) / (|xs| as real))
  }

  lemma {:induction false} SumAbove(xs: seq<real>, c: real)
    requires forall a | 0 <= a < |xs| :: xs[a] > c
    ensures |xs| > 0 ==> Sum(xs) > (|xs| as real) * c
    decreases |xs|
  {
    if |xs| > 0 {
      SumAbove(xs[..|xs| - 1], c);
    }
  }

  lemma {:induction false} SumBelow(xs: seq<real>, c: real)
    requires forall a | 0 <= a < |xs| :: xs[a] < c
    ensures |xs| > 0 ==> Sum(xs) < (|xs| as real) * c
    decreases |xs|
  {
    if |xs| > 0 {
      SumBelow(xs[..|xs| - 1], c);
    }
  }

  lemma MulDiv(s: real, n: real)
    requires n > 0.0
    ensures n * (s / n) == s
  {
  }

  /** The mean lies between the smallest and the largest present number. */
  lemma MeanWithinRange(cells: seq<Cell>)
    requires Mean(cells).Some?
    ensures exists a | 0 <= a < |PresentNumbers(cells)| :: PresentNumbers(cells)[a] <= Mean(cells).value
    ensures exists b | 0 <= b < |PresentNumbers(cells)| :: PresentNumbers(cells)[b] >= Mean(cells).value
  {
    var xs := PresentNumbers(cells);
    var m := Mean(cells).value;
    MulDiv(Sum(xs), |xs| as real);
    SomeAtMost(xs, m);
    SomeAtLeast(xs, m);
  }

  /** Numbers whose sum is their count times `m` include one no larger than `m`. */
  lemma SomeAtMost(xs: seq<real>, m: real)
    requires |xs| > 0 && (|xs| as real) * m == Sum(xs)
    ensures exists a | 0 <= a < |xs| :: xs[a] <= m
  {
    if forall a | 0 <= a < |xs| :: xs[a] > m {
      SumAbove(xs, m);
      assert false;
    }
  }

  /** Numbers whose sum is their count times `m` include one no smaller than `m`. */
  lemma SomeAtLeast(xs: seq<real>, m: real)
    requires |xs| > 0 && (|xs| as real) * m == Sum(xs)
    ensures exists b | 0 <= b < |xs| :: xs[b] >= m
  {
    if forall b | 0 <= b < |xs| :: xs[b] < m {
      SumBelow(xs, m);
      assert false;
    }
  }

  /** Whether column `j` is imputed for the requested `names`: it is named
      there, it is numeric and it holds a null. Unknown names and non-numeric
      columns are skipped without complaint. */
  predicate IsTarget(t: Table, names: seq<string>, j: nat)
    requires Rectangular(t) && j < |t.columns|
  {
    t.columns[j].name in names && t.columns[j].kind == Numeric && HasNull(ColumnCells(t, j))
  }

  /** `fillna(m)` on one cell: a NaN mean fills nothing. */
  function FillCell(c: Cell, m: Option<real>): Cell {
    if c.None? && m.Some? then Some(Num(m.value)) else c
  }

  /** `df[col] = df[col].fillna(m)` for the column at position `j`. */
  function FillColumn(t: Table, j: nat, m: Option<real>): (r: Table)
    requires Rectangular(t) && j < |t.columns|
    ensures r.columns == t.columns && |r.rows| == |t.rows|
    ensures forall i | 0 <= i < |r.rows| :: r.rows[i] == t.rows[i][j := FillCell(t.rows[i][j], m)]
  {
    Table(t.columns, seq(|t.rows|, i requires 0 <= i < |t.rows| => t.rows[i][j := FillCell(t.rows[i][j], m)]))
  }

  function ImputedRow(t: Table, names: seq<string>, i: nat): (r: Row)
    requires Rectangular(t) && i < |t.rows|
    ensures |r| == |t.columns|
  {
    seq(|t.columns|, j requires 0 <= j < |t.columns| =>
      if IsTarget(t, names, j) then FillCell(t.rows[i][j], Mean(ColumnCells(t, j))) else t.rows[i][j])
  }

  /** The table `impute_missing_values(names)` returns, cell by cell: in a
      target column a null becomes the column's mean, taken before any filling;
      every other cell is copied. */
  function Impute(t: Table, names: seq<string>): (r: Table)
    requires Rectangular(t)
  {
    Table(t.columns, seq(|t.rows|, i requires 0 <= i < |t.rows| => ImputedRow(t, names, i)))
  }

  /** Two tables with the same columns, row count and cells are equal. */
  lemma SameCells(a: Table, b: Table)
    requires Rectangular(a) && Rectangular(b)
    requires a.columns == b.columns && |a.rows| == |b.rows|
    requires forall i, j | 0 <= i < |a.rows| && 0 <= j < |a.columns| :: a.rows[i][j] == b.rows[i][j]
    ensures a == b
  {
    forall i | 0 <= i < |a.rows| ensures a.rows[i] == b.rows[i] {
      assert forall j | 0 <= j < |a.columns| :: a.rows[i][j] == b.rows[i][j];
    }
  }

  /** Imputation keeps the column list and the row count, and each cell is
      either copied or a filled null. */
  lemma ImputeAt(t: Table, names: seq<string>)
    requires Rectangular(t)
    ensures Impute(t, names).columns == t.columns
    ensures |Impute(t, names).rows| == |t.rows|
    ensures Rectangular(Impute(t, names))
    ensures forall i, j | 0 <= i < |t.rows| && 0 <= j < |t.columns| ::
      Impute(t, names).rows[i][j] ==
        if IsTarget(t, names, j) then FillCell(t.rows[i][j], Mean(ColumnCells(t, j))) else t.rows[i][j]
  {
    var r := Impute(t, names);
    forall i, j | 0 <= i < |t.rows| && 0 <= j < |t.columns|
      ensures Fits(r.columns[j].kind, r.rows[i][j])
    {
      assert r.rows[i] == ImputedRow(t, names, i);
    }
  }

  /** Imputation yields a table of the same shape. */
  lemma ImputeRectangular(t: Table, names: seq<string>)
    requires Rectangular(t)
    ensures Rectangular(Impute(t, names))
  {
    ImputeAt(t, names);
  }

  /** A filled column holds no null, unless the column had no number to average;
      present cells are never changed. */
  lemma ImputeTargetColumn(t: Table, names: seq<string>, j: nat)
    requires Rectangular(t) && j < |t.columns| && IsTarget(t, names, j)
    ensures forall i | 0 <= i < |t.rows| :: t.rows[i][j].Some? ==> Impute(t, names).rows[i][j] == t.rows[i][j]
    ensures Mean(ColumnCells(t, j)).Some? ==>
      forall i | 0 <= i < |t.rows| :: t.rows[i][j].None? ==>
        Impute(t, names).rows[i][j] == Some(Num(Mean(ColumnCells(t, j)).value))
    ensures Mean(ColumnCells(t, j)).Some? ==> CountNulls(ColumnCells(Impute(t, names), j)) == 0
    ensures Mean(ColumnCells(t, j)).None? ==> ColumnCells(Impute(t, names), j) == ColumnCells(t, j)
  {
    ImputeAt(t, names);
  }

  /** A column that is not a target comes back unchanged. */
  lemma ImputeOtherColumn(t: Table, names: seq<string>, j: nat)
    requires Rectangular(t) && j < |t.columns| && !IsTarget(t, names, j)
    ensures ColumnCells(Impute(t, names), j) == ColumnCells(t, j)
  {
    ImputeAt(t, names);
  }

  /** Imputation depends on the requested names only through the targets they pick. */
  lemma SameTargets(t: Table, a: seq<string>, b: seq<string>)
    requires Rectangular(t)
    requires forall j | 0 <= j < |t.columns| :: IsTarget(t, a, j) == IsTarget(t, b, j)
    ensures Impute(t, a) == Impute(t, b)
  {
    ImputeAt(t, a);
    ImputeAt(t, b);
    SameCells(Impute(t, a), Impute(t, b));
  }

  /** With no target column the result is a plain copy. */
  lemma ImputeNothing(t: Table, names: seq<string>)
    requires Rectangular(t)
    requires forall j | 0 <= j < |t.columns| :: !IsTarget(t, names, j)
    ensures Impute(t, names) == t
  {
    ImputeAt(t, names);
    SameCells(Impute(t, names), t);
  }

  /** When no list is given, the targets are the numeric columns that hold a null. */
  lemma DefaultTargets(t: Table, j: nat)
    requires Rectangular(t) && j < |t.columns|
    ensures IsTarget(t, NumericColumns(t), j) <==> t.columns[j].kind == Numeric && HasNull(ColumnCells(t, j))
  {
  }

  /** If every target column has a number to average, no target column keeps a null. */
  lemma ImputeLeavesNoNulls(t: Table, names: seq<string>)
    requires Rectangular(t)
    requires forall j | 0 <= j < |t.columns| && IsTarget(t, names, j) :: Mean(ColumnCells(t, j)).Some?
    ensures forall j | 0 <= j < |t.columns| && IsTarget(t, names, j) ::
      CountNulls(ColumnCells(Impute(t, names), j)) == 0
  {
    forall j | 0 <= j < |t.columns| && IsTarget(t, names, j)
      ensures CountNulls(ColumnCells(Impute(t, names), j)) == 0
    {
      ImputeTargetColumn(t, names, j);
    }
  }

  /** Imputing the result of an imputation with the same names changes nothing. */
  lemma ImputeIdempotent(t: Table, names: seq<string>)
    requires Rectangular(t)
    ensures Impute(Impute(t, names), names) == Impute(t, names)
  {
    var r := Impute(t, names);
    ImputeAt(t, names);
    ImputeAt(r, names);
    forall j | 0 <= j < |r.columns| && IsTarget(r, names, j)
      ensures Mean(ColumnCells(r, j)).None?
    {
      if IsTarget(t, names, j) {
        ImputeTargetColumn(t, names, j);
      } else {
        ImputeOtherColumn(t, names, j);
      }
    }
    SameCells(Impute(r, names), r);
  }

  /** Whether the loop of `impute_missing_values`, reaching name `c` after the
      names `done`, fills a column and records `c`: `c` names a numeric column
      that holds a null at that moment, which is before its first filling or
      after a filling with a NaN mean. */
  predicate Fires(t: Table, done: seq<string>, c: string)
    requires Rectangular(t)
  {
    match IndexOf(t.columns, c)
    case None => false
    case Some(j) =>
      t.columns[j].kind == Numeric && HasNull(ColumnCells(t, j)) &&
      (c !in done || Mean(ColumnCells(t, j)).None?)
  }

  /** `columns_imputed` after the loop has visited `names`. */
  function ImputedNames(t: Table, names: seq<string>): (r: seq<string>)
    requires Rectangular(t)
    ensures |r| <= |names|
    decreases |names|
  {
    if |names| == 0 then []
    else
      var n := |names| - 1;
      ImputedNames(t, names[..n]) + (if Fires(t, names[..n], names[n]) then [names[n]] else [])
  }

  /** Visiting one more name appends it to the report exactly when it fires. */
  lemma ImputedNamesSnoc(t: Table, done: seq<string>, c: string)
    requires Rectangular(t)
    ensures ImputedNames(t, done + [c]) ==
      ImputedNames(t, done) + (if Fires(t, done, c) then [c] else [])
  {
    assert (done + [c])[..|done|] == done;
  }

  /** No column is reported imputed exactly when no column is a target: the
      condition under which the source logs that nothing was imputed. */
  lemma {:induction false} ImputedNamesEmpty(t: Table, names: seq<string>)
    requires WellFormed(t)
    ensures ImputedNames(t, names) == [] <==> forall j | 0 <= j < |t.columns| :: !IsTarget(t, names, j)
    decreases |names|
  {
    if |names| > 0 {
      var n := |names| - 1;
      var done, c := names[..n], names[n];
      assert names == done + [c];
      ImputedNamesEmpty(t, done);
      match IndexOf(t.columns, c)
      case None =>
        assert forall j | 0 <= j < |t.columns| :: IsTarget(t, names, j) == IsTarget(t, done, j);
      case Some(j) =>
        assert forall k | 0 <= k < |t.columns| && k != j :: IsTarget(t, names, k) == IsTarget(t, done, k) by {
          forall k | 0 <= k < |t.columns| && k != j ensures t.columns[k].name != c {
            if k < j {
              assert t.columns[k].name != t.columns[j].name;
            } else {
              assert t.columns[j].name != t.columns[k].name;
            }
          }
        }
        assert ImputedNames(t, names) == ImputedNames(t, done) + (if Fires(t, done, c) then [c] else []);
        if Fires(t, done, c) {
          assert IsTarget(t, names, j);
          if c in done {
            assert IsTarget(t, done, j);
          }
        } else {
          assert IsTarget(t, names, j) == IsTarget(t, done, j);
        }
    }
  }

  /** What the loop body does at name `c`, as a function of the working copy. */
  predicate StepFires(cur: Table, c: string)
    requires Rectangular(cur)
  {
    match IndexOf(cur.columns, c)
    case None => false
    case Some(j) => cur.columns[j].kind == Numeric && HasNull(ColumnCells(cur, j))
  }

  /** The working copy after the loop body at name `c`: the named column filled
      with its current mean when the step fires, the same copy otherwise. */
  function FillStep(cur: Table, c: string): (r: Table)
    requires Rectangular(cur)
    ensures r.columns == cur.columns
  {
    if StepFires(cur, c) then
      var j := IndexOf(cur.columns, c).value;
      FillColumn(cur, j, Mean(ColumnCells(cur, j)))
    else cur
  }

  /** Adding the name of column `j` to the names changes no other column's status. */
  lemma OtherTargetsKept(t: Table, done: seq<string>, j: nat)
    requires WellFormed(t) && j < |t.columns|
    ensures forall k | 0 <= k < |t.columns| && k != j ::
      IsTarget(t, done + [t.columns[j].name], k) == IsTarget(t, done, k)
  {
    forall k | 0 <= k < |t.columns| && k != j ensures t.columns[k].name != t.columns[j].name {
      if k < j {
        assert t.columns[k].name != t.columns[j].name;
      } else {
        assert t.columns[j].name != t.columns[k].name;
      }
    }
  }

  /** A name that no column carries: nothing happens. */
  lemma StepAbsent(t: Table, done: seq<string>, c: string)
    requires WellFormed(t) && IndexOf(t.columns, c).None?
    ensures !StepFires(Impute(t, done), c) && !Fires(t, done, c)
    ensures Impute(t, done) == Impute(t, done + [c])
  {
    assert Impute(t, done).columns == t.columns;
    SameTargets(t, done, done + [c]);
  }

  /** The name of a column that is already a target: the loop fills it again
      only when its mean is NaN, which leaves it unchanged. */
  lemma StepRepeat(t: Table, done: seq<string>, j: nat)
    requires WellFormed(t) && j < |t.columns| && IsTarget(t, done, j)
    ensures var c := t.columns[j].name;
      StepFires(Impute(t, done), c) == Fires(t, done, c)
    ensures var c := t.columns[j].name; var cur := Impute(t, done);
      Impute(t, done) == Impute(t, done + [c]) &&
      (StepFires(cur, c) ==> FillColumn(cur, j, Mean(ColumnCells(cur, j))) == cur)
  {
    var c := t.columns[j].name;
    var cur := Impute(t, done);
    IndexOfUnique(t.columns, j);
    ImputeRectangular(t, done);
    assert cur.columns == t.columns;
    ImputeTargetColumn(t, done, j);
    OtherTargetsKept(t, done, j);
    SameTargets(t, done, done + [c]);
    if StepFires(cur, c) {
      var filled := FillColumn(cur, j, Mean(ColumnCells(cur, j)));
      SameCells(filled, cur);
    }
  }

  /** The name of a column that is not yet a target: the loop fills it exactly
      when it becomes one, with its own (still original) mean. */
  lemma StepOther(t: Table, done: seq<string>, j: nat)
    requires WellFormed(t) && j < |t.columns| && !IsTarget(t, done, j)
    ensures var c := t.columns[j].name;
      StepFires(Impute(t, done), c) == Fires(t, done, c)
    ensures var c := t.columns[j].name; var cur := Impute(t, done);
      StepFires(cur, c) ==> FillColumn(cur, j, Mean(ColumnCells(cur, j))) == Impute(t, done + [c])
    ensures var c := t.columns[j].name;
      !StepFires(Impute(t, done), c) ==> Impute(t, done) == Impute(t, done + [c])
  {
    var c := t.columns[j].name;
    var cur := Impute(t, done);
    var names := done + [c];
    IndexOfUnique(t.columns, j);
    ImputeRectangular(t, done);
    assert cur.columns == t.columns;
    ImputeOtherColumn(t, done, j);
    OtherTargetsKept(t, done, j);
    if StepFires(cur, c) {
      ImputeAt(t, done);
      ImputeAt(t, names);
      var filled := FillColumn(cur, j, Mean(ColumnCells(cur, j)));
      SameCells(filled, Impute(t, names));
    } else {
      SameTargets(t, done, names);
    }
  }

  /** One turn of the loop replays one more name of the pointwise definition,
      and records the name exactly when `Fires` says so. */
  lemma ImputeStep(t: Table, done: seq<string>, c: string)
    requires WellFormed(t)
    ensures StepFires(Impute(t, done), c) == Fires(t, done, c)
    ensures StepFires(Impute(t, done), c) ==>
      var cur := Impute(t, done);
      var j := IndexOf(cur.columns, c).value;
      FillColumn(cur, j, Mean(ColumnCells(cur, j))) == Impute(t, done + [c])
    ensures !StepFires(Impute(t, done), c) ==> Impute(t, done) == Impute(t, done + [c])
  {
    assert Impute(t, done).columns == t.columns;
    match IndexOf(t.columns, c)
    case None =>
      StepAbsent(t, done, c);
    case Some(j) =>
      if IsTarget(t, done, j) {
        StepRepeat(t, done, j);
      } else {
        StepOther(t, done, j);
      }
  }

  /** The `k`-th turn of the loop, starting from the pointwise imputation of the
      first `k` names, yields the pointwise imputation of the first `k + 1`
      names and records `names[k]` exactly when the step fires. */
  lemma ImputeLoopStep(t: Table, names: seq<string>, k: nat)
    requires WellFormed(t) && k < |names|
    ensures Rectangular(Impute(t, names[..k]))
    ensures FillStep(Impute(t, names[..k]), names[k]) == Impute(t, names[..k + 1])
    ensures ImputedNames(t, names[..k + 1]) ==
      ImputedNames(t, names[..k]) + (if StepFires(Impute(t, names[..k]), names[k]) then [names[k]] else [])
  {
    var done := names[..k];
    assert names[..k + 1] == done + [names[k]];
    ImputeRectangular(t, done);
    ImputeStep(t, done, names[k]);
    ImputedNamesSnoc(t, done, names[k]);
  }
}
