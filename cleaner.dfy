/** The DataCleaner object itself. It holds a frame it never changes; every
    transformation starts from a fresh copy of that frame, updates the copy in
    place and hands it back, and is specified by the pure function on tables
    that describes its result. */
module Cleaner {
  import opened Seqs
  import opened Tables
  import opened Queries
  import opened Imputation
  import opened RowFilters
  import opened Scaling
  import opened Encoding

  /** A data frame: named, typed columns and rows of cells that assignments
      to a column change in place. */
  class Frame {
    var columns: seq<Column>
    var rows: seq<Row>

    /** The table this frame currently holds. */
    function Contents(): Table
      reads this
    {
      Table(columns, rows)
    }

    constructor (t: Table)
      ensures Contents() == t
    {
      columns := t.columns;
      rows := t.rows;
    }

    /** `df.copy()`: a new frame with the same contents, sharing nothing. */
    method Copy() returns (c: Frame)
      ensures fresh(c) && c.Contents() == Contents()
    {
      c := new Frame(Contents());
    }

    /** `df[col] = df[col].fillna(m)` for the column at position `j`. */
    method FillNa(j: nat, m: Option<real>)
      requires Rectangular(Contents()) && j < |columns| && columns[j].kind == Numeric
      modifies this
      ensures Contents() == FillColumn(old(Contents()), j, m)
      ensures Rectangular(Contents())
    {
      var r := FillColumn(Contents(), j, m);
      rows := r.rows;
      assert Rectangular(r) by {
        forall i, k | 0 <= i < |r.rows| && 0 <= k < |r.columns|
          ensures |r.rows[i]| == |r.columns| && Fits(r.columns[k].kind, r.rows[i][k])
        {
          assert r.rows[i] == old(rows)[i][j := FillCell(old(rows)[i][j], m)];
        }
      }
    }

    /** One turn of the loop of `impute_missing_values` at name `c`: when `c`
        names a numeric column that holds a null, that column is filled with
        its mean and the answer is true; otherwise nothing changes. */
    method FillIfNull(c: string) returns (filled: bool)
      requires Rectangular(Contents())
      modifies this
      ensures filled == StepFires(old(Contents()), c)
      ensures Contents() == FillStep(old(Contents()), c)
    {
      filled := false;
      match IndexOf(columns, c)
      case None =>
      case Some(j) =>
        if columns[j].kind == Numeric && HasNull(ColumnCells(Contents(), j)) {
          FillNa(j, Mean(ColumnCells(Contents(), j)));
          filled := true;
        }
    }

    /** `df[numerical_columns] = scaler.fit_transform(df[numerical_columns])`. */
    method AssignScaled(s: Scaler)
      requires WellFormed(Contents())
      modifies this
      ensures Contents() == Rescale(old(Contents()), s)
    {
      RescaleShape(Contents(), s);
      rows := Rescale(Contents(), s).rows;
    }
  }

  /** `DataCleaner`: a frame and the operations on it. */
  class DataCleaner {
    const df: Frame

    constructor (df: Frame)
      ensures this.df == df
    {
      this.df := df;
    }

    /** `_get_copy`. */
    method GetCopy() returns (c: Frame)
      ensures fresh(c) && c.Contents() == df.Contents()
    {
      c := df.Copy();
    }

    /** `impute_missing_values`: visits the requested names (by default the
        numeric columns) in order, and fills every numeric column that still
        holds a null with its mean, recording the name. The result is the
        pointwise imputation `Impute`, the recorded names are `ImputedNames`,
        and the held frame is left as it was. */
    method ImputeMissingValues(columns: Option<seq<string>>) returns (out: Frame, ghost imputed: seq<string>)
      requires WellFormed(df.Contents())
      ensures fresh(out) && unchanged(df)
      ensures var names := if columns.Some? then columns.value else NumericColumns(df.Contents());
        out.Contents() == Impute(df.Contents(), names) &&
        imputed == ImputedNames(df.Contents(), names)
    {
      var t := df.Contents();
      var names := if columns.Some? then columns.value else NumericColumns(t);
      out := GetCopy();
      imputed := [];
      ImputeNothing(t, []);
      var k := 0;
      while k < |names|
        invariant k <= |names|
        invariant fresh(out)
        invariant out.Contents() == Impute(t, names[..k])
        invariant imputed == ImputedNames(t, names[..k])
      {
        ImputeLoopStep(t, names, k);
        var filled := out.FillIfNull(names[k]);
        if filled {
          imputed := imputed + [names[k]];
        }
        k := k + 1;
      }
      assert names[..k] == names;
    }

    /** `drop_missing_values`: `None` when the frame holds no null, otherwise a
        new frame with the null-free rows. */
    method DropMissingValues() returns (r: Option<Frame>)
      requires Rectangular(df.Contents())
      ensures unchanged(df)
      ensures r.None? <==> DropMissing(df.Contents()).None?
      ensures r.Some? ==> fresh(r.value) && r.value.Contents() == DropMissing(df.Contents()).value
    {
      var copy := GetCopy();
      if TotalNulls(copy.Contents()) == 0 {
        r := None;
      } else {
        var kept := new Frame(DropNa(copy.Contents()));
        r := Some(kept);
      }
    }

    /** `drop_duplicate_rows`: `None` when no row repeats, otherwise a new frame
        with the first occurrence of every row. */
    method DropDuplicateRows() returns (r: Option<Frame>)
      requires Rectangular(df.Contents())
      ensures unchanged(df)
      ensures r.None? <==> DropDuplicates(df.Contents()).None?
      ensures r.Some? ==> fresh(r.value) && r.value.Contents() == DropDuplicates(df.Contents()).value
    {
      var copy := GetCopy();
      if DuplicateCount(df.Contents()) == 0 {
        r := None;
      } else {
        var kept := new Frame(Dedup(copy.Contents()));
        r := Some(kept);
      }
    }

    /** The common shape of `normalize` and `standardize`: copy, and rescale
        the numeric columns of the copy when there are any; `None` stands for
        the `ValueError` the scaler raises when those columns have no row. */
    method RescaleCopy(s: Scaler) returns (out: Option<Frame>)
      requires WellFormed(df.Contents())
      ensures unchanged(df)
      ensures out.None? <==> FitRejects(df.Contents())
      ensures out.Some? ==> fresh(out.value) && out.value.Contents() == Rescale(df.Contents(), s)
    {
      var copy := GetCopy();
      if |NumericColumns(copy.Contents())| == 0 {
        NumericColumnsEmpty(copy.Contents());
        RescaleNoNumeric(copy.Contents(), s);
        out := Some(copy);
      } else if |copy.rows| == 0 {
        out := None;
      } else {
        copy.AssignScaled(s);
        out := Some(copy);
      }
    }

    /** `normalize`: min-max scaling of every numeric column of a copy. */
    method Normalize() returns (out: Option<Frame>)
      requires WellFormed(df.Contents())
      ensures unchanged(df)
      ensures out.None? <==> FitRejects(df.Contents())
      ensures out.Some? ==> fresh(out.value) && out.value.Contents() == Rescale(df.Contents(), MinMaxScaler)
    {
      out := RescaleCopy(MinMaxScaler);
    }

    /** `standardize`: standard scaling of every numeric column of a copy;
        `root` is the square root the scaler takes of the variance. */
    method Standardize(root: real -> real) returns (out: Option<Frame>)
      requires WellFormed(df.Contents())
      ensures unchanged(df)
      ensures out.None? <==> FitRejects(df.Contents())
      ensures out.Some? ==> fresh(out.value) && out.value.Contents() == Rescale(df.Contents(), StandardScaler(root))
    {
      out := RescaleCopy(StandardScaler(root));
    }

    /** `apply_one_hot_encoding`: a new frame in which every non-numeric column
        of a copy is replaced by its indicator columns. A frame without columns
        leaves `get_dummies` nothing to concatenate, and the `ValueError` it
        raises is `None`. */
    method ApplyOneHotEncoding() returns (out: Option<Frame>)
      requires WellFormed(df.Contents())
      ensures unchanged(df)
      ensures out.None? <==> |df.Contents().columns| == 0
      ensures out.Some? ==> fresh(out.value) && out.value.Contents() == OneHot(df.Contents())
    {
      var copy := GetCopy();
      if |copy.columns| == 0 {
        out := None;
      } else {
        var encoded := new Frame(OneHot(copy.Contents()));
        out := Some(encoded);
      }
    }
  }
}
