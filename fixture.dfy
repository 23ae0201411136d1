/** The five-row sample table of the source's tests (ages, salaries and
    departments, one missing age and one missing salary) and what the model
    says each operation does to it. */
module Fixture {
  import opened Seqs
  import opened Tables
  import opened Queries
  import opened Imputation
  import opened RowFilters
  import opened Collation
  import opened Encoding

  function Sample(): (t: Table)
    ensures WellFormed(t)
  {
    Table(
      [Column("age", Numeric), Column("salary", Numeric), Column("department", Other)],
      [ [Some(Num(25.0)), Some(Num(50000.0)), Some(Str("HR"))],
        [Some(Num(30.0)), Some(Num(55000.0)), Some(Str("Finance"))],
        [Some(Num(35.0)), Some(Num(60000.0)), Some(Str("IT"))],
        [None,            Some(Num(45000.0)), Some(Str("HR"))],
        [Some(Num(40.0)), None,               Some(Str("Finance"))] ])
  }

  /** The ages, with the fourth missing. */
  lemma SampleAges()
    ensures ColumnCells(Sample(), 0) == [Some(Num(25.0)), Some(Num(30.0)), Some(Num(35.0)), None, Some(Num(40.0))]
  {
  }

  /** The salaries, with the fifth missing. */
  lemma SampleSalaries()
    ensures ColumnCells(Sample(), 1) == [Some(Num(50000.0)), Some(Num(55000.0)), Some(Num(60000.0)), Some(Num(45000.0)), None]
  {
  }

  /** The departments, all present. */
  lemma SampleDepartments()
    ensures ColumnCells(Sample(), 2) == [Some(Str("HR")), Some(Str("Finance")), Some(Str("IT")), Some(Str("HR")), Some(Str("Finance"))]
  {
  }

  /** One null in each numeric column, none among the departments. */
  lemma SampleNullCounts()
    ensures NullCounts(Sample()) == [("age", 1), ("salary", 1), ("department", 0)]
  {
    var t := Sample();
    SampleAges();
    SampleSalaries();
    SampleDepartments();
    assert CountNulls(ColumnCells(t, 0)) == 1;
    assert CountNulls(ColumnCells(t, 1)) == 1;
    assert CountNulls(ColumnCells(t, 2)) == 0;
  }

  /** Three numbers, a null and a number: the missing age. */
  lemma PresentGapAt3(a: real, b: real, c: real, d: real)
    ensures PresentNumbers([Some(Num(a)), Some(Num(b)), Some(Num(c)), None, Some(Num(d))]) == [a, b, c, d]
  {
    var s0: seq<Cell> := [];
    var s1 := s0 + [Some(Num(a))];
    var s2 := s1 + [Some(Num(b))];
    var s3 := s2 + [Some(Num(c))];
    var s4 := s3 + [None];
    var s5 := s4 + [Some(Num(d))];
    PresentNumbersSnoc(s0, Some(Num(a)));
    PresentNumbersSnoc(s1, Some(Num(b)));
    PresentNumbersSnoc(s2, Some(Num(c)));
    PresentNumbersSnoc(s3, None);
    PresentNumbersSnoc(s4, Some(Num(d)));
    assert PresentNumbers(s5) == [] + [a] + [b] + [c] + [] + [d];
    assert s5 == [Some(Num(a)), Some(Num(b)), Some(Num(c)), None, Some(Num(d))];
  }

  /** Four numbers and a null: the missing salary. */
  lemma PresentGapAt4(a: real, b: real, c: real, d: real)
    ensures PresentNumbers([Some(Num(a)), Some(Num(b)), Some(Num(c)), Some(Num(d)), None]) == [a, b, c, d]
  {
    var s0: seq<Cell> := [];
    var s1 := s0 + [Some(Num(a))];
    var s2 := s1 + [Some(Num(b))];
    var s3 := s2 + [Some(Num(c))];
    var s4 := s3 + [Some(Num(d))];
    var s5 := s4 + [None];
    PresentNumbersSnoc(s0, Some(Num(a)));
    PresentNumbersSnoc(s1, Some(Num(b)));
    PresentNumbersSnoc(s2, Some(Num(c)));
    PresentNumbersSnoc(s3, Some(Num(d)));
    PresentNumbersSnoc(s4, None);
    assert PresentNumbers(s5) == [] + [a] + [b] + [c] + [d] + [];
    assert s5 == [Some(Num(a)), Some(Num(b)), Some(Num(c)), Some(Num(d)), None];
  }

  lemma SumOfFour(a: real, b: real, c: real, d: real)
    ensures Sum([a, b, c, d]) == a + b + c + d
  {
    assert Sum([]) == 0.0;
    SumSnoc([], a);
    assert [] + [a] == [a];
    SumSnoc([a], b);
    assert [a] + [b] == [a, b];
    SumSnoc([a, b], c);
    assert [a, b] + [c] == [a, b, c];
    SumSnoc([a, b, c], d);
    assert [a, b, c] + [d] == [a, b, c, d];
  }

  /** The column means the default imputation uses: 32.5 for the ages and
      52500 for the salaries. */
  lemma SampleMeans()
    ensures Mean(ColumnCells(Sample(), 0)) == Some(32.5)
    ensures Mean(ColumnCells(Sample(), 1)) == Some(52500.0)
  {
    SampleMeanAge();
    SampleMeanSalary();
  }

  lemma SampleMeanAge()
    ensures Mean(ColumnCells(Sample(), 0)) == Some(32.5)
  {
    SampleAges();
    PresentGapAt3(25.0, 30.0, 35.0, 40.0);
    SumOfFour(25.0, 30.0, 35.0, 40.0);
  }

  lemma SampleMeanSalary()
    ensures Mean(ColumnCells(Sample(), 1)) == Some(52500.0)
  {
    SampleSalaries();
    PresentGapAt4(50000.0, 55000.0, 60000.0, 45000.0);
    SumOfFour(50000.0, 55000.0, 60000.0, 45000.0);
  }

  /** The numeric columns are the ages and the salaries. */
  lemma SampleNumericColumns()
    ensures NumericColumns(Sample()) == ["age", "salary"]
  {
    SampleNumericIndices();
  }

  lemma SampleNumericIndices()
    ensures NumericIndices(Sample().columns) == [0, 1]
  {
    var cols := Sample().columns;
    assert KeptIndices(cols[..1], IsNumeric) == [0] by {
      assert cols[..1][..0] == [];
    }
    assert KeptIndices(cols[..2], IsNumeric) == [0, 1] by {
      assert cols[..2][..1] == cols[..1];
    }
    assert NumericIndices(cols) == [0, 1] by {
      assert cols[..2] == cols[..|cols| - 1];
    }
  }

  /** The default imputation reports both numeric columns, in order. */
  lemma SampleImputedNames()
    ensures ImputedNames(Sample(), ["age", "salary"]) == ["age", "salary"]
  {
    var t := Sample();
    SampleAgeFires();
    SampleSalaryFires();
    ImputedNamesSnoc(t, [], "age");
    ImputedNamesSnoc(t, ["age"], "salary");
    assert [] + ["age"] == ["age"];
    assert ["age"] + ["salary"] == ["age", "salary"];
  }

  /** The ages hold a null, so the loop fills them at the first name. */
  lemma SampleAgeFires()
    ensures Fires(Sample(), [], "age")
  {
    SampleAges();
    assert IndexOf(Sample().columns, "age") == Some(0);
    assert HasNull(ColumnCells(Sample(), 0));
  }

  /** The salaries hold a null, so the loop fills them after the ages. */
  lemma SampleSalaryFires()
    ensures Fires(Sample(), ["age"], "salary")
  {
    SampleSalaries();
    assert IndexOf(Sample().columns, "salary") == Some(1);
    assert HasNull(ColumnCells(Sample(), 1));
  }

  /** The default imputation fills the missing age with 32.5 and the missing
      salary with 52500 and leaves no null in either column. */
  lemma SampleImpute()
    ensures var r := Impute(Sample(), NumericColumns(Sample()));
      |r.rows| == 5 && r.rows[3][0] == Some(Num(32.5)) && r.rows[4][1] == Some(Num(52500.0)) &&
      CountNulls(ColumnCells(r, 0)) == 0 && CountNulls(ColumnCells(r, 1)) == 0
    ensures ImputedNames(Sample(), NumericColumns(Sample())) == ["age", "salary"]
  {
    SampleNumericColumns();
    SampleImputedNames();
    SampleImputeAge();
    SampleImputeSalary();
  }

  /** The missing age becomes the mean age and no age is left missing. */
  lemma SampleImputeAge()
    ensures var r := Impute(Sample(), ["age", "salary"]);
      |r.rows| == 5 && r.rows[3][0] == Some(Num(32.5)) && CountNulls(ColumnCells(r, 0)) == 0
  {
    var t := Sample();
    SampleAges();
    assert HasNull(ColumnCells(t, 0));
    SampleMeanAge();
    ImputeTargetColumn(t, ["age", "salary"], 0);
  }

  /** The missing salary becomes the mean salary and no salary is left missing. */
  lemma SampleImputeSalary()
    ensures var r := Impute(Sample(), ["age", "salary"]);
      |r.rows| == 5 && r.rows[4][1] == Some(Num(52500.0)) && CountNulls(ColumnCells(r, 1)) == 0
  {
    var t := Sample();
    SampleSalaries();
    assert HasNull(ColumnCells(t, 1));
    SampleMeanSalary();
    ImputeTargetColumn(t, ["age", "salary"], 1);
  }

  /** Five rows of which only the first three hold no null. */
  lemma DropNaOfFive(rows: seq<Row>)
    requires |rows| == 5 && NullFree(rows[0]) && NullFree(rows[1]) && NullFree(rows[2])
    requires !NullFree(rows[3]) && !NullFree(rows[4])
    ensures Filter(rows, NullFree) == rows[..3]
  {
    var head := rows[..3];
    assert NullFree(head[0]) && NullFree(head[1]) && NullFree(head[2]);
    FilterAll(head, NullFree);
    FilterSnoc(head, rows[3], NullFree);
    assert head + [rows[3]] == rows[..4];
    FilterSnoc(rows[..4], rows[4], NullFree);
    assert rows[..4] + [rows[4]] == rows;
  }

  /** `dropna` on the sample keeps its first three rows, the last two
      holding a null. */
  lemma SampleDropNa()
    ensures DropNa(Sample()).rows == Sample().rows[..3]
  {
    DropNaOfFive(Sample().rows);
  }

  /** Two rows hold a null, so `drop_missing_values` answers the first three. */
  lemma SampleDropMissing()
    ensures DropMissing(Sample()).Some?
    ensures DropMissing(Sample()).value.rows == Sample().rows[..3]
  {
    assert !NullFree(Sample().rows[3]);
    SampleDropNa();
  }

  /** No two rows of the sample are equal, so `drop_duplicate_rows` finds
      nothing to remove and answers `None`. */
  lemma SampleNoDuplicates()
    ensures DuplicateCount(Sample()) == 0
    ensures DropDuplicates(Sample()).None?
  {
    var rows := Sample().rows;
    assert Distinct(rows) by {
      forall a, b | 0 <= a < b < |rows| ensures rows[a] != rows[b] {
        assert rows[a][0] != rows[b][0] || rows[a][1] != rows[b][1];
      }
    }
  }

  /** Two numeric columns and one other: two thirds and one third. */
  lemma SampleTypeCounts()
    ensures TypeCounts(Sample()) ==
      [TypeCount(Numeric, 2, 200.0 / 3.0), TypeCount(Other, 1, 100.0 / 3.0)]
  {
    var cols := Sample().columns;
    assert KindCount(cols[..1], Numeric) == 1 && KindCount(cols[..1], Other) == 0 by {
      assert cols[..1][..0] == [];
    }
    assert KindCount(cols[..2], Numeric) == 2 && KindCount(cols[..2], Other) == 0 by {
      assert cols[..2][..1] == cols[..1];
    }
    assert KindCount(cols, Numeric) == 2 && KindCount(cols, Other) == 1 by {
      assert cols[..2] == cols[..|cols| - 1];
    }
  }

  /** The departments are Finance, HR and IT, in that order. */
  lemma SampleCategories()
    ensures Categories(ColumnCells(Sample(), 2)) == ["Finance", "HR", "IT"]
    ensures ColumnLevels(Sample(), 2) == ["HR", "IT"]
  {
    SampleDepartments();
    assert Less("Finance", "HR") && Less("HR", "IT");
    CategoriesOfThree("Finance", "HR", "IT");
  }

  /** Five cells holding the labels `b`, `a`, `c`, `b`, `a`, in which `a`
      sorts before `b` and `b` before `c`: the categories are `a`, `b`, `c`. */
  lemma CategoriesOfThree(a: string, b: string, c: string)
    requires Less(a, b) && Less(b, c)
    ensures Categories([Some(Str(b)), Some(Str(a)), Some(Str(c)), Some(Str(b)), Some(Str(a))]) == [a, b, c]
  {
    var cells := [Some(Str(b)), Some(Str(a)), Some(Str(c)), Some(Str(b)), Some(Str(a))];
    var expected := [a, b, c];
    LessTransitive(a, b, c);
    assert forall y :: y in expected <==> Some(Str(y)) in cells;
    SortedUnique(Categories(cells), expected);
  }

  lemma SampleOtherIndices()
    ensures OtherIndices(Sample().columns) == [2]
  {
    var cols := Sample().columns;
    assert KeptIndices(cols[..1], IsOther) == [] by {
      assert cols[..1][..0] == [];
    }
    assert KeptIndices(cols[..2], IsOther) == [] by {
      assert cols[..2][..1] == cols[..1];
    }
    assert cols[..2] == cols[..|cols| - 1];
  }

  /** The header block of the one non-numeric column, the last of three. */
  lemma HeaderBlockOfThird(cols: seq<Column>, l1: string, l2: string)
    requires |cols| == 3 && OtherIndices(cols) == [2]
    ensures HeaderBlocks(cols, [[l1, l2]]) ==
      [[IndicatorColumn(cols[2], l1), IndicatorColumn(cols[2], l2)]]
  {
    assert IndicatorColumns(cols[2], [l1, l2]) ==
      [IndicatorColumn(cols[2], l1), IndicatorColumn(cols[2], l2)];
  }

  /** The numeric columns of a header whose first two columns are numeric. */
  lemma NumericOfThree(cols: seq<Column>)
    requires |cols| == 3 && NumericIndices(cols) == [0, 1]
    ensures Select(cols, NumericIndices(cols)) == [cols[0], cols[1]]
  {
  }

  lemma ConcatOfOne<T>(b: seq<T>)
    ensures Concat([b]) == b
  {
    assert [b][..0] == [];
  }

  /** The encoded header of three columns, the last one non-numeric with the
      two levels `l1` and `l2`. */
  lemma EncodedColumnsOfThree(cols: seq<Column>, l1: string, l2: string)
    requires |cols| == 3 && NumericIndices(cols) == [0, 1] && OtherIndices(cols) == [2]
    ensures EncodedColumns(cols, [[l1, l2]]) ==
      [cols[0], cols[1], IndicatorColumn(cols[2], l1), IndicatorColumn(cols[2], l2)]
  {
    var block := [IndicatorColumn(cols[2], l1), IndicatorColumn(cols[2], l2)];
    HeaderBlockOfThird(cols, l1, l2);
    NumericOfThree(cols);
    ConcatOfOne(block);
  }

  lemma SampleLevelLists()
    ensures LevelLists(Sample()) == [["HR", "IT"]]
  {
    SampleOtherIndices();
    SampleCategories();
  }

  lemma SampleEncodedColumns()
    ensures EncodedColumns(Sample().columns, LevelLists(Sample())) ==
      [Column("age", Numeric), Column("salary", Numeric),
       IndicatorColumn(Column("department", Other), "HR"), IndicatorColumn(Column("department", Other), "IT")]
  {
    SampleNumericIndices();
    SampleOtherIndices();
    SampleLevelLists();
    EncodedColumnsOfThree(Sample().columns, "HR", "IT");
  }

  /** One-hot encoding keeps the two numeric columns and replaces the
      departments by indicators for HR and IT, the first category (Finance)
      being dropped. */
  lemma SampleOneHotColumns()
    ensures OneHot(Sample()).columns ==
      [Column("age", Numeric), Column("salary", Numeric),
       Column("department_HR", Numeric), Column("department_IT", Numeric)]
  {
    var t := Sample();
    assert OneHot(t).columns == EncodedColumns(t.columns, LevelLists(t));
    SampleEncodedColumns();
    SampleIndicatorColumns();
  }

  /** The indicator columns of the departments are named `department_HR` and
      `department_IT`. */
  lemma SampleIndicatorColumns()
    ensures IndicatorColumn(Column("department", Other), "HR") == Column("department_HR", Numeric)
    ensures IndicatorColumn(Column("department", Other), "IT") == Column("department_IT", Numeric)
  {
    assert "department" + "_" + "HR" == "department_HR";
    assert "department" + "_" + "IT" == "department_IT";
  }
}
