/** The dataset a DataCleaner holds: an ordered list of named columns, each
    tagged numeric or not, and rows of cells that are present or null. */
module Tables {
  import opened Seqs

  datatype Option<+T> = None | Some(value: T)

  /** The column classification that `select_dtypes(include=["number"])` makes. */
  datatype Kind = Numeric | Other

  datatype Value = Num(x: real) | Str(s: string)

  datatype Column = Column(name: string, kind: Kind)

  /** A cell is null (`None`) or holds a value. */
  type Cell = Option<Value>

  type Row = seq<Cell>

  datatype Table = Table(columns: seq<Column>, rows: seq<Row>)

  /** Numeric columns hold numbers, the other columns hold labels. */
  predicate Fits(k: Kind, c: Cell) {
    match c
    case None => true
    case Some(v) => if k == Numeric then v.Num? else v.Str?
  }

  /** Every row has one cell per column, of the column's kind. */
  predicate Rectangular(t: Table) {
    forall i | 0 <= i < |t.rows| ::
      |t.rows[i]| == |t.columns| &&
      forall j | 0 <= j < |t.columns| :: Fits(t.columns[j].kind, t.rows[i][j])
  }

  predicate DistinctNames(cols: seq<Column>) {
    forall a, b | 0 <= a < b < |cols| :: cols[a].name != cols[b].name
  }

  /** A table whose columns can be addressed by name, as `df[col]` does. */
  predicate WellFormed(t: Table) {
    Rectangular(t) && DistinctNames(t.columns)
  }

  /** The position of the first column called `name`, if any. */
  function IndexOf(cols: seq<Column>, name: string): (r: Option<nat>)
    ensures r.Some? ==> r.value < |cols| && cols[r.value].name == name
    ensures r.None? <==> forall j | 0 <= j < |cols| :: cols[j].name != name
    decreases |cols|
  {
    if |cols| == 0 then None
    else if cols[0].name == name then Some(0)
    else
      match IndexOf(cols[1..], name)
      case None =>
        assert forall j | 1 <= j < |cols| :: cols[j] == cols[1..][j - 1];
        None
      case Some(k) => Some(k + 1)
  }

  /** With distinct names, the column called `name` is the one `IndexOf` finds. */
  lemma IndexOfUnique(cols: seq<Column>, j: nat)
    requires DistinctNames(cols) && j < |cols|
    ensures IndexOf(cols, cols[j].name) == Some(j)
  {
  }

  /** Column `j` top to bottom: `df[col]`. */
  function ColumnCells(t: Table, j: nat): (r: seq<Cell>)
    requires Rectangular(t) && j < |t.columns|
    ensures |r| == |t.rows|
    ensures forall i | 0 <= i < |r| :: r[i] == t.rows[i][j]
  {
    seq(|t.rows|, i requires 0 <= i < |t.rows| => t.rows[i][j])
  }

  predicate HasNull(cells: seq<Cell>) {
    None in cells
  }

  predicate IsNumeric(c: Column) {
    c.kind == Numeric
  }

  predicate IsOther(c: Column) {
    c.kind == Other
  }

  /** Positions of the numeric columns, in column order. */
  function NumericIndices(cols: seq<Column>): (r: seq<nat>)
    ensures StrictlyIncreasing(r)
    ensures forall k | 0 <= k < |r| :: r[k] < |cols| && cols[r[k]].kind == Numeric
    ensures forall j | 0 <= j < |cols| && cols[j].kind == Numeric :: j in r
  {
    KeptIndices(cols, IsNumeric)
  }

  /** Positions of the non-numeric columns, in column order. */
  function OtherIndices(cols: seq<Column>): (r: seq<nat>)
    ensures StrictlyIncreasing(r)
    ensures forall k | 0 <= k < |r| :: r[k] < |cols| && cols[r[k]].kind == Other
    ensures forall j | 0 <= j < |cols| && cols[j].kind == Other :: j in r
  {
    KeptIndices(cols, IsOther)
  }

  /** `_get_numeric_columns`: the names of the numeric columns, each once and
      in column order. */
  function NumericColumns(t: Table): (r: seq<string>)
    ensures |r| == |NumericIndices(t.columns)|
    ensures forall k | 0 <= k < |r| :: r[k] == t.columns[NumericIndices(t.columns)[k]].name
    ensures forall name :: name in r <==>
      exists j :: 0 <= j < |t.columns| && t.columns[j].name == name && t.columns[j].kind == Numeric
  {
    var idx := NumericIndices(t.columns);
    var r := seq(|idx|, k requires 0 <= k < |idx| => t.columns[idx[k]].name);
    assert forall j | 0 <= j < |t.columns| && t.columns[j].kind == Numeric :: t.columns[j].name in r by {
      forall j | 0 <= j < |t.columns| && t.columns[j].kind == Numeric ensures t.columns[j].name in r {
        var k :| 0 <= k < |idx| && idx[k] == j;
        assert r[k] == t.columns[j].name;
      }
    }
    r
  }

  /** There are no numeric column names exactly when no column is numeric. */
  lemma NumericColumnsEmpty(t: Table)
    ensures NumericColumns(t) == [] <==> forall j | 0 <= j < |t.columns| :: t.columns[j].kind != Numeric
  {
    var idx := NumericIndices(t.columns);
    assert |NumericColumns(t)| == |idx|;
    if idx != [] {
      assert t.columns[idx[0]].kind == Numeric;
    }
  }
}
