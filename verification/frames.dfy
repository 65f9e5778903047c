/** In-memory tables as the pipeline sees them after a workbook has been read: an ordered
    list of column names and an ordered list of rows, each row mapping every column name
    to a cell. */
module Frames {
  import opened Masks
  import Strings

  /** A cell as pandas holds it: missing (NaN/None), text, or an integer. */
  datatype Cell = Null | Text(text: string) | Int(value: int)

  /** One row: a value for each column name. */
  type Row = map<string, Cell>

  /** A data frame: column order matters (it is the order written back to the workbook). */
  datatype Table = Table(columns: seq<string>, rows: seq<Row>)

  /** The column names as a set. */
  function ColumnSet(columns: seq<string>): set<string>
  {
    set c | c in columns
  }

  /** Column names are unique and every row has a cell for exactly the table's columns. */
  ghost predicate WellFormed(t: Table)
  {
    && Distinct(t.columns)
    && forall i :: 0 <= i < |t.rows| ==> t.rows[i].Keys == ColumnSet(t.columns)
  }

  /** Every name in `names` is a column of `t` (selecting a missing one is a KeyError). */
  predicate HasColumns(t: Table, names: seq<string>)
  {
    forall c :: c in names ==> c in t.columns
  }

  /** The cell of `row` in column `col`; only read where `col` is known to be a column. */
  function Get(row: Row, col: string): Cell
  {
    if col in row then row[col] else Null
  }

  /** `str(value)` as `astype(str)` renders a cell: a missing value becomes the text "nan",
      and an integer its decimal digits, after a minus sign when it is negative. */
  function Render(c: Cell): (r: string)
    ensures c.Int? && c.value >= 0 ==>
              && |r| > 0 && (forall i :: 0 <= i < |r| ==> Strings.IsDigit(r[i]))
              && Strings.DigitsValue(r) == c.value
    ensures c.Int? && c.value < 0 ==>
              && |r| > 1 && r[0] == '-' && (forall i :: 1 <= i < |r| ==> Strings.IsDigit(r[i]))
              && Strings.DigitsValue(r[1..]) == -c.value
  {
    match c
    case Null => "nan"
    case Text(s) => s
    case Int(n) =>
      var r := Strings.IntToDecimal(n);
      Strings.NatToDecimalValue(if n < 0 then -n else n);
      assert n < 0 ==> r[1..] == Strings.NatToDecimal(-n);
      r
  }

  /** Different integers render differently, so codes built from them differ too. */
  lemma RenderInjectiveOnInts(a: int, b: int)
    requires Render(Int(a)) == Render(Int(b))
    ensures a == b
  {
  }

  /** A table with the same columns whose rows are the entries of `t.rows` selected by `m`
      (`df[m]`). */
  function SelectRows(t: Table, m: seq<bool>): (r: Table)
    requires |m| == |t.rows|
    ensures r.columns == t.columns
    ensures WellFormed(t) ==> WellFormed(r)
  {
    SelectRowsWellFormed(t, m);
    Table(t.columns, Mask(t.rows, m))
  }

  lemma SelectRowsWellFormed(t: Table, m: seq<bool>)
    requires |m| == |t.rows|
    ensures WellFormed(t) ==> WellFormed(Table(t.columns, Mask(t.rows, m)))
  {
    MaskSelects(t.rows, m);
    var r := Mask(t.rows, m);
    if WellFormed(t) {
      forall k | 0 <= k < |r|
        ensures r[k].Keys == ColumnSet(t.columns)
      {
        assert r[k] == t.rows[TrueIndices(m)[k]];
      }
    }
  }

  // Column names used by the pipeline.
  const UniqueCode := "Unique Code"
  const ProjectNumber := "Project Number"
  const ProjectName := "Project Name"
  const EmployeeName := "Employee Name"
  const Resource := "Resource"
  const OrgName := "Expenditure Organization Name"
  const PersonNumber := "Person Number\n(from Department Tab)"
  const FileName := "File Name"
  const DepartmentName := "Department Name"
  const DepartmentManager := "Department Manager"
  const Name := "Name"
  const OracleDate := "Oracle Date"
  const Index := "Index"
}
