/** The reference ("Checker") sheet of the workbook-structure file: rows without a person
    number are dropped before the sheet is used as the employee directory. */
module Checker {
  import opened Wrappers
  import opened Masks
  import opened Frames

  /** The name of the sheet that holds the employee directory. */
  const CheckerSheet := "Checker"

  /** `dropna(subset=['Person Number\n(from Department Tab)'])` keeps the rows for which
      this holds. */
  predicate HasPersonNumber(row: Row)
  {
    Get(row, PersonNumber) != Null
  }

  /** Dropping the directory rows that have no person number. */
  function DropBlankPersonNumbers(t: Table): (r: Table)
    requires WellFormed(t) && HasColumns(t, [PersonNumber])
    ensures WellFormed(r) && r.columns == t.columns
  {
    SelectRows(t, MaskOf(t.rows, HasPersonNumber))
  }

  /** The filter keeps exactly the rows whose person number is present, in their original
      order, and leaves the columns alone. */
  lemma DropBlankKeepsNumberedRows(t: Table)
    requires WellFormed(t) && HasColumns(t, [PersonNumber])
    ensures IsSelection(DropBlankPersonNumbers(t).rows, t.rows,
                        seq(|t.rows|, i requires 0 <= i < |t.rows| => t.rows[i][PersonNumber] != Null))
    ensures forall row :: row in DropBlankPersonNumbers(t).rows ==> PersonNumber in row && row[PersonNumber] != Null
  {
    var m := MaskOf(t.rows, HasPersonNumber);
    forall i | 0 <= i < |t.rows|
      ensures PersonNumber in t.rows[i]
    {
      assert PersonNumber in ColumnSet(t.columns);
    }
    assert m == seq(|t.rows|, i requires 0 <= i < |t.rows| => t.rows[i][PersonNumber] != Null);
    MaskSelects(t.rows, m);
    SelectionFrom(DropBlankPersonNumbers(t).rows, t.rows, m);
  }

  /** Reading the workbook's sheets: the cleaned "Checker" sheet, or nothing when the
      workbook has no such sheet. */
  function CleanChecker(sheets: map<string, Table>): (r: Option<Table>)
    requires CheckerSheet in sheets ==>
               WellFormed(sheets[CheckerSheet]) && HasColumns(sheets[CheckerSheet], [PersonNumber])
    ensures r.None? <==> CheckerSheet !in sheets
    ensures r.Some? ==> r.value.columns == sheets[CheckerSheet].columns
    ensures r.Some? ==> forall row :: row in r.value.rows ==> PersonNumber in row && row[PersonNumber] != Null
  {
    if CheckerSheet in sheets then
      DropBlankKeepsNumberedRows(sheets[CheckerSheet]);
      Some(DropBlankPersonNumbers(sheets[CheckerSheet]))
    else None
  }
}
