/** The first-run cleaning of a project financial plan table (`first_time_run_pfp`):
    derive the `Unique Code` column, move it to the front, keep the first row per code,
    then drop rows without an employee name and rows of the conversion placeholder. */
module Cleaner {
  import opened Masks
  import opened Frames

  /** The placeholder employee that is never a real person. */
  const Sentinel := "Labor Cost, Conversion Employee"

  /** `str(Project Number) + " - " + str(Employee Name)`. */
  function CodeOf(row: Row): string
  {
    Render(Get(row, ProjectNumber)) + " - " + Render(Get(row, EmployeeName))
  }

  /** The row with its `Unique Code` cell set. */
  function WithCode(row: Row): Row
  {
    row[UniqueCode := Text(CodeOf(row))]
  }

  /** The columns other than `Unique Code` (the list comprehension of the column reorder). */
  predicate NotCodeColumn(c: string)
  {
    c != UniqueCode
  }

  /** The `Unique Code` cell of a row, the key of the de-duplication. */
  function CodeKey(row: Row): Cell
  {
    Get(row, UniqueCode)
  }

  /** `dropna(subset=['Employee Name'])` keeps the rows for which this holds. */
  predicate HasName(row: Row)
  {
    Get(row, EmployeeName) != Null
  }

  /** The final comparison against the placeholder keeps the rows for which this holds. */
  predicate NotSentinel(row: Row)
  {
    Get(row, EmployeeName) != Text(Sentinel)
  }

  /** The columns the cleaner reads. */
  const CleanerInputs := [ProjectNumber, EmployeeName]

  /** The rows with their `Unique Code` cells set. */
  function CodedRows(rows: seq<Row>): (r: seq<Row>)
    ensures |r| == |rows|
    ensures forall i :: 0 <= i < |rows| ==> r[i] == WithCode(rows[i])
  {
    seq(|rows|, i requires 0 <= i < |rows| => WithCode(rows[i]))
  }

  /** Assigning the `Unique Code` column and reordering it to the front. */
  function AddUniqueCode(t: Table): (r: Table)
    requires WellFormed(t) && HasColumns(t, CleanerInputs)
    ensures WellFormed(r)
    ensures r.rows == CodedRows(t.rows)
  {
    var others := Filter(t.columns, NotCodeColumn);
    AddUniqueCodeWellFormed(t, others);
    Table([UniqueCode] + others, CodedRows(t.rows))
  }

  lemma AddUniqueCodeWellFormed(t: Table, others: seq<string>)
    requires WellFormed(t) && others == Filter(t.columns, NotCodeColumn)
    ensures Distinct([UniqueCode] + others)
    ensures ColumnSet([UniqueCode] + others) == ColumnSet(t.columns) + {UniqueCode}
  {
    var m := MaskOf(t.columns, NotCodeColumn);
    MaskSelects(t.columns, m);
    SelectionDistinct(others, t.columns, m);
    SelectionFrom(others, t.columns, m);
    SelectionKeeps(others, t.columns, m);
    var cols := [UniqueCode] + others;
    forall i, j | 0 <= i < j < |cols|
      ensures cols[i] != cols[j]
    {
      if i == 0 {
        assert cols[j] in others;
      }
    }
    forall c | c in ColumnSet(t.columns) + {UniqueCode}
      ensures c in ColumnSet(cols)
    {
      if c != UniqueCode {
        var i :| 0 <= i < |t.columns| && t.columns[i] == c;
        assert m[i] == NotCodeColumn(t.columns[i]);
      }
    }
  }

  /** `Unique Code` becomes the first column and every other column keeps its relative
      order. */
  lemma AddUniqueCodeColumns(t: Table)
    requires WellFormed(t) && HasColumns(t, CleanerInputs)
    ensures |AddUniqueCode(t).columns| > 0 && AddUniqueCode(t).columns[0] == UniqueCode
    ensures IsSelection(AddUniqueCode(t).columns[1..], t.columns, MaskOf(t.columns, NotCodeColumn))
  {
    var others := Filter(t.columns, NotCodeColumn);
    assert AddUniqueCode(t).columns[1..] == others;
    MaskSelects(t.columns, MaskOf(t.columns, NotCodeColumn));
  }

  /** `~duplicated(subset=['Unique Code'])` over coded rows. */
  function FirstCodeMask(coded: seq<Row>): (m: seq<bool>)
    ensures |m| == |coded|
  {
    Not(Duplicated(KeysOf(coded, CodeKey)))
  }

  /** The whole cleaning step: `Unique Code`, `drop_duplicates(keep='first')`, `dropna` on
      the employee name, and the placeholder filter, in that order. */
  function Clean(t: Table): (r: Table)
    requires WellFormed(t) && HasColumns(t, CleanerInputs)
    ensures WellFormed(r)
    ensures |t.rows| == 0 ==> |r.rows| == 0
  {
    var coded := AddUniqueCode(t);
    var unique := SelectRows(coded, FirstCodeMask(coded.rows));
    var named := SelectRows(unique, MaskOf(unique.rows, HasName));
    SelectRows(named, MaskOf(named.rows, NotSentinel))
  }

  /** The codes of the rows, in row order. */
  function Codes(rows: seq<Row>): (cs: seq<string>)
    ensures |cs| == |rows|
  {
    seq(|rows|, i requires 0 <= i < |rows| => CodeOf(rows[i]))
  }

  /** Row `i` survives cleaning: no earlier row has its code, and its employee name is
      present and is not the placeholder. */
  ghost function Survivors(rows: seq<Row>): (m: seq<bool>)
    ensures |m| == |rows|
  {
    seq(|rows|, i requires 0 <= i < |rows| =>
      && FirstOccurrence(Codes(rows), i)
      && Get(rows[i], EmployeeName) != Null
      && Get(rows[i], EmployeeName) != Text(Sentinel))
  }

  /** The mask the three row filters of the cleaner amount to. */
  function CleanMask(coded: seq<Row>): (m: seq<bool>)
    ensures |m| == |coded|
  {
    And(And(FirstCodeMask(coded), MaskOf(coded, HasName)), MaskOf(coded, NotSentinel))
  }

  /** The three row filters collapse to one mask over the coded rows. */
  lemma CleanAsOneMask(t: Table)
    requires WellFormed(t) && HasColumns(t, CleanerInputs)
    ensures Clean(t).rows == Mask(CodedRows(t.rows), CleanMask(CodedRows(t.rows)))
    ensures Clean(t).columns == AddUniqueCode(t).columns
  {
    var c := CodedRows(t.rows);
    var d := FirstCodeMask(c);
    FilterAfterMask(c, d, HasName);
    FilterAfterMask(c, And(d, MaskOf(c, HasName)), NotSentinel);
  }

  /** Setting the code leaves every other cell alone. */
  lemma WithCodeKeeps(row: Row, col: string)
    requires col != UniqueCode
    ensures Get(WithCode(row), col) == Get(row, col)
  {
  }

  /** The key of each coded row is its code. */
  lemma CodedKeys(rows: seq<Row>)
    ensures forall j :: 0 <= j < |rows| ==> KeysOf(CodedRows(rows), CodeKey)[j] == Text(Codes(rows)[j])
  {
    var keys := KeysOf(CodedRows(rows), CodeKey);
    forall j | 0 <= j < |rows|
      ensures keys[j] == Text(Codes(rows)[j])
    {
      assert keys[j] == CodeKey(CodedRows(rows)[j]);
      assert CodedRows(rows)[j] == WithCode(rows[j]);
    }
  }

  /** A coded row is flagged as a duplicate exactly when an earlier row has its code. */
  lemma FirstCodeMaskAt(rows: seq<Row>, i: int)
    requires 0 <= i < |rows|
    ensures FirstCodeMask(CodedRows(rows))[i] == FirstOccurrence(Codes(rows), i)
  {
    var keys := KeysOf(CodedRows(rows), CodeKey);
    DuplicatedFlags(keys);
    CodedKeys(rows);
  }

  lemma CleanMaskAt(rows: seq<Row>, i: int)
    requires 0 <= i < |rows|
    ensures CleanMask(CodedRows(rows))[i] == Survivors(rows)[i]
  {
    var c := CodedRows(rows);
    FirstCodeMaskAt(rows, i);
    WithCodeKeeps(rows[i], EmployeeName);
    assert MaskOf(c, HasName)[i] == HasName(WithCode(rows[i]));
    assert MaskOf(c, NotSentinel)[i] == NotSentinel(WithCode(rows[i]));
  }

  /** The cleaned rows are exactly the coded input rows that survive, in input order. */
  lemma CleanSelectsSurvivors(t: Table)
    requires WellFormed(t) && HasColumns(t, CleanerInputs)
    ensures IsSelection(Clean(t).rows, CodedRows(t.rows), Survivors(t.rows))
  {
    var c := CodedRows(t.rows);
    CleanAsOneMask(t);
    forall i | 0 <= i < |c|
      ensures CleanMask(c)[i] == Survivors(t.rows)[i]
    {
      CleanMaskAt(t.rows, i);
    }
    assert CleanMask(c) == Survivors(t.rows);
    MaskSelects(c, CleanMask(c));
  }

  /** The coded keys repeat exactly where the codes repeat. */
  lemma CodedKeysAt(rows: seq<Row>, i: int)
    requires 0 <= i < |rows|
    ensures FirstOccurrence(KeysOf(CodedRows(rows), CodeKey), i) == FirstOccurrence(Codes(rows), i)
  {
    CodedKeys(rows);
  }

  /** `Unique Code` is the first column of the cleaned table and every other input column
      follows in its original relative order. */
  lemma CleanColumns(t: Table)
    requires WellFormed(t) && HasColumns(t, CleanerInputs)
    ensures |Clean(t).columns| > 0 && Clean(t).columns[0] == UniqueCode
    ensures IsSelection(Clean(t).columns[1..], t.columns, MaskOf(t.columns, NotCodeColumn))
  {
    CleanAsOneMask(t);
    AddUniqueCodeColumns(t);
  }

  /** No two cleaned rows share a `Unique Code`. */
  lemma CleanCodesDistinct(t: Table)
    requires WellFormed(t) && HasColumns(t, CleanerInputs)
    ensures Distinct(KeysOf(Clean(t).rows, CodeKey))
  {
    var c := CodedRows(t.rows);
    var m := Survivors(t.rows);
    CleanSelectsSurvivors(t);
    forall i | 0 <= i < |c| && m[i]
      ensures FirstOccurrence(KeysOf(c, CodeKey), i)
    {
      CodedKeysAt(t.rows, i);
    }
    SelectionOfFirstOccurrences(Clean(t).rows, c, m, CodeKey);
  }

  /** Every cleaned row is an input row that is the first to carry its code and whose
      employee name is present and is not the placeholder; it is unchanged apart from its
      `Unique Code` cell, which holds that row's code. */
  lemma CleanRowsFromInput(t: Table)
    requires WellFormed(t) && HasColumns(t, CleanerInputs)
    ensures forall row :: row in Clean(t).rows ==>
              exists i :: 0 <= i < |t.rows| && Survivors(t.rows)[i] && row == WithCode(t.rows[i])
  {
    CleanSelectsSurvivors(t);
    SelectionFrom(Clean(t).rows, CodedRows(t.rows), Survivors(t.rows));
  }

  /** What a row of the cleaned table looks like: a present, non-placeholder employee
      name, and a `Unique Code` that is the row's own code. */
  lemma CleanRowShape(t: Table)
    requires WellFormed(t) && HasColumns(t, CleanerInputs)
    ensures forall row :: row in Clean(t).rows ==>
              && row[EmployeeName] != Null
              && row[EmployeeName] != Text(Sentinel)
              && row[UniqueCode] == Text(CodeOf(row))
  {
    CleanRowsFromInput(t);
    forall row | row in Clean(t).rows
      ensures row[EmployeeName] != Null && row[EmployeeName] != Text(Sentinel)
      ensures row[UniqueCode] == Text(CodeOf(row))
    {
      var i :| 0 <= i < |t.rows| && Survivors(t.rows)[i] && row == WithCode(t.rows[i]);
      WithCodeKeeps(t.rows[i], EmployeeName);
      WithCodeKeeps(t.rows[i], ProjectNumber);
      assert t.rows[i].Keys == ColumnSet(t.columns);
    }
  }

  /** Setting the code adds the `Unique Code` cell, `str(Project Number) + " - " +
      str(Employee Name)`, and changes nothing else. */
  lemma WithCodeChangesOnlyCode(row: Row)
    requires ProjectNumber in row && EmployeeName in row
    ensures WithCode(row).Keys == row.Keys + {UniqueCode}
    ensures forall c :: c in row && c != UniqueCode ==> WithCode(row)[c] == row[c]
    ensures WithCode(row)[UniqueCode] == Text(Render(row[ProjectNumber]) + " - " + Render(row[EmployeeName]))
  {
  }

  /** Because `astype(str)` renders a missing name as "nan", a row without a name and a
      row whose name is the text "nan" get the same code. */
  lemma NullAndNanShareCode(project: Cell)
    ensures CodeOf(map[ProjectNumber := project, EmployeeName := Null])
         == CodeOf(map[ProjectNumber := project, EmployeeName := Text("nan")])
  {
  }

  /** De-duplication runs before the missing-name filter: when the first row with a code
      has no name, a later row with that code is dropped as a duplicate even though its
      name, the text "nan", is present, and then the first row is dropped for lacking a
      name. Alone, the second row survives. */
  lemma NanRowLostBehindNullRow()
    ensures var nameless := map[ProjectNumber := Text("P-1"), EmployeeName := Null];
            var nan := map[ProjectNumber := Text("P-1"), EmployeeName := Text("nan")];
            && Clean(Table([ProjectNumber, EmployeeName], [nameless, nan])).rows == []
            && Clean(Table([ProjectNumber, EmployeeName], [nan])).rows == [WithCode(nan)]
  {
    NamelessFirstHidesNan();
    NanAloneSurvives();
  }

  /** The row without a name and the "nan" row share a code; cleaning drops both. */
  lemma NamelessFirstHidesNan()
    ensures var nameless := map[ProjectNumber := Text("P-1"), EmployeeName := Null];
            var nan := map[ProjectNumber := Text("P-1"), EmployeeName := Text("nan")];
            Clean(Table([ProjectNumber, EmployeeName], [nameless, nan])).rows == []
  {
    var nameless := map[ProjectNumber := Text("P-1"), EmployeeName := Null];
    var nan := map[ProjectNumber := Text("P-1"), EmployeeName := Text("nan")];
    NullAndNanShareCode(Text("P-1"));
    NamelessHidesSameCode(Table([ProjectNumber, EmployeeName], [nameless, nan]));
  }

  /** Of two rows sharing a code, the first without a name, cleaning keeps neither. */
  lemma NamelessHidesSameCode(t: Table)
    requires WellFormed(t) && HasColumns(t, CleanerInputs)
    requires |t.rows| == 2
    requires Get(t.rows[0], EmployeeName) == Null
    requires CodeOf(t.rows[0]) == CodeOf(t.rows[1])
    ensures Clean(t).rows == []
  {
    CleanSelectsSurvivors(t);
    var m := Survivors(t.rows);
    assert !m[0];
    assert Codes(t.rows)[0] == Codes(t.rows)[1];
    assert !FirstOccurrence(Codes(t.rows), 1);
    assert !m[1];
    CountTrueNone(m);
  }

  /** The "nan" row on its own is kept, with its code. */
  lemma NanAloneSurvives()
    ensures var nan := map[ProjectNumber := Text("P-1"), EmployeeName := Text("nan")];
            Clean(Table([ProjectNumber, EmployeeName], [nan])).rows == [WithCode(nan)]
  {
    var nan := map[ProjectNumber := Text("P-1"), EmployeeName := Text("nan")];
    var one := Table([ProjectNumber, EmployeeName], [nan]);
    CleanSelectsSurvivors(one);
    assert Survivors(one.rows)[0];
    assert TrueIndices(Survivors(one.rows)) == [0];
  }

  /** The cleaned table still has the columns the cleaner reads. */
  lemma CleanKeepsInputs(t: Table)
    requires WellFormed(t) && HasColumns(t, CleanerInputs)
    ensures HasColumns(Clean(t), CleanerInputs)
  {
    CleanColumns(t);
    var c := Clean(t).columns;
    KeptColumn(c[1..], t.columns, ProjectNumber);
    KeptColumn(c[1..], t.columns, EmployeeName);
    assert c == [c[0]] + c[1..];
  }

  /** A column other than `Unique Code` survives the reorder's selection. */
  lemma KeptColumn(rest: seq<string>, columns: seq<string>, name: string)
    requires IsSelection(rest, columns, MaskOf(columns, NotCodeColumn))
    requires name in columns && name != UniqueCode
    ensures name in rest
  {
    var m := MaskOf(columns, NotCodeColumn);
    SelectionKeeps(rest, columns, m);
    var i :| 0 <= i < |columns| && columns[i] == name;
    assert m[i];
  }

  /** Moving `Unique Code` to the front of columns that already start with it, and hold
      it nowhere else, changes nothing. */
  lemma ReorderFixesCodeFirst(columns: seq<string>)
    requires |columns| > 0 && columns[0] == UniqueCode
    requires UniqueCode !in columns[1..]
    ensures [UniqueCode] + Filter(columns, NotCodeColumn) == columns
  {
    var rest := columns[1..];
    assert columns == [UniqueCode] + rest;
    FilterDropsHead(UniqueCode, rest, NotCodeColumn);
    FilterAllPass(rest, NotCodeColumn);
  }

  /** Re-deriving the code of a cleaned table reproduces it. */
  lemma AddUniqueCodeOfClean(t: Table)
    requires WellFormed(t) && HasColumns(t, CleanerInputs)
    ensures HasColumns(Clean(t), CleanerInputs)
    ensures AddUniqueCode(Clean(t)) == Clean(t)
  {
    CleanKeepsInputs(t);
    CleanColumns(t);
    CleanRowShape(t);
    AlreadyCoded(Clean(t));
  }

  /** A table whose code column leads and whose every row carries its own code is left
      as it is by `AddUniqueCode`. */
  lemma AlreadyCoded(c: Table)
    requires WellFormed(c) && HasColumns(c, CleanerInputs)
    requires |c.columns| > 0 && c.columns[0] == UniqueCode
    requires forall row :: row in c.rows ==> row[UniqueCode] == Text(CodeOf(row))
    ensures AddUniqueCode(c) == c
  {
    assert UniqueCode !in c.columns[1..] by {
      forall k | 1 <= k < |c.columns|
        ensures c.columns[k] != UniqueCode
      {
        assert c.columns[0] != c.columns[k];
      }
    }
    ReorderFixesCodeFirst(c.columns);
    forall i | 0 <= i < |c.rows|
      ensures WithCode(c.rows[i]) == c.rows[i]
    {
      assert c.rows[i] in c.rows;
    }
    assert CodedRows(c.rows) == c.rows;
  }

  /** A cleaned table has no duplicate codes to drop. */
  lemma CleanHasNoDuplicates(t: Table)
    requires WellFormed(t) && HasColumns(t, CleanerInputs)
    ensures Mask(Clean(t).rows, FirstCodeMask(Clean(t).rows)) == Clean(t).rows
  {
    var c := Clean(t);
    CleanCodesDistinct(t);
    var keys := KeysOf(c.rows, CodeKey);
    DuplicatedFlags(keys);
    MaskAllTrue(c.rows, FirstCodeMask(c.rows));
  }

  /** A cleaned table has no missing or placeholder names to drop. */
  lemma CleanHasNoBadNames(t: Table)
    requires WellFormed(t) && HasColumns(t, CleanerInputs)
    ensures Filter(Clean(t).rows, HasName) == Clean(t).rows
    ensures Filter(Clean(t).rows, NotSentinel) == Clean(t).rows
  {
    var c := Clean(t);
    CleanRowShape(t);
    forall i | 0 <= i < |c.rows|
      ensures HasName(c.rows[i]) && NotSentinel(c.rows[i])
    {
      assert c.rows[i] in c.rows;
    }
    FilterAllPass(c.rows, HasName);
    FilterAllPass(c.rows, NotSentinel);
  }

  /** Cleaning a cleaned table changes nothing. */
  lemma CleanIdempotent(t: Table)
    requires WellFormed(t) && HasColumns(t, CleanerInputs)
    ensures HasColumns(Clean(t), CleanerInputs)
    ensures Clean(Clean(t)) == Clean(t)
  {
    AddUniqueCodeOfClean(t);
    CleanHasNoDuplicates(t);
    CleanHasNoBadNames(t);
  }
}
