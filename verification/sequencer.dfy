/** Preparing each category table for publication: two leading columns, the run date
    and a 1-based row number, and the workbook name the table is stored under. */
module Sequencer {
  import opened Masks
  import opened Frames

  /** The row `row` at position `i` with the run date and its number added. */
  function StampRow(row: Row, date: string, i: nat): Row
  {
    row[OracleDate := Text(date)][Index := Int(i + 1)]
  }

  /** `df.insert(0, 'Oracle Date', date)` then `df.insert(1, 'Index', range(1, n + 1))`.
      Inserting a column that already exists raises, hence the precondition. */
  function Stamp(t: Table, date: string): (r: Table)
    requires WellFormed(t)
    requires OracleDate !in t.columns && Index !in t.columns
    ensures WellFormed(r)
    ensures |r.rows| == |t.rows|
  {
    var r := Table([OracleDate, Index] + t.columns,
                   seq(|t.rows|, i requires 0 <= i < |t.rows| => StampRow(t.rows[i], date, i)));
    StampWellFormed(t, date, r);
    r
  }

  lemma StampWellFormed(t: Table, date: string, r: Table)
    requires WellFormed(t)
    requires OracleDate !in t.columns && Index !in t.columns
    requires r == Table([OracleDate, Index] + t.columns,
                        seq(|t.rows|, i requires 0 <= i < |t.rows| => StampRow(t.rows[i], date, i)))
    ensures WellFormed(r)
  {
    assert ColumnSet(r.columns) == ColumnSet(t.columns) + {OracleDate, Index};
    forall i, j | 0 <= i < j < |r.columns|
      ensures r.columns[i] != r.columns[j]
    {
      if i >= 2 {
        assert r.columns[i] == t.columns[i - 2] && r.columns[j] == t.columns[j - 2];
      } else {
        assert r.columns[j] in r.columns[1..];
        assert j >= 2 ==> r.columns[j] in t.columns;
      }
    }
  }

  /** The stamped table has the run date at column 0, the row number at column 1, and
      the original columns after them in their order; every row carries the run date and
      its 1-based position, and its other cells are unchanged. */
  lemma StampContents(t: Table, date: string)
    requires WellFormed(t)
    requires OracleDate !in t.columns && Index !in t.columns
    ensures var r := Stamp(t, date);
            && r.columns[0] == OracleDate && r.columns[1] == Index && r.columns[2..] == t.columns
            && (forall i :: 0 <= i < |r.rows| ==> Get(r.rows[i], OracleDate) == Text(date))
            && (forall i :: 0 <= i < |r.rows| ==> Get(r.rows[i], Index) == Int(i + 1))
            && (forall i, c :: 0 <= i < |r.rows| && c in t.columns ==> Get(r.rows[i], c) == Get(t.rows[i], c))
  {
    var r := Stamp(t, date);
    forall i, c | 0 <= i < |r.rows| && c in t.columns
      ensures r.rows[i][c] == t.rows[i][c]
    {
      assert c in ColumnSet(t.columns);
    }
  }

  /** The numbers in the Index column, top to bottom. */
  function IndexColumn(t: Table): seq<Cell>
    requires WellFormed(t) && Index in t.columns
  {
    seq(|t.rows|, i requires 0 <= i < |t.rows| => Get(t.rows[i], Index))
  }

  /** The Index column counts 1, 2, ..., n: its values are pairwise distinct and each
      lies between 1 and the number of rows. */
  lemma IndexCounts(t: Table, date: string)
    requires WellFormed(t)
    requires OracleDate !in t.columns && Index !in t.columns
    ensures var ix := IndexColumn(Stamp(t, date));
            && |ix| == |t.rows|
            && Distinct(ix)
            && (forall i :: 0 <= i < |ix| ==> ix[i].Int? && 1 <= ix[i].value <= |t.rows|)
  {
    StampContents(t, date);
  }

  /** A partition of three rows is numbered exactly 1, 2, 3 and dated with the run date
      throughout. */
  lemma ThreeRowsNumbered(t: Table, date: string)
    requires WellFormed(t) && |t.rows| == 3
    requires OracleDate !in t.columns && Index !in t.columns
    ensures IndexColumn(Stamp(t, date)) == [Int(1), Int(2), Int(3)]
    ensures forall i :: 0 <= i < 3 ==> Get(Stamp(t, date).rows[i], OracleDate) == Text(date)
  {
    StampContents(t, date);
  }

  /** Removing the two added columns again. */
  function Unstamp(t: Table): (r: Table)
    requires |t.columns| >= 2
    ensures |r.rows| == |t.rows|
  {
    Table(t.columns[2..], seq(|t.rows|, i requires 0 <= i < |t.rows| => t.rows[i] - {OracleDate, Index}))
  }

  /** Stamping adds information and loses none: removing the two columns gives back the
      input table. */
  lemma UnstampStamp(t: Table, date: string)
    requires WellFormed(t)
    requires OracleDate !in t.columns && Index !in t.columns
    ensures Unstamp(Stamp(t, date)) == t
  {
    var r := Unstamp(Stamp(t, date));
    forall i | 0 <= i < |t.rows|
      ensures r.rows[i] == t.rows[i]
    {
      assert OracleDate !in t.rows[i] && Index !in t.rows[i];
      assert r.rows[i] == StampRow(t.rows[i], date, i) - {OracleDate, Index};
    }
  }

  /** The workbook a category table is published as: `CPW_Tool_{key}_Main.xlsx`. */
  function CategoryFileName(key: string): (name: string)
    ensures |name| == |key| + 19
    ensures name[9..|name| - 10] == key
  {
    "CPW_Tool_" + key + "_Main.xlsx"
  }

  /** Different categories are published under different names. */
  lemma CategoryFileNameInjective(a: string, b: string)
    requires CategoryFileName(a) == CategoryFileName(b)
    ensures a == b
  {
    assert CategoryFileName(a)[9..|CategoryFileName(a)| - 10] == a;
  }
}
