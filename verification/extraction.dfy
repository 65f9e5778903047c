/** The category extraction end to end: merge the latest plan with the directory, split
    the merged table by category, and stamp every category table with the run date and
    its row numbers before it is written to its own workbook. */
module Extraction {
  import opened Masks
  import opened Frames
  import Merge
  import Categorizer
  import Sequencer

  /** Every plan row names its organisation. */
  ghost predicate PlanOrgNamesPresent(plan: Table)
  {
    forall j :: 0 <= j < |plan.rows| ==> Get(plan.rows[j], OrgName) != Null
  }

  /** Neither stamped column is among the eight merged columns, so inserting them into a
      category table never collides. */
  lemma StampableColumns()
    ensures OracleDate !in Merge.JoinColumns && Index !in Merge.JoinColumns
  {
    Merge.JoinColumnsDistinct();
    // "Oracle Date" shares its length only with "Unique Code"; no column has five letters.
    var lengths := seq(8, i requires 0 <= i < 8 => |Merge.JoinColumns[i]|);
    assert lengths == [11, 14, 12, 8, 29, 35, 9, 18];
    assert OracleDate[0] != Merge.JoinColumns[0][0];
  }

  /** The merged table meets what the category split needs when the plan names every
      row's organisation: the merge copies that name onto every row it emits. */
  lemma JoinOrgNamesPresent(plan: Table, directory: Table)
    requires Merge.PlanReady(plan) && Merge.DirectoryReady(directory)
    requires PlanOrgNamesPresent(plan)
    ensures Categorizer.OrgNamesPresent(Merge.Join(plan, directory))
  {
    var t := Merge.Join(plan, directory);
    Merge.LeftMergeOrgNames(plan.rows, directory.rows);
    assert t.columns[4] == OrgName;
    forall i | 0 <= i < |t.rows|
      ensures t.rows[i][OrgName] != Null
    {
      assert OrgName in t.rows[i];
      assert Get(t.rows[i], OrgName) != Null;
    }
  }

  /** The tables of `parts` can all be stamped. */
  ghost predicate Stampable(parts: seq<Categorizer.Part>)
  {
    forall k :: 0 <= k < |parts| ==>
      && WellFormed(parts[k].table)
      && OracleDate !in parts[k].table.columns
      && Index !in parts[k].table.columns
  }

  /** The loop over `filtered_dfs` that inserts `Oracle Date` and `Index` into every
      category table: each table keeps its key, removing the two columns gives the table
      back, and its rows are numbered 1 to n. */
  function StampAll(parts: seq<Categorizer.Part>, date: string): (r: seq<Categorizer.Part>)
    requires Stampable(parts)
    ensures |r| == |parts|
    ensures forall k :: 0 <= k < |r| ==> r[k].key == parts[k].key
    ensures forall k :: 0 <= k < |r| ==>
              && WellFormed(r[k].table)
              && r[k].table.columns == [OracleDate, Index] + parts[k].table.columns
              && Sequencer.Unstamp(r[k].table) == parts[k].table
    ensures forall k, i :: 0 <= k < |r| && 0 <= i < |r[k].table.rows| ==>
              && Get(r[k].table.rows[i], Index) == Int(i + 1)
              && Get(r[k].table.rows[i], OracleDate) == Text(date)
  {
    var r := seq(|parts|, k requires 0 <= k < |parts| =>
                   Categorizer.Part(parts[k].key, Sequencer.Stamp(parts[k].table, date)));
    StampAllContents(parts, date, r);
    r
  }

  lemma StampAllContents(parts: seq<Categorizer.Part>, date: string, r: seq<Categorizer.Part>)
    requires Stampable(parts)
    requires |r| == |parts|
    requires forall k :: 0 <= k < |r| ==> r[k] == Categorizer.Part(parts[k].key, Sequencer.Stamp(parts[k].table, date))
    ensures forall k :: 0 <= k < |r| ==>
              && WellFormed(r[k].table)
              && r[k].table.columns == [OracleDate, Index] + parts[k].table.columns
              && Sequencer.Unstamp(r[k].table) == parts[k].table
    ensures forall k, i :: 0 <= k < |r| && 0 <= i < |r[k].table.rows| ==>
              && Get(r[k].table.rows[i], Index) == Int(i + 1)
              && Get(r[k].table.rows[i], OracleDate) == Text(date)
  {
    forall k | 0 <= k < |r|
      ensures WellFormed(r[k].table)
      ensures r[k].table.columns == [OracleDate, Index] + parts[k].table.columns
      ensures Sequencer.Unstamp(r[k].table) == parts[k].table
      ensures forall i :: 0 <= i < |r[k].table.rows| ==>
                && Get(r[k].table.rows[i], Index) == Int(i + 1)
                && Get(r[k].table.rows[i], OracleDate) == Text(date)
    {
      var t := parts[k].table;
      Sequencer.StampContents(t, date);
      Sequencer.UnstampStamp(t, date);
      var c := r[k].table.columns;
      assert c == [c[0], c[1]] + c[2..];
    }
  }

  /** The category workbooks of one extraction run on date `date`: the merged table split
      into the five categories, each stamped. */
  function Extract(plan: Table, directory: Table, date: string): (r: seq<Categorizer.Part>)
    requires Merge.PlanReady(plan) && Merge.DirectoryReady(directory)
    requires PlanOrgNamesPresent(plan)
    ensures |r| == |Categorizer.Keys()|
    ensures forall k :: 0 <= k < |r| ==> r[k].key == Categorizer.Keys()[k]
  {
    var merged := Merge.Join(plan, directory);
    JoinOrgNamesPresent(plan, directory);
    var parts := Categorizer.Categorize(merged);
    StampableColumns();
    Categorizer.CategorizeKeys(merged);
    StampAll(parts, date)
  }

  /** Each category workbook holds, after its two stamped columns, exactly the merged rows
      of its category in merged order, numbered 1 to n and dated with the run date. */
  lemma ExtractContents(plan: Table, directory: Table, date: string)
    requires Merge.PlanReady(plan) && Merge.DirectoryReady(directory)
    requires PlanOrgNamesPresent(plan)
    ensures var merged := Merge.Join(plan, directory);
            var r := Extract(plan, directory, date);
            forall k :: 0 <= k < |r| ==>
              && WellFormed(r[k].table)
              && IsSelection(Sequencer.Unstamp(r[k].table).rows, merged.rows,
                             Categorizer.CategoryMask(merged, Categorizer.SuffixMap[k]))
              && (forall i :: 0 <= i < |r[k].table.rows| ==>
                    Get(r[k].table.rows[i], Index) == Int(i + 1)
                    && Get(r[k].table.rows[i], OracleDate) == Text(date))
  {
    var merged := Merge.Join(plan, directory);
    JoinOrgNamesPresent(plan, directory);
    var r := Extract(plan, directory, date);
    forall k | 0 <= k < |r|
      ensures IsSelection(Sequencer.Unstamp(r[k].table).rows, merged.rows,
                          Categorizer.CategoryMask(merged, Categorizer.SuffixMap[k]))
    {
      Categorizer.PartitionSelects(merged, Categorizer.SuffixMap[k]);
    }
  }
}
