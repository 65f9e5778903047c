/** Joining the latest cleaned plan with the organisational directory (the cleaned
    "Checker" sheet): a left merge of plan rows on `Resource` against directory rows on
    `Name`, projected to eight fixed columns. */
module Merge {
  import opened Wrappers
  import opened Masks
  import opened Frames

  /** The columns kept after the merge, in output order. */
  const JoinColumns := [UniqueCode, ProjectNumber, ProjectName, Resource, OrgName,
                        PersonNumber, FileName, DepartmentManager]

  /** The plan columns the projection reads. */
  const PlanColumns := [UniqueCode, ProjectNumber, ProjectName, Resource, OrgName]

  /** The directory columns selected before the merge. */
  const DirectoryColumns := [PersonNumber, FileName, DepartmentName, DepartmentManager, Name]

  /** What the merge and projection need of the plan: the projected plan columns exist,
      and none of the projected directory columns is also a plan column (pandas would
      rename both copies with `_x`/`_y` and the projection would fail). */
  ghost predicate PlanReady(plan: Table)
  {
    && WellFormed(plan)
    && HasColumns(plan, PlanColumns)
    && PersonNumber !in plan.columns
    && FileName !in plan.columns
    && DepartmentManager !in plan.columns
  }

  /** What the merge needs of the directory: the five selected columns exist. */
  ghost predicate DirectoryReady(directory: Table)
  {
    WellFormed(directory) && HasColumns(directory, DirectoryColumns)
  }

  /** The directory rows whose `Name` equals `key`. Cells compare as values, so a missing
      `Resource` meets a missing `Name`, as pandas merges null keys with each other. */
  function NameMask(key: Cell, directory: seq<Row>): (m: seq<bool>)
    ensures |m| == |directory|
  {
    seq(|directory|, j requires 0 <= j < |directory| => Get(directory[j], Name) == key)
  }

  /** Number of directory rows named `key`. */
  function MatchCount(key: Cell, directory: seq<Row>): nat
  {
    CountTrue(NameMask(key, directory))
  }

  /** The output row for plan row `p` paired with directory row `d`, or with nulls in the
      directory columns when `d` is `None`. */
  function Project(p: Row, d: Option<Row>): (r: Row)
    ensures r.Keys == ColumnSet(JoinColumns)
  {
    map[UniqueCode := Get(p, UniqueCode),
        ProjectNumber := Get(p, ProjectNumber),
        ProjectName := Get(p, ProjectName),
        Resource := Get(p, Resource),
        OrgName := Get(p, OrgName),
        PersonNumber := DirectoryCell(d, PersonNumber),
        FileName := DirectoryCell(d, FileName),
        DepartmentManager := DirectoryCell(d, DepartmentManager)]
  }

  /** A directory cell of the pairing, null when there is no directory row. */
  function DirectoryCell(d: Option<Row>, c: string): Cell
  {
    if d.Some? then Get(d.value, c) else Null
  }

  /** The rows one plan row contributes: one per matching directory row, in directory
      order, or a single row with null directory columns when none matches. */
  function MergeRow(p: Row, directory: seq<Row>): (r: seq<Row>)
    ensures |r| == if MatchCount(Get(p, Resource), directory) == 0 then 1
                   else MatchCount(Get(p, Resource), directory)
  {
    var m := NameMask(Get(p, Resource), directory);
    var matches := Mask(directory, m);
    if |matches| == 0 then [Project(p, None)]
    else seq(|matches|, k requires 0 <= k < |matches| => Project(p, Some(matches[k])))
  }

  /** The left merge: each plan row's contribution, in plan order. */
  function LeftMerge(plan: seq<Row>, directory: seq<Row>): (r: seq<Row>)
    ensures |r| >= |plan|
  {
    if |plan| == 0 then [] else MergeRow(plan[0], directory) + LeftMerge(plan[1..], directory)
  }

  /** `pd.merge(plan, directory[...], left_on='Resource', right_on='Name', how='left')`
      followed by the projection to the eight output columns. */
  function Join(plan: Table, directory: Table): (r: Table)
    requires PlanReady(plan) && DirectoryReady(directory)
    ensures r.columns == JoinColumns
    ensures WellFormed(r)
  {
    var rows := LeftMerge(plan.rows, directory.rows);
    LeftMergeShape(plan.rows, directory.rows);
    JoinColumnsDistinct();
    Table(JoinColumns, rows)
  }

  lemma {:induction false} LeftMergeShape(plan: seq<Row>, directory: seq<Row>)
    ensures forall i :: 0 <= i < |LeftMerge(plan, directory)| ==>
              LeftMerge(plan, directory)[i].Keys == ColumnSet(JoinColumns)
    decreases |plan|
  {
    if |plan| > 0 {
      LeftMergeShape(plan[1..], directory);
    }
  }

  /** The output columns are the eight projected columns, each once. */
  lemma JoinColumnsDistinct()
    ensures Distinct(JoinColumns)
    ensures |JoinColumns| == 8
  {
    // The eight names have eight different lengths.
    var lengths := seq(8, i requires 0 <= i < 8 => |JoinColumns[i]|);
    assert lengths == [11, 14, 12, 8, 29, 35, 9, 18];
  }

  /** The number of output rows the merge is expected to produce: each plan row counts
      once per matching directory row, and at least once. */
  function ExpectedRows(plan: seq<Row>, directory: seq<Row>): nat
  {
    if |plan| == 0 then 0
    else
      var n := MatchCount(Get(plan[0], Resource), directory);
      (if n == 0 then 1 else n) + ExpectedRows(plan[1..], directory)
  }

  /** Cardinality of the left merge: the sum over plan rows of max(1, matches). */
  lemma {:induction false} JoinCardinality(plan: seq<Row>, directory: seq<Row>)
    ensures |LeftMerge(plan, directory)| == ExpectedRows(plan, directory)
    ensures |LeftMerge(plan, directory)| >= |plan|
    decreases |plan|
  {
    if |plan| > 0 {
      JoinCardinality(plan[1..], directory);
    }
  }

  /** The merge distributes over concatenation of plans. */
  lemma {:induction false} LeftMergeAppend(a: seq<Row>, b: seq<Row>, directory: seq<Row>)
    ensures LeftMerge(a + b, directory) == LeftMerge(a, directory) + LeftMerge(b, directory)
    decreases |a|
  {
    if |a| > 0 {
      assert (a + b)[0] == a[0];
      assert (a + b)[1..] == a[1..] + b;
      LeftMergeAppend(a[1..], b, directory);
      ConcatAssoc(MergeRow(a[0], directory), LeftMerge(a[1..], directory), LeftMerge(b, directory));
    } else {
      assert a + b == b;
    }
  }

  /** Output order follows plan order: the rows of plan row `i` form one contiguous
      block, preceded by the rows of the plan rows before it and followed by the rows of
      those after it. */
  lemma LeftMergeBlock(plan: seq<Row>, directory: seq<Row>, i: int)
    requires 0 <= i < |plan|
    ensures LeftMerge(plan, directory)
            == LeftMerge(plan[..i], directory) + MergeRow(plan[i], directory) + LeftMerge(plan[i + 1..], directory)
  {
    LeftMergeSplit(plan, directory, i);
    LeftMergeFrom(plan, directory, i);
    ConcatAssoc(LeftMerge(plan[..i], directory), MergeRow(plan[i], directory), LeftMerge(plan[i + 1..], directory));
  }

  lemma LeftMergeSplit(plan: seq<Row>, directory: seq<Row>, i: int)
    requires 0 <= i < |plan|
    ensures LeftMerge(plan, directory) == LeftMerge(plan[..i], directory) + LeftMerge(plan[i..], directory)
  {
    assert plan == plan[..i] + plan[i..];
    LeftMergeAppend(plan[..i], plan[i..], directory);
  }

  lemma LeftMergeFrom(plan: seq<Row>, directory: seq<Row>, i: int)
    requires 0 <= i < |plan|
    ensures LeftMerge(plan[i..], directory) == MergeRow(plan[i], directory) + LeftMerge(plan[i + 1..], directory)
  {
  }

  lemma ConsIndex<T>(x: T, tail: seq<T>, w: seq<T>)
    requires w == [x] + tail
    ensures |w| == |tail| + 1 && w[0] == x
    ensures forall i :: 0 < i < |w| ==> w[i] == tail[i - 1]
  {
  }

  lemma ConcatAssoc<T>(x: seq<T>, y: seq<T>, z: seq<T>)
    ensures x + (y + z) == (x + y) + z
  {
  }

  /** The rows plan row `p` contributes carry its plan columns and, in directory order,
      the directory columns of each directory row named like its `Resource`; with no
      such row, one row with null directory columns. */
  lemma MergeRowContents(p: Row, directory: seq<Row>)
    ensures var m := NameMask(Get(p, Resource), directory);
            && (CountTrue(m) == 0 ==> MergeRow(p, directory) == [Project(p, None)])
            && (CountTrue(m) > 0 ==>
                  forall k :: 0 <= k < |MergeRow(p, directory)| ==>
                    && TrueIndices(m)[k] < |directory|
                    && Get(directory[TrueIndices(m)[k]], Name) == Get(p, Resource)
                    && MergeRow(p, directory)[k] == Project(p, Some(directory[TrueIndices(m)[k]])))
  {
    var m := NameMask(Get(p, Resource), directory);
    MaskSelects(directory, m);
    var idx := TrueIndices(m);
    if CountTrue(m) > 0 {
      forall k | 0 <= k < |MergeRow(p, directory)|
        ensures idx[k] < |directory| && m[idx[k]]
      {
        assert idx[k] < |m| && m[idx[k]];
      }
    }
  }

  /** The directory row named `key` that comes first, if any. */
  function Lookup(key: Cell, directory: seq<Row>): (r: Option<Row>)
    ensures r.None? <==> forall j :: 0 <= j < |directory| ==> Get(directory[j], Name) != key
    ensures r.Some? ==> exists j :: && 0 <= j < |directory|
                                    && directory[j] == r.value
                                    && Get(directory[j], Name) == key
                                    && forall i :: 0 <= i < j ==> Get(directory[i], Name) != key
  {
    if |directory| == 0 then None
    else if Get(directory[0], Name) == key then Some(directory[0])
    else
      var r := Lookup(key, directory[1..]);
      assert forall j :: 1 <= j < |directory| ==> directory[j] == directory[1..][j - 1];
      r
  }

  /** The directory is keyed uniquely by `Name`. */
  ghost predicate UniqueNames(directory: seq<Row>)
  {
    forall i, j :: 0 <= i < j < |directory| ==> Get(directory[i], Name) != Get(directory[j], Name)
  }

  /** With unique names at most one directory row matches a key. */
  lemma AtMostOneMatch(key: Cell, directory: seq<Row>)
    requires UniqueNames(directory)
    ensures MatchCount(key, directory) <= 1
  {
    CountTrueAtMostOne(NameMask(key, directory));
  }

  /** No match selected exactly when the lookup finds nothing. */
  lemma LookupNone(key: Cell, directory: seq<Row>)
    ensures |Mask(directory, NameMask(key, directory))| == 0 <==> Lookup(key, directory).None?
  {
    var m := NameMask(key, directory);
    if Lookup(key, directory).None? {
      forall i | 0 <= i < |m|
        ensures !m[i]
      {
        assert Get(directory[i], Name) != key;
      }
      CountTrueNone(m);
    } else {
      var j :| 0 <= j < |directory| && Get(directory[j], Name) == key;
      assert m[j];
      MaskSelects(directory, m);
      assert j in TrueIndices(m);
    }
  }

  /** The first selected match is the row the lookup finds. */
  lemma LookupSome(key: Cell, directory: seq<Row>)
    requires Lookup(key, directory).Some?
    ensures |Mask(directory, NameMask(key, directory))| > 0
    ensures Lookup(key, directory) == Some(Mask(directory, NameMask(key, directory))[0])
  {
    LookupNone(key, directory);
    var m := NameMask(key, directory);
    MaskSelects(directory, m);
    var idx := TrueIndices(m);
    var r := Lookup(key, directory);
    var j :| && 0 <= j < |directory| && directory[j] == r.value && Get(directory[j], Name) == key
             && forall i :: 0 <= i < j ==> Get(directory[i], Name) != key;
    assert m[j];
    assert j in idx;
    assert idx[0] < |m| && m[idx[0]];
    assert idx[0] == j by {
      assert !(idx[0] < j);
      var k :| 0 <= k < |idx| && idx[k] == j;
    }
  }

  /** With unique names a plan row contributes exactly one row: the projection with its
      (first and only) directory match. */
  lemma MergeRowUnique(p: Row, directory: seq<Row>)
    requires UniqueNames(directory)
    ensures MergeRow(p, directory) == [Project(p, Lookup(Get(p, Resource), directory))]
  {
    AtMostOneMatch(Get(p, Resource), directory);
    LookupNone(Get(p, Resource), directory);
    if Lookup(Get(p, Resource), directory).Some? {
      LookupSome(Get(p, Resource), directory);
    }
  }

  /** With unique directory names the merge keeps one row per plan row, in plan order,
      each joined with the directory row named by its `Resource` (or nulls). */
  lemma {:induction false} JoinUniqueNames(plan: seq<Row>, directory: seq<Row>)
    requires UniqueNames(directory)
    ensures |LeftMerge(plan, directory)| == |plan|
    ensures forall i :: 0 <= i < |plan| ==>
              LeftMerge(plan, directory)[i] == Project(plan[i], Lookup(Get(plan[i], Resource), directory))
    decreases |plan|
  {
    if |plan| > 0 {
      var tail := LeftMerge(plan[1..], directory);
      MergeRowUnique(plan[0], directory);
      JoinUniqueNames(plan[1..], directory);
      ConsIndex(Project(plan[0], Lookup(Get(plan[0], Resource), directory)), tail, LeftMerge(plan, directory));
      forall i | 0 < i < |plan|
        ensures tail[i - 1] == Project(plan[i], Lookup(Get(plan[i], Resource), directory))
      {
        assert plan[1..][i - 1] == plan[i];
      }
    }
  }

  /** Every row a plan row contributes carries that plan row's organisation name. */
  lemma MergeRowOrgName(p: Row, directory: seq<Row>)
    ensures forall k :: 0 <= k < |MergeRow(p, directory)| ==>
              Get(MergeRow(p, directory)[k], OrgName) == Get(p, OrgName)
  {
    var m := NameMask(Get(p, Resource), directory);
    var matches := Mask(directory, m);
    if |matches| > 0 {
      forall k | 0 <= k < |MergeRow(p, directory)|
        ensures Get(MergeRow(p, directory)[k], OrgName) == Get(p, OrgName)
      {
        assert MergeRow(p, directory)[k] == Project(p, Some(matches[k]));
      }
    }
  }

  /** When every plan row names its organisation, so does every merged row. */
  lemma {:induction false} LeftMergeOrgNames(plan: seq<Row>, directory: seq<Row>)
    requires forall j :: 0 <= j < |plan| ==> Get(plan[j], OrgName) != Null
    ensures forall i :: 0 <= i < |LeftMerge(plan, directory)| ==> Get(LeftMerge(plan, directory)[i], OrgName) != Null
    decreases |plan|
  {
    if |plan| > 0 {
      var head, tail := MergeRow(plan[0], directory), LeftMerge(plan[1..], directory);
      MergeRowOrgName(plan[0], directory);
      LeftMergeOrgNames(plan[1..], directory);
      assert LeftMerge(plan, directory) == head + tail;
      forall i | 0 <= i < |head| + |tail|
        ensures Get((head + tail)[i], OrgName) != Null
      {
        if i >= |head| {
          assert (head + tail)[i] == tail[i - |head|];
        }
      }
    }
  }
}
