/** Tab "Subject-wise Detailed Comparison": the block of subject columns that follows the
    "delivery of lecture" anchor, each subject's label and its mean. */
module Subjects {
  import opened Numeric
  import opened Tables
  import opened Roles
  import opened Reports

  datatype SubjectRow = SubjectRow(subject: string, average: real)

  /** The block found from position `start` of `cols`: the columns from `start` on, up to but
      excluding the first column that fails the test `numeric` (or the end of the frame). */
  predicate IsBlock(cols: seq<string>, start: nat, block: seq<string>, numeric: string -> bool)
  {
    start + |block| <= |cols| && block == cols[start..start + |block|] &&
    (forall c :: c in block ==> numeric(c)) &&
    (start + |block| < |cols| ==> !numeric(cols[start + |block|]))
  }

  /** The subject block of a frame: the test is whether a column holds at least one number. */
  predicate IsSubjectBlock(t: Table, start: nat, block: seq<string>)
  {
    IsBlock(t.columns, start, block, c => HasNumeric(t.rows, c))
  }

  /** Only one block fits that description: the scan's result is determined. */
  lemma SubjectBlockUnique(cols: seq<string>, start: nat, numeric: string -> bool, b1: seq<string>, b2: seq<string>)
    requires IsBlock(cols, start, b1, numeric) && IsBlock(cols, start, b2, numeric)
    ensures b1 == b2
  {
  }

  /** The scan stops at the first column that fails the test: when every column from `start` up
      to position `k` passes and column `k` fails, the block is exactly those columns, whatever
      follows `k`. */
  lemma StopsAtFirstGap(cols: seq<string>, start: nat, numeric: string -> bool, k: nat, block: seq<string>)
    requires IsBlock(cols, start, block, numeric)
    requires start <= k < |cols| && !numeric(cols[k])
    requires forall j :: start <= j < k ==> numeric(cols[j])
    ensures block == cols[start..k]
  {
  }

  /** The scan `for c in tail: if numeric: append else: break` from `start`. */
  method SubjectBlock(cols: seq<string>, start: nat, numeric: string -> bool) returns (block: seq<string>)
    requires start <= |cols|
    ensures IsBlock(cols, start, block, numeric)
  {
    block := [];
    var i := start;
    while i < |cols|
      invariant start <= i <= |cols|
      invariant block == cols[start..i]
      invariant forall c :: c in block ==> numeric(c)
    {
      var c := cols[i];
      if numeric(c) {
        assert cols[start..i + 1] == cols[start..i] + [c];
        block := block + [c];
        i := i + 1;
      } else {
        break;
      }
    }
  }

  /** Position of the first non-missing cell, or `|cells|` when all are missing. */
  function FirstPresentAt(cells: seq<Cell>): (k: nat)
    ensures k <= |cells|
    ensures forall j :: 0 <= j < k ==> cells[j] == Missing
    ensures k < |cells| ==> cells[k] != Missing
  {
    if cells == [] || cells[0] != Missing then 0 else 1 + FirstPresentAt(cells[1..])
  }

  /** The first non-missing cell (`.dropna().iloc[0]`), if there is one. */
  function FirstPresent(cells: seq<Cell>): Option<Cell>
  {
    var k := FirstPresentAt(cells);
    if k < |cells| then Some(cells[k]) else None
  }

  /** A subject's label: its column's first non-missing cell as text. */
  function SubjectLabel(cells: seq<Cell>, show: real -> string): Option<string>
  {
    match FirstPresent(cells)
    case Some(c) => Some(CellText(c, show))
    case None => None
  }

  /** A column holding a number has a non-missing cell, so it has a label. */
  lemma NumericHasLabel(rows: seq<Row>, c: string, show: real -> string)
    requires HasNumeric(rows, c)
    ensures SubjectLabel(Column(rows, c), show).Some?
  {
    var cells := Column(rows, c);
    var i :| 0 <= i < |cells| && SafeNum(cells[i]).Some?;
  }

  /** Row `r` reports column `c`: the column's label and the mean of its numbers. */
  predicate Describes(t: Table, c: string, r: SubjectRow, show: real -> string)
  {
    SubjectLabel(Column(t.rows, c), show) == Some(r.subject) &&
    Mean(Numbers(Column(t.rows, c))) == Some(r.average)
  }

  /** One subject's row: the label and the mean of a column that holds a number. */
  function SubjectRowFor(t: Table, c: string, show: real -> string): (r: SubjectRow)
    requires HasNumeric(t.rows, c)
    ensures Describes(t, c, r, show)
  {
    NumericHasLabel(t.rows, c, show);
    var cells := Column(t.rows, c);
    SubjectRow(SubjectLabel(cells, show).value, Mean(Numbers(cells)).value)
  }

  /** One row per subject column, in block order. */
  predicate SubjectRowsOf(t: Table, block: seq<string>, rows: seq<SubjectRow>, show: real -> string)
  {
    |rows| == |block| && forall i :: 0 <= i < |block| ==> Describes(t, block[i], rows[i], show)
  }

  /** The loop building one row per subject column: its label and its mean. */
  method SubjectRows(t: Table, block: seq<string>, show: real -> string) returns (rows: seq<SubjectRow>)
    requires forall c :: c in block ==> HasNumeric(t.rows, c)
    ensures SubjectRowsOf(t, block, rows, show)
  {
    rows := [];
    for i := 0 to |block|
      invariant |rows| == i
      invariant forall k :: 0 <= k < i ==> Describes(t, block[k], rows[k], show)
    {
      assert block[i] in block;
      var row := SubjectRowFor(t, block[i], show);
      rows := rows + [row];
    }
  }

  /** The whole section: an error when there is no anchor column, an error when the block after it
      is empty, and otherwise one row per subject column. `subjectCols` is the block scanned. */
  method SubjectWise(t: Table, show: real -> string) returns (res: Outcome<seq<SubjectRow>>, subjectCols: seq<string>)
    ensures res.NotFound? <==> FindAnchor(t.columns).None?
    ensures FindAnchor(t.columns).Some? ==> IsSubjectBlock(t, FindAnchor(t.columns).value + 1, subjectCols)
    ensures res.NoValues? <==> FindAnchor(t.columns).Some? && subjectCols == []
    ensures res.Ok? ==> SubjectRowsOf(t, subjectCols, res.value, show)
  {
    var section := FindAnchor(t.columns);
    if section.None? {
      return NotFound, [];
    }
    var numeric := c => HasNumeric(t.rows, c);
    subjectCols := SubjectBlock(t.columns, section.value + 1, numeric);
    assert IsSubjectBlock(t, section.value + 1, subjectCols);
    if subjectCols == [] {
      return NoValues, subjectCols;
    }
    assert forall c :: c in subjectCols ==> numeric(c);
    var rows := SubjectRows(t, subjectCols, show);
    res := Ok(rows);
  }
}
