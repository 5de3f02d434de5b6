/** The unified table: loading the uploaded files into one frame (column-name normalisation,
    `source_file` tagging, concatenation), and selecting rows by the text in one column. */
module Tables {
  import opened Sequences
  import opened Strings
  import opened Numeric

  /** One record: normalised column name to cell; a column the record lacks reads as missing. */
  type Row = map<string, Cell>

  /** A frame: its columns in order and its records in order. */
  datatype Table = Table(columns: seq<string>, rows: seq<Row>)

  const SourceColumn := "source_file"

  function Get(r: Row, c: string): Cell
  {
    if c in r then r[c] else Missing
  }

  /** The cells of column `c`, one per row, in row order. */
  function Column(rows: seq<Row>, c: string): (cells: seq<Cell>)
    ensures |cells| == |rows|
    ensures forall i :: 0 <= i < |rows| ==> cells[i] == Get(rows[i], c)
  {
    if rows == [] then [] else Column(rows[..|rows| - 1], c) + [Get(rows[|rows| - 1], c)]
  }

  // ---------------------------------------------------------------- loading

  /** A parsed upload: its file name, its header as written, and its records (one cell per header entry). */
  datatype RawFile = RawFile(name: string, header: seq<string>, records: seq<seq<Cell>>)

  function NormalizedHeader(f: RawFile): (h: seq<string>)
    ensures |h| == |f.header|
  {
    seq(|f.header|, j requires 0 <= j < |f.header| => Normalize(f.header[j]))
  }

  /** A frame pandas can hold without duplicate columns: rectangular, and its header
      stays duplicate-free after normalisation. */
  predicate WellFormed(f: RawFile)
  {
    (forall k :: 0 <= k < |f.records| ==> |f.records[k]| == |f.header|) &&
    Distinct(NormalizedHeader(f))
  }

  /** Assigning `df["source_file"]` keeps an existing column in place and appends a new one otherwise. */
  function WithColumn(cols: seq<string>, c: string): (r: seq<string>)
  {
    if c in cols then cols else cols + [c]
  }

  lemma WithColumnKeeps(cols: seq<string>, c: string)
    requires Distinct(cols)
    ensures Distinct(WithColumn(cols, c))
    ensures forall x :: x in WithColumn(cols, c) <==> x in cols || x == c
  {
  }

  /** The record `vals` under the column names `cols`. */
  function RowOf(cols: seq<string>, vals: seq<Cell>): (r: Row)
    requires |vals| == |cols| && Distinct(cols)
    ensures forall j :: 0 <= j < |cols| ==> cols[j] in r && r[cols[j]] == vals[j]
    ensures forall c :: c in r ==> c in cols
  {
    map j | 0 <= j < |cols| :: cols[j] := vals[j]
  }

  /** One record of `f` as a row of the frame built from `f`: normalised names, tagged with `f.name`. */
  function TagRecord(f: RawFile, rec: seq<Cell>): Row
    requires WellFormed(f) && |rec| == |f.header|
  {
    RowOf(NormalizedHeader(f), rec)[SourceColumn := Text(f.name)]
  }

  /** The frame of one file after `df.columns = ...strip().lower()` and `df["source_file"] = f.name`. */
  function Prepare(f: RawFile): (df: Table)
    requires WellFormed(f)
    ensures |df.rows| == |f.records|
  {
    Table(WithColumn(NormalizedHeader(f), SourceColumn),
          seq(|f.records|, k requires 0 <= k < |f.records| => TagRecord(f, f.records[k])))
  }

  /** The columns of `pd.concat`: those of `acc`, then each new one in order of first appearance. */
  function MergeColumns(acc: seq<string>, more: seq<string>): (r: seq<string>)
    ensures forall c :: c in r <==> c in acc || c in more
    ensures |acc| <= |r| && r[..|acc|] == acc
    ensures Distinct(acc) ==> Distinct(r)
    decreases |more|
  {
    if more == [] then acc
    else MergeColumns(if more[0] in acc then acc else acc + [more[0]], more[1..])
  }

  /** Merging into a duplicate-free `acc` lists the names of `acc` then `more` in order of first
      appearance, each once. */
  lemma {:induction false} MergeColumnsInOrder(acc: seq<string>, more: seq<string>)
    requires Distinct(acc)
    ensures MergeColumns(acc, more) == FirstOccurrences(acc + more)
    decreases |more|
  {
    if more == [] {
      assert acc + more == acc;
      FirstOccurrencesOfDistinct(acc);
    } else {
      var m, rest := more[0], more[1..];
      assert acc + more == acc + [m] + rest;
      if m in acc {
        MergeColumnsInOrder(acc, rest);
        FirstOccurrencesDropRepeat(acc, m, rest);
      } else {
        MergeColumnsInOrder(acc + [m], rest);
      }
    }
  }

  /** `pd.concat(dfs, ignore_index=True)`: merged columns, all records in order. */
  function ConcatAll(dfs: seq<Table>): Table
  {
    if dfs == [] then Table([], [])
    else
      var front := ConcatAll(dfs[..|dfs| - 1]);
      var last := dfs[|dfs| - 1];
      Table(MergeColumns(front.columns, last.columns), front.rows + last.rows)
  }

  /** The frames' column lists one after the other, repeats included. */
  function AllColumns(dfs: seq<Table>): seq<string>
  {
    if dfs == [] then [] else AllColumns(dfs[..|dfs| - 1]) + dfs[|dfs| - 1].columns
  }

  /** The concatenation's columns are the frames' columns in order of first appearance. */
  lemma {:induction false} ConcatAllColumnOrder(dfs: seq<Table>)
    ensures ConcatAll(dfs).columns == FirstOccurrences(AllColumns(dfs))
  {
    if dfs != [] {
      var front := dfs[..|dfs| - 1];
      var last := dfs[|dfs| - 1];
      ConcatAllColumnOrder(front);
      var cols := ConcatAll(front).columns;
      assert ConcatAll(dfs).columns == MergeColumns(cols, last.columns);
      MergeColumnsInOrder(cols, last.columns);
      FirstOccurrencesOfPrefix(AllColumns(front), last.columns);
    }
  }

  /** Number of rows of all frames together. */
  function RowTotal(dfs: seq<Table>): nat
  {
    if dfs == [] then 0 else RowTotal(dfs[..|dfs| - 1]) + |dfs[|dfs| - 1].rows|
  }

  /** Index of the first row of `dfs[k]` in the concatenated frame. */
  function FrameOffset(dfs: seq<Table>, k: nat): nat
    requires k <= |dfs|
  {
    RowTotal(dfs[..k])
  }

  /** Row `j` of frame `k` sits at `FrameOffset(dfs, k) + j` in the concatenation. */
  lemma {:induction false} ConcatAllRowAt(dfs: seq<Table>, k: nat, j: nat)
    requires k < |dfs| && j < |dfs[k].rows|
    ensures |ConcatAll(dfs).rows| == RowTotal(dfs)
    ensures FrameOffset(dfs, k) + j < RowTotal(dfs)
    ensures ConcatAll(dfs).rows[FrameOffset(dfs, k) + j] == dfs[k].rows[j]
  {
    var n := |dfs| - 1;
    var front := dfs[..n];
    ConcatAllLength(front);
    assert ConcatAll(dfs).rows == ConcatAll(front).rows + dfs[n].rows;
    assert RowTotal(dfs) == RowTotal(front) + |dfs[n].rows|;
    if k < n {
      ConcatAllRowAt(front, k, j);
      assert front[..k] == dfs[..k];
    } else {
      assert dfs[..k] == front;
    }
  }

  lemma {:induction false} ConcatAllLength(dfs: seq<Table>)
    ensures |ConcatAll(dfs).rows| == RowTotal(dfs)
  {
    if dfs != [] {
      ConcatAllLength(dfs[..|dfs| - 1]);
    }
  }

  /** Every row of the concatenation is row `j` of some frame `k`. */
  lemma {:induction false} ConcatAllRowOrigin(dfs: seq<Table>, i: nat) returns (k: nat, j: nat)
    requires i < |ConcatAll(dfs).rows|
    ensures k < |dfs| && j < |dfs[k].rows| && ConcatAll(dfs).rows[i] == dfs[k].rows[j]
  {
    var n := |dfs| - 1;
    var front := dfs[..n];
    var frontRows := ConcatAll(front).rows;
    if i < |frontRows| {
      k, j := ConcatAllRowOrigin(front, i);
      assert dfs[k] == front[k];
    } else {
      k, j := n, i - |frontRows|;
    }
  }

  /** The concatenation's columns are the frames' columns, each once. */
  lemma {:induction false} ConcatAllColumns(dfs: seq<Table>)
    ensures Distinct(ConcatAll(dfs).columns)
    ensures forall c :: c in ConcatAll(dfs).columns <==> exists k :: 0 <= k < |dfs| && c in dfs[k].columns
  {
    if dfs != [] {
      var n := |dfs| - 1;
      var front := dfs[..n];
      ConcatAllColumns(front);
      var cols := ConcatAll(dfs).columns;
      assert cols == MergeColumns(ConcatAll(front).columns, dfs[n].columns);
      forall c | c in cols
        ensures exists k :: 0 <= k < |dfs| && c in dfs[k].columns
      {
        if c !in dfs[n].columns {
          var k :| 0 <= k < n && c in front[k].columns;
          assert dfs[k] == front[k];
        }
      }
      forall c, k | 0 <= k < |dfs| && c in dfs[k].columns
        ensures c in cols
      {
        if k < n {
          assert front[k] == dfs[k];
        }
      }
    }
  }

  function TotalRecords(files: seq<RawFile>): nat
  {
    if files == [] then 0 else TotalRecords(files[..|files| - 1]) + |files[|files| - 1].records|
  }

  /** Index of the first record of `files[k]` in the loaded frame. */
  function Offset(files: seq<RawFile>, k: nat): nat
    requires k <= |files|
  {
    TotalRecords(files[..k])
  }

  /** The frames prepared file by file. */
  predicate PreparedFrom(dfs: seq<Table>, files: seq<RawFile>)
  {
    |dfs| == |files| &&
    forall k :: 0 <= k < |files| ==> WellFormed(files[k]) && dfs[k] == Prepare(files[k])
  }

  lemma {:induction false} PreparedTotals(dfs: seq<Table>, files: seq<RawFile>)
    requires PreparedFrom(dfs, files)
    ensures RowTotal(dfs) == TotalRecords(files)
  {
    if files != [] {
      var n := |files| - 1;
      PreparedTotals(dfs[..n], files[..n]);
      assert dfs[n] == Prepare(files[n]);
    }
  }

  /** Record `j` of `files[k]`, tagged, is row `Offset(files, k) + j` of `rows`: each file's records
      form one block in their own order, and the blocks follow the file order. */
  predicate InFileOrder(rows: seq<Row>, files: seq<RawFile>)
  {
    forall k, j :: 0 <= k < |files| && 0 <= j < |files[k].records| ==>
      WellFormed(files[k]) && |files[k].records[j]| == |files[k].header| &&
      Offset(files, k) + j < |rows| &&
      rows[Offset(files, k) + j] == TagRecord(files[k], files[k].records[j])
  }

  lemma ConcatRows(dfs: seq<Table>, files: seq<RawFile>)
    requires PreparedFrom(dfs, files)
    ensures |ConcatAll(dfs).rows| == TotalRecords(files)
    ensures InFileOrder(ConcatAll(dfs).rows, files)
  {
    ConcatAllLength(dfs);
    PreparedTotals(dfs, files);
    forall k, j | 0 <= k < |files| && 0 <= j < |files[k].records|
      ensures WellFormed(files[k]) && |files[k].records[j]| == |files[k].header|
      ensures Offset(files, k) + j < |ConcatAll(dfs).rows|
      ensures ConcatAll(dfs).rows[Offset(files, k) + j] == TagRecord(files[k], files[k].records[j])
    {
      LoadedRowAt(dfs, files, k, j);
    }
  }

  lemma LoadedRowAt(dfs: seq<Table>, files: seq<RawFile>, k: nat, j: nat)
    requires PreparedFrom(dfs, files)
    requires k < |files| && j < |files[k].records|
    ensures |ConcatAll(dfs).rows| == TotalRecords(files)
    ensures Offset(files, k) + j < TotalRecords(files)
    ensures ConcatAll(dfs).rows[Offset(files, k) + j] == TagRecord(files[k], files[k].records[j])
  {
    PreparedPrefix(dfs, files, k);
    PreparedTotals(dfs[..k], files[..k]);
    PreparedTotals(dfs, files);
    var df := Prepare(files[k]);
    assert dfs[k] == df;
    assert df.rows[j] == TagRecord(files[k], files[k].records[j]);
    ConcatAllRowAt(dfs, k, j);
  }

  lemma PreparedPrefix(dfs: seq<Table>, files: seq<RawFile>, k: nat)
    requires PreparedFrom(dfs, files) && k <= |files|
    ensures PreparedFrom(dfs[..k], files[..k])
  {
  }

  /** The column names the uploads bring, file after file: each file's normalised header, then
      `source_file` unless the header already has it. */
  function Headers(files: seq<RawFile>): seq<string>
  {
    if files == [] then []
    else
      var f := files[|files| - 1];
      Headers(files[..|files| - 1]) + WithColumn(NormalizedHeader(f), SourceColumn)
  }

  lemma {:induction false} PreparedHeaders(dfs: seq<Table>, files: seq<RawFile>)
    requires PreparedFrom(dfs, files)
    ensures AllColumns(dfs) == Headers(files)
  {
    if files != [] {
      var n := |files| - 1;
      PreparedPrefix(dfs, files, n);
      PreparedHeaders(dfs[..n], files[..n]);
      assert dfs[n] == Prepare(files[n]);
    }
  }

  /** The header of a file after normalisation and tagging: distinct, normalised names that
      include `source_file`. */
  lemma TaggedHeader(f: RawFile)
    requires WellFormed(f)
    ensures var cols := WithColumn(NormalizedHeader(f), SourceColumn);
      Distinct(cols) && SourceColumn in cols && forall c :: c in cols ==> Normalize(c) == c
  {
    var h := NormalizedHeader(f);
    WithColumnKeeps(h, SourceColumn);
    HeaderNormal(f);
    SourceColumnNormal();
  }

  /** Normalised names are their own normal form. */
  lemma HeaderNormal(f: RawFile)
    ensures forall c :: c in NormalizedHeader(f) ==> Normalize(c) == c
  {
    var h := NormalizedHeader(f);
    forall c | c in h
      ensures Normalize(c) == c
    {
      var j :| 0 <= j < |h| && h[j] == c;
      NormalizeIdempotent(f.header[j]);
    }
  }

  lemma SourceColumnNormal()
    ensures Normalize(SourceColumn) == SourceColumn
  {
    NormalWhen(SourceColumn);
  }

  /** Every column of a prepared frame is normalised, and they are distinct. */
  lemma PreparedColumns(f: RawFile)
    requires WellFormed(f)
    ensures Distinct(Prepare(f).columns) && SourceColumn in Prepare(f).columns
    ensures forall c :: c in Prepare(f).columns ==> Normalize(c) == c
  {
    assert Prepare(f).columns == WithColumn(NormalizedHeader(f), SourceColumn);
    TaggedHeader(f);
  }

  /** The loaded frame's columns are distinct, normalised, and include `source_file`. */
  lemma ConcatColumns(dfs: seq<Table>, files: seq<RawFile>)
    requires PreparedFrom(dfs, files)
    ensures Distinct(ConcatAll(dfs).columns)
    ensures forall c :: c in ConcatAll(dfs).columns ==> Normalize(c) == c
    ensures files != [] ==> SourceColumn in ConcatAll(dfs).columns
  {
    ConcatAllColumns(dfs);
    forall c | c in ConcatAll(dfs).columns
      ensures Normalize(c) == c
    {
      var k :| 0 <= k < |dfs| && c in dfs[k].columns;
      PreparedColumns(files[k]);
    }
    if files != [] {
      PreparedColumns(files[0]);
    }
  }

  /** Every row of the loaded frame carries the name of one of the files in `source_file`. */
  lemma ConcatTagged(dfs: seq<Table>, files: seq<RawFile>)
    requires PreparedFrom(dfs, files)
    ensures forall i :: 0 <= i < |ConcatAll(dfs).rows| ==>
      exists k :: 0 <= k < |files| && Get(ConcatAll(dfs).rows[i], SourceColumn) == Text(files[k].name)
  {
    var rows := ConcatAll(dfs).rows;
    forall i | 0 <= i < |rows|
      ensures exists k :: 0 <= k < |files| && Get(rows[i], SourceColumn) == Text(files[k].name)
    {
      var k, j := ConcatAllRowOrigin(dfs, i);
      assert dfs[k] == Prepare(files[k]);
      TaggedRecord(files[k], files[k].records[j], SourceColumn);
    }
  }

  /** A tagged record holds the file's name under `source_file`, each header cell under its
      normalised name, and nothing under any other name. */
  lemma TaggedRecord(f: RawFile, rec: seq<Cell>, c: string)
    requires WellFormed(f) && |rec| == |f.header|
    ensures Get(TagRecord(f, rec), SourceColumn) == Text(f.name)
    ensures forall j :: 0 <= j < |f.header| && Normalize(f.header[j]) != SourceColumn ==>
      Get(TagRecord(f, rec), Normalize(f.header[j])) == rec[j]
    ensures c != SourceColumn && c !in NormalizedHeader(f) ==> Get(TagRecord(f, rec), c) == Missing
  {
    var h := NormalizedHeader(f);
    forall j | 0 <= j < |f.header| && Normalize(f.header[j]) != SourceColumn
      ensures Get(TagRecord(f, rec), Normalize(f.header[j])) == rec[j]
    {
      assert h[j] == Normalize(f.header[j]);
    }
  }

  /** The loader loop: each upload's frame gets normalised columns and its `source_file` tag and is
      appended to `dfs`; the frames are then concatenated in upload order. */
  method Load(files: seq<RawFile>) returns (data: Table)
    requires |files| > 0
    requires forall k :: 0 <= k < |files| ==> WellFormed(files[k])
    ensures data.columns == FirstOccurrences(Headers(files))
    ensures Distinct(data.columns) && SourceColumn in data.columns
    ensures forall c :: c in data.columns ==> Normalize(c) == c
    ensures |data.rows| == TotalRecords(files)
    ensures InFileOrder(data.rows, files)
    ensures forall i :: 0 <= i < |data.rows| ==>
      exists k :: 0 <= k < |files| && Get(data.rows[i], SourceColumn) == Text(files[k].name)
  {
    var dfs: seq<Table> := [];
    for i := 0 to |files|
      invariant PreparedFrom(dfs, files[..i])
    {
      var df := Prepare(files[i]);
      dfs := dfs + [df];
    }
    assert files[..|files|] == files;
    data := ConcatAll(dfs);
    ConcatRows(dfs, files);
    ConcatColumns(dfs, files);
    ConcatTagged(dfs, files);
    ConcatAllColumnOrder(dfs);
    PreparedHeaders(dfs, files);
  }

  // ---------------------------------------------------------------- row selection

  /** `series.isin(allowed)` for one cell: a text that is one of the allowed values. */
  predicate Admits(c: Cell, allowed: set<string>)
  {
    c.Text? && c.s in allowed
  }

  /** `df[df[col].isin(allowed)]`: the rows whose `col` holds an allowed text, in their original order. */
  function Select(rows: seq<Row>, col: string, allowed: set<string>): (kept: seq<Row>)
    ensures Subsequence(kept, rows)
    ensures forall r :: r in kept <==> r in rows && Admits(Get(r, col), allowed)
  {
    if rows == [] then []
    else
      var front := Select(rows[..|rows| - 1], col, allowed);
      var last := rows[|rows| - 1];
      assert forall r :: r in rows <==> r in rows[..|rows| - 1] || r == last by {
        assert rows == rows[..|rows| - 1] + [last];
      }
      if Admits(Get(last, col), allowed) then front + [last] else front
  }

  /** Selecting keeps every copy of an admitted row and no copy of any other row: the number of
      selected rows is the number of admitted rows, duplicates included. */
  lemma {:induction false} SelectCount(rows: seq<Row>, col: string, allowed: set<string>, x: Row)
    ensures Count(Select(rows, col, allowed), x) ==
      if Admits(Get(x, col), allowed) then Count(rows, x) else 0
  {
    if rows != [] {
      var front := rows[..|rows| - 1];
      var last := rows[|rows| - 1];
      SelectCount(front, col, allowed, x);
      var kept := Select(front, col, allowed);
      if Admits(Get(last, col), allowed) {
        assert (kept + [last])[..|kept + [last]| - 1] == kept;
      }
    }
  }

  /** Selecting distributes over concatenation: the filter keeps the relative order of the blocks. */
  lemma {:induction false} SelectAppend(a: seq<Row>, b: seq<Row>, col: string, allowed: set<string>)
    ensures Select(a + b, col, allowed) == Select(a, col, allowed) + Select(b, col, allowed)
  {
    if b == [] {
      assert a + b == a;
    } else {
      var front := b[..|b| - 1];
      var last := b[|b| - 1];
      assert (a + b)[..|a + b| - 1] == a + front;
      assert (a + b)[|a + b| - 1] == last;
      SelectAppend(a, front, col, allowed);
    }
  }
}
