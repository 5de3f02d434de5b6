/** The survey mode derived from a file name (`detect_mode`), the derived `mode` column, and the
    sidebar filter that keeps the selected modes and files. */
module Modes {
  import opened Sequences
  import opened Strings
  import opened Numeric
  import opened Tables

  datatype Mode = Distance | DTL | Online | Unknown

  const ModeColumn := "mode"

  /** The label `detect_mode` returns, which is what the `mode` column holds and the filter compares. */
  function ModeName(m: Mode): string
  {
    match m
    case Distance => "Distance"
    case DTL => "DTL"
    case Online => "Online"
    case Unknown => "Unknown"
  }

  /** `detect_mode`: keyword tests on the lower-cased name, in this order; the first that matches wins. */
  function DetectMode(name: string): (m: Mode)
    ensures m == Distance <==> Contains(Lower(name), "distance")
    ensures m == DTL <==> !Contains(Lower(name), "distance") && Contains(Lower(name), "dtl")
    ensures m == Online <==>
      !Contains(Lower(name), "distance") && !Contains(Lower(name), "dtl") && Contains(Lower(name), "online")
    ensures m == Unknown <==>
      !Contains(Lower(name), "distance") && !Contains(Lower(name), "dtl") && !Contains(Lower(name), "online")
  {
    var x := Lower(name);
    if Contains(x, "distance") then Distance
    else if Contains(x, "dtl") then DTL
    else if Contains(x, "online") then Online
    else Unknown
  }

  /** The classification ignores case: a name and its lower-cased form get the same mode. */
  lemma DetectModeIgnoresCase(name: string)
    ensures DetectMode(Lower(name)) == DetectMode(name)
  {
    LowerIdempotent(name);
  }

  /** Labels identify modes: comparing labels is comparing modes. */
  lemma ModeNameInjective(a: Mode, b: Mode)
    ensures ModeName(a) == ModeName(b) <==> a == b
  {
    if ModeName(a) == ModeName(b) {
      assert ModeName(a)[0] == ModeName(b)[0];
      assert |ModeName(a)| == |ModeName(b)|;
    }
  }

  /** A name naming both "distance" and "dtl" is a Distance file. */
  lemma DistanceBeforeDtl(name: string, i: nat, j: nat)
    requires i + 8 <= |name| && Lower(name)[i..i + 8] == "distance"
    requires j + 3 <= |name| && Lower(name)[j..j + 3] == "dtl"
    ensures DetectMode(name) == Distance
  {
    ContainsAt(Lower(name), "distance", i);
  }

  /** Every row carries a file name in `source_file`, as every row of a loaded frame does. */
  predicate Tagged(rows: seq<Row>)
  {
    forall i :: 0 <= i < |rows| ==> Get(rows[i], SourceColumn).Text?
  }

  /** The file name a tagged row came from. */
  function SourceOf(r: Row): string
    requires Get(r, SourceColumn).Text?
  {
    Get(r, SourceColumn).s
  }

  /** `data["mode"] = data["source_file"].apply(detect_mode)`: every row gets its file's mode label,
      the column keeps its place if the upload already had one and is appended otherwise. */
  method AddModeColumn(data: Table) returns (out: Table)
    requires Tagged(data.rows)
    ensures out.columns == WithColumn(data.columns, ModeColumn)
    ensures |out.rows| == |data.rows|
    ensures forall i :: 0 <= i < |out.rows| ==>
      Get(out.rows[i], ModeColumn) == Text(ModeName(DetectMode(SourceOf(data.rows[i]))))
    ensures forall i, c :: 0 <= i < |out.rows| && c != ModeColumn ==> Get(out.rows[i], c) == Get(data.rows[i], c)
  {
    var rows: seq<Row> := [];
    for i := 0 to |data.rows|
      invariant |rows| == i
      invariant forall k :: 0 <= k < i ==>
        Get(rows[k], ModeColumn) == Text(ModeName(DetectMode(SourceOf(data.rows[k]))))
      invariant forall k, c :: 0 <= k < i && c != ModeColumn ==> Get(rows[k], c) == Get(data.rows[k], c)
    {
      var r := data.rows[i];
      var name := ModeName(DetectMode(SourceOf(r)));
      rows := rows + [r[ModeColumn := Text(name)]];
    }
    out := Table(WithColumn(data.columns, ModeColumn), rows);
  }

  /** The two sidebar filters: `filtered[mode.isin(modes)]`, then `filtered[source_file.isin(files)]`.
      The columns are unchanged; only rows are dropped. */
  function Filtered(data: Table, modes: set<string>, files: set<string>): (t: Table)
    ensures t.columns == data.columns
    ensures Subsequence(t.rows, data.rows)
    ensures forall r :: r in t.rows <==>
      r in data.rows && Admits(Get(r, ModeColumn), modes) && Admits(Get(r, SourceColumn), files)
    ensures modes == {} || files == {} ==> t.rows == []
    ensures forall r ::
      Count(t.rows, r) ==
        if Admits(Get(r, ModeColumn), modes) && Admits(Get(r, SourceColumn), files)
        then Count(data.rows, r) else 0
  {
    var byMode := Select(data.rows, ModeColumn, modes);
    var byFile := Select(byMode, SourceColumn, files);
    forall r
      ensures Count(byFile, r) ==
        if Admits(Get(r, ModeColumn), modes) && Admits(Get(r, SourceColumn), files)
        then Count(data.rows, r) else 0
    {
      SelectCount(data.rows, ModeColumn, modes, r);
      SelectCount(byMode, SourceColumn, files, r);
    }
    SubsequenceTransitive(byFile, byMode, data.rows);
    assert byFile != [] ==> byFile[0] in byFile;
    Table(data.columns, byFile)
  }

  /** On a frame with derived modes, a row survives the filters exactly when its file's mode is
      selected and its file is selected. */
  lemma FilteredRows(data: Table, modes: set<string>, files: set<string>, r: Row)
    requires r in data.rows && Get(r, SourceColumn).Text?
    requires Get(r, ModeColumn) == Text(ModeName(DetectMode(SourceOf(r))))
    ensures r in Filtered(data, modes, files).rows <==>
      ModeName(DetectMode(SourceOf(r))) in modes && SourceOf(r) in files
  {
  }

  /** Selecting a set of modes by their labels keeps exactly the rows of files whose detected mode
      is one of them: no label stands for two modes. */
  lemma FilteredByModes(data: Table, ms: set<Mode>, files: set<string>, r: Row)
    requires r in data.rows && Get(r, SourceColumn).Text?
    requires Get(r, ModeColumn) == Text(ModeName(DetectMode(SourceOf(r))))
    ensures r in Filtered(data, set m | m in ms :: ModeName(m), files).rows <==>
      DetectMode(SourceOf(r)) in ms && SourceOf(r) in files
  {
    var labels := set m | m in ms :: ModeName(m);
    FilteredRows(data, labels, files, r);
    var d := DetectMode(SourceOf(r));
    if ModeName(d) in labels {
      var m :| m in ms && ModeName(m) == ModeName(d);
      ModeNameInjective(m, d);
    }
  }
}
