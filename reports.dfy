/** The report sections computed from the filtered frame: overview, delivery of lecture per file,
    learner support centre counts, and the master dashboard of parameters. */
module Reports {
  import opened Sequences
  import opened Strings
  import opened Numeric
  import opened Tables
  import opened Modes
  import opened Roles
  import opened Sorting
  import opened Counting

  /** A report section: its rows, or the message shown instead of them. */
  datatype Outcome<T> =
    | Ok(value: T)
    | NotFound   // the section's column is absent ("... not found" / "... not present")
    | NoValues   // the column is present but nothing is left after the filters

  // ---------------------------------------------------------------- overview

  datatype Overview = Overview(responses: nat, average: Option<real>)

  /** The cells of row `r` under `cols`, in column order. */
  function RowCells(r: Row, cols: seq<string>): (cells: seq<Cell>)
    ensures |cells| == |cols|
  {
    if cols == [] then [] else RowCells(r, cols[..|cols| - 1]) + [Get(r, cols[|cols| - 1])]
  }

  /** `filtered[rating_cols].stack()`: all rating cells, row after row. */
  function Pool(rows: seq<Row>, cols: seq<string>): seq<Cell>
  {
    if rows == [] then [] else Pool(rows[..|rows| - 1], cols) + RowCells(rows[|rows| - 1], cols)
  }

  /** Tab "Overview": the row count of the filtered frame and the mean of every numeric rating cell. */
  function OverallAverage(t: Table): (o: Overview)
    ensures o.responses == |t.rows|
  {
    Overview(|t.rows|, Mean(Numbers(Pool(t.rows, RatingColumns(t.columns)))))
  }

  /** Numeric cells counted column by column. */
  function ColumnCount(rows: seq<Row>, cols: seq<string>): nat
  {
    if cols == [] then 0
    else ColumnCount(rows, cols[..|cols| - 1]) + |Numbers(Column(rows, cols[|cols| - 1]))|
  }

  /** Numeric cells summed column by column. */
  function ColumnSum(rows: seq<Row>, cols: seq<string>): real
  {
    if cols == [] then 0.0
    else ColumnSum(rows, cols[..|cols| - 1]) + Sum(Numbers(Column(rows, cols[|cols| - 1])))
  }

  lemma {:induction false} ColumnTotalsStep(rows: seq<Row>, r: Row, cols: seq<string>)
    ensures ColumnCount(rows + [r], cols) == ColumnCount(rows, cols) + |Numbers(RowCells(r, cols))|
    ensures ColumnSum(rows + [r], cols) == ColumnSum(rows, cols) + Sum(Numbers(RowCells(r, cols)))
  {
    if cols != [] {
      var front := cols[..|cols| - 1];
      var c := cols[|cols| - 1];
      ColumnTotalsStep(rows, r, front);
      assert (rows + [r])[..|rows|] == rows;
      assert Column(rows + [r], c) == Column(rows, c) + [Get(r, c)];
      NumbersAppend(Column(rows, c), [Get(r, c)]);
      NumbersAppend(RowCells(r, front), [Get(r, c)]);
      SumAppend(Numbers(Column(rows, c)), Numbers([Get(r, c)]));
      SumAppend(Numbers(RowCells(r, front)), Numbers([Get(r, c)]));
    }
  }

  /** Pooling the rating cells row by row counts and sums the same numbers as taking the rating
      columns one at a time: missing cells enter neither the total nor the count. */
  lemma {:induction false} PoolByColumns(rows: seq<Row>, cols: seq<string>)
    ensures |Numbers(Pool(rows, cols))| == ColumnCount(rows, cols)
    ensures Sum(Numbers(Pool(rows, cols))) == ColumnSum(rows, cols)
  {
    if rows == [] {
      ColumnTotalsEmpty(rows, cols);
    } else {
      var front := rows[..|rows| - 1];
      var r := rows[|rows| - 1];
      PoolByColumns(front, cols);
      assert rows == front + [r];
      ColumnTotalsStep(front, r, cols);
      NumbersAppend(Pool(front, cols), RowCells(r, cols));
      SumAppend(Numbers(Pool(front, cols)), Numbers(RowCells(r, cols)));
    }
  }

  lemma {:induction false} ColumnTotalsEmpty(rows: seq<Row>, cols: seq<string>)
    requires rows == []
    ensures ColumnCount(rows, cols) == 0 && ColumnSum(rows, cols) == 0.0
  {
    if cols != [] {
      ColumnTotalsEmpty(rows, cols[..|cols| - 1]);
    }
  }

  /** The overall average is the total of the numeric rating cells over their number, and is
      undefined when there are none. */
  lemma OverallAverageByColumns(t: Table)
    ensures var rc := RatingColumns(t.columns);
      OverallAverage(t).average ==
        if ColumnCount(t.rows, rc) == 0 then None
        else Some(ColumnSum(t.rows, rc) / ColumnCount(t.rows, rc) as real)
  {
    PoolByColumns(t.rows, RatingColumns(t.columns));
  }

  // ---------------------------------------------------------------- delivery of lecture per file

  datatype FileAverage = FileAverage(file: string, average: Option<real>)

  /** The file names present in `rows`, each once, in order of first appearance. */
  function Files(rows: seq<Row>): (fs: seq<string>)
    requires Tagged(rows)
    ensures Distinct(fs)
    ensures forall f :: f in fs <==> exists i :: 0 <= i < |rows| && Get(rows[i], SourceColumn) == Text(f)
  {
    if rows == [] then []
    else
      var front := rows[..|rows| - 1];
      var fs := Files(front);
      var f := SourceOf(rows[|rows| - 1]);
      assert forall i :: 0 <= i < |front| ==> front[i] == rows[i];
      if f in fs then fs else fs + [f]
  }

  /** The numeric cells of column `c` in the rows of file `f`. */
  function FileNumbers(rows: seq<Row>, c: string, f: string): seq<real>
  {
    Numbers(Column(Select(rows, SourceColumn, {f}), c))
  }

  function FileKeys(rs: seq<FileAverage>): (ks: seq<string>)
    ensures |ks| == |rs|
  {
    seq(|rs|, i requires 0 <= i < |rs| => rs[i].file)
  }

  /** Tab "Delivery of Lecture": `groupby("source_file")["val"].mean()` over the first column whose
      name contains "delivery of lecture": one row per file present, in ascending file-name order. */
  function PerFileAverages(t: Table): (res: Outcome<seq<FileAverage>>)
    requires Tagged(t.rows)
    ensures res.NotFound? <==> FindAnchor(t.columns).None?
    ensures !res.NoValues?
    ensures res.Ok? ==> StrictlyAscending(FileKeys(res.value))
    ensures res.Ok? ==> forall f :: f in FileKeys(res.value) <==>
      exists i :: 0 <= i < |t.rows| && Get(t.rows[i], SourceColumn) == Text(f)
    ensures res.Ok? ==> forall g :: g in res.value ==>
      g.average == Mean(FileNumbers(t.rows, t.columns[FindAnchor(t.columns).value], g.file))
  {
    match FindAnchor(t.columns)
    case None => NotFound
    case Some(k) =>
      FileKeysSorted(t.rows);
      Ok(GroupMeans(t.rows, t.columns[k], SortStrings(Files(t.rows))))
  }

  /** The group keys in ascending order: each file present exactly once. */
  lemma FileKeysSorted(rows: seq<Row>)
    requires Tagged(rows)
    ensures var keys := SortStrings(Files(rows));
      StrictlyAscending(keys) &&
      forall f :: f in keys <==> exists i :: 0 <= i < |rows| && Get(rows[i], SourceColumn) == Text(f)
  {
    SortStringsMembers(Files(rows));
  }

  /** A file's average is defined exactly when one of its rows holds a number in column `c`:
      `groupby(...).mean()` yields NaN for a file whose cells are all non-numeric. */
  lemma FileAverageDefined(rows: seq<Row>, c: string, f: string)
    ensures Mean(FileNumbers(rows, c, f)).Some? <==>
      exists i :: 0 <= i < |rows| && Get(rows[i], SourceColumn) == Text(f) && SafeNum(Get(rows[i], c)).Some?
  {
    var sel := Select(rows, SourceColumn, {f});
    var cells := Column(sel, c);
    if Numbers(cells) != [] {
      var j :| 0 <= j < |cells| && SafeNum(cells[j]).Some?;
      assert sel[j] in sel;
      var i :| 0 <= i < |rows| && rows[i] == sel[j];
      assert Get(rows[i], SourceColumn) == Text(f) && SafeNum(Get(rows[i], c)).Some?;
    } else {
      forall i | 0 <= i < |rows| && Get(rows[i], SourceColumn) == Text(f)
        ensures SafeNum(Get(rows[i], c)).None?
      {
        assert rows[i] in sel;
        var j :| 0 <= j < |sel| && sel[j] == rows[i];
        assert cells[j] == Get(rows[i], c);
      }
    }
  }

  /** One row per key, in key order, with the mean of the key's numbers in column `c`. */
  function GroupMeans(rows: seq<Row>, c: string, keys: seq<string>): (rs: seq<FileAverage>)
    ensures FileKeys(rs) == keys
    ensures forall g :: g in rs ==> g.average == Mean(FileNumbers(rows, c, g.file))
  {
    var rs := seq(|keys|, i requires 0 <= i < |keys| => FileAverage(keys[i], Mean(FileNumbers(rows, c, keys[i]))));
    assert FileKeys(rs) == keys;
    rs
  }

  // ---------------------------------------------------------------- learner support centre

  const SupportColumn := "learner support centre"

  /** `.astype(str)` of a non-missing cell; how pandas writes a number is the parameter `show`. */
  function CellText(c: Cell, show: real -> string): string
  {
    match c
    case Num(x) => show(x)
    case Text(s) => s
    case Missing => ""
  }

  /** The text `text` gives each non-missing cell, in order (`.dropna()` then a per-value map). */
  function Present(cells: seq<Cell>, text: Cell -> string): (vs: seq<string>)
    ensures |vs| == |cells| - Count(cells, Missing)
    ensures vs == [] <==> forall i :: 0 <= i < |cells| ==> cells[i] == Missing
  {
    if cells == [] then []
    else
      var front := Present(cells[..|cells| - 1], text);
      var c := cells[|cells| - 1];
      if c == Missing then front else front + [text(c)]
  }

  /** The values are exactly the texts of the non-missing cells. */
  lemma {:induction false} PresentMembers(cells: seq<Cell>, text: Cell -> string, v: string)
    ensures v in Present(cells, text) <==>
      exists i :: 0 <= i < |cells| && cells[i] != Missing && v == text(cells[i])
  {
    if cells != [] {
      var init := cells[..|cells| - 1];
      PresentMembers(init, text, v);
      if exists i :: 0 <= i < |init| && init[i] != Missing && v == text(init[i]) {
        var i :| 0 <= i < |init| && init[i] != Missing && v == text(init[i]);
        assert cells[i] == init[i];
      }
      if exists i :: 0 <= i < |cells| && cells[i] != Missing && v == text(cells[i]) {
        var i :| 0 <= i < |cells| && cells[i] != Missing && v == text(cells[i]);
        if i < |init| {
          assert init[i] == cells[i];
        }
      }
    }
  }

  /** The present texts of one column over the selected rows come from exactly the admitted rows
      that have a value there. */
  lemma PresentSelected(rows: seq<Row>, col: string, allowed: set<string>, c: string,
                        text: Cell -> string, v: string)
    ensures v in Present(Column(Select(rows, col, allowed), c), text) <==>
      exists r :: r in rows && Admits(Get(r, col), allowed) && Get(r, c) != Missing && v == text(Get(r, c))
  {
    if v in Present(Column(Select(rows, col, allowed), c), text) {
      PresentSelectedFrom(rows, col, allowed, c, text, v);
    }
    if exists r :: r in rows && Admits(Get(r, col), allowed) && Get(r, c) != Missing && v == text(Get(r, c)) {
      var r :| r in rows && Admits(Get(r, col), allowed) && Get(r, c) != Missing && v == text(Get(r, c));
      PresentSelectedOf(rows, col, allowed, c, text, r);
    }
  }

  lemma PresentSelectedFrom(rows: seq<Row>, col: string, allowed: set<string>, c: string,
                            text: Cell -> string, v: string)
    requires v in Present(Column(Select(rows, col, allowed), c), text)
    ensures exists r :: r in rows && Admits(Get(r, col), allowed) && Get(r, c) != Missing && v == text(Get(r, c))
  {
    var sel := Select(rows, col, allowed);
    var cells := Column(sel, c);
    PresentMembers(cells, text, v);
    var i :| 0 <= i < |cells| && cells[i] != Missing && v == text(cells[i]);
    assert sel[i] in sel;
  }

  lemma PresentSelectedOf(rows: seq<Row>, col: string, allowed: set<string>, c: string,
                          text: Cell -> string, r: Row)
    requires r in rows && Admits(Get(r, col), allowed) && Get(r, c) != Missing
    ensures text(Get(r, c)) in Present(Column(Select(rows, col, allowed), c), text)
  {
    var sel := Select(rows, col, allowed);
    var cells := Column(sel, c);
    var i :| 0 <= i < |sel| && sel[i] == r;
    assert cells[i] == Get(r, c);
    PresentMembers(cells, text, text(Get(r, c)));
  }

  /** `.astype(str).str.strip()` of one non-missing cell. */
  function Stripped(show: real -> string): Cell -> string
  {
    c => Trim(CellText(c, show))
  }

  /** `.dropna().astype(str).str.strip()`: the trimmed text of every non-missing cell, in order. */
  function Texts(cells: seq<Cell>, show: real -> string): (vs: seq<string>)
    ensures |vs| == |cells| - Count(cells, Missing)
    ensures vs == [] <==> forall i :: 0 <= i < |cells| ==> cells[i] == Missing
  {
    Present(cells, Stripped(show))
  }

  /** The values are exactly the stripped texts of the non-missing cells, with their case kept. */
  lemma TextsMembers(cells: seq<Cell>, show: real -> string, v: string)
    ensures v in Texts(cells, show) <==>
      exists i :: 0 <= i < |cells| && cells[i] != Missing && v == Trim(CellText(cells[i], show))
  {
    PresentMembers(cells, Stripped(show), v);
  }

  /** The learner support centre values of the Distance rows. */
  function SupportValues(rows: seq<Row>, show: real -> string): seq<string>
  {
    Texts(Column(Select(rows, ModeColumn, {ModeName(Distance)}), SupportColumn), show)
  }

  /** The tallied values are exactly the stripped, case-kept texts of the Distance rows' non-missing
      learner support cells. */
  lemma SupportValuesMembers(rows: seq<Row>, show: real -> string, v: string)
    ensures v in SupportValues(rows, show) <==>
      exists r :: r in rows && Get(r, ModeColumn) == Text(ModeName(Distance)) &&
        Get(r, SupportColumn) != Missing && v == Trim(CellText(Get(r, SupportColumn), show))
  {
    PresentSelected(rows, ModeColumn, {ModeName(Distance)}, SupportColumn, Stripped(show), v);
  }

  /** There are no learner support values exactly when every Distance row lacks one. */
  lemma NoSupportValues(rows: seq<Row>, show: real -> string)
    ensures SupportValues(rows, show) == [] <==>
      forall r :: r in rows && Get(r, ModeColumn) == Text(ModeName(Distance)) ==> Get(r, SupportColumn) == Missing
  {
    var vals := SupportValues(rows, show);
    if vals != [] {
      SupportValuesMembers(rows, show, vals[0]);
    }
    forall r | r in rows && Get(r, ModeColumn) == Text(ModeName(Distance)) && Get(r, SupportColumn) != Missing
      ensures vals != []
    {
      SupportValuesMembers(rows, show, Trim(CellText(Get(r, SupportColumn), show)));
    }
  }

  /** Tab "Learner Support Centre": an error when the column is absent, a warning when no Distance row
      has a value, and otherwise the value counts. */
  function LearnerSupport(t: Table, show: real -> string): (res: Outcome<seq<Tally>>)
    ensures res.NotFound? <==> SupportColumn !in t.columns
    ensures res.NoValues? <==> (SupportColumn in t.columns &&
      forall r :: r in t.rows && Get(r, ModeColumn) == Text(ModeName(Distance)) ==> Get(r, SupportColumn) == Missing)
    ensures res.Ok? ==> res.value == ValueCounts(SupportValues(t.rows, show))
  {
    if SupportColumn !in t.columns then NotFound
    else
      var vals := SupportValues(t.rows, show);
      NoSupportValues(t.rows, show);
      if vals == [] then NoValues else Ok(ValueCounts(vals))
  }

  /** The counts of a learner support report cover exactly the Distance values, each value once with
      its number of occurrences, most frequent first, adding up to the number of values. */
  lemma LearnerSupportCounts(t: Table, show: real -> string)
    requires LearnerSupport(t, show).Ok?
    ensures var ts := LearnerSupport(t, show).value; var vals := SupportValues(t.rows, show);
      Descending(ts) && SumCounts(ts) == |vals| &&
      (forall tl :: tl in ts ==> tl.value in vals && tl.count == Count(vals, tl.value)) &&
      (forall v :: v in vals ==> Tally(v, Count(vals, v)) in ts)
  {
    ValueCountsExact(SupportValues(t.rows, show));
    ValueCountsTotal(SupportValues(t.rows, show));
  }

  // ---------------------------------------------------------------- master dashboard

  datatype ParameterRow = ParameterRow(parameter: string, average: real)

  function ParameterNames(ps: seq<ParameterRow>): (ns: seq<string>)
    ensures |ns| == |ps|
  {
    seq(|ps|, i requires 0 <= i < |ps| => ps[i].parameter)
  }

  /** A keyword column holding at least one number: the columns the dashboard reports. */
  predicate IsParameter(rows: seq<Row>, c: string)
  {
    IsParameterName(c) && HasNumeric(rows, c)
  }

  /** The row's average is the mean of its column's numbers. */
  predicate AverageOf(rows: seq<Row>, p: ParameterRow)
  {
    Mean(Numbers(Column(rows, p.parameter))) == Some(p.average)
  }

  /** The dashboard row of a parameter column: its name and the mean of its numbers. */
  function ParameterRowFor(rows: seq<Row>, c: string): (p: ParameterRow)
    requires IsParameter(rows, c)
    ensures p.parameter == c && AverageOf(rows, p)
  {
    ParameterRow(c, Mean(Numbers(Column(rows, c))).value)
  }

  /** Tab "Master Dashboard": the loop over the columns that appends one row for each keyword column
      holding at least one number, with that column's mean. */
  method ParameterAverages(t: Table) returns (params: seq<ParameterRow>)
    ensures Subsequence(ParameterNames(params), t.columns)
    ensures forall c :: c in ParameterNames(params) <==> c in t.columns && IsParameter(t.rows, c)
    ensures forall p :: p in params ==> AverageOf(t.rows, p)
  {
    params := [];
    for i := 0 to |t.columns|
      invariant Subsequence(ParameterNames(params), t.columns[..i])
      invariant forall c :: c in ParameterNames(params) <==> c in t.columns[..i] && IsParameter(t.rows, c)
      invariant forall p :: p in params ==> AverageOf(t.rows, p)
    {
      var c := t.columns[i];
      var names := ParameterNames(params);
      assert t.columns[..i + 1] == t.columns[..i] + [c];
      SubsequenceExtend(names, t.columns[..i], c);
      if IsParameterName(c) && |Numbers(Column(t.rows, c))| > 0 {
        var p := ParameterRowFor(t.rows, c);
        assert ParameterNames(params + [p]) == names + [c];
        params := params + [p];
      }
    }
    assert t.columns[..|t.columns|] == t.columns;
  }

  // ---------------------------------------------------------------- export

  /** `sheet_name=name[:31]`: spreadsheet sheet names keep at most their first 31 characters. */
  function SheetName(name: string): (r: string)
    ensures |r| <= 31 && r <= name
    ensures |name| <= 31 ==> r == name
    ensures |name| > 31 ==> |r| == 31
  {
    if |name| <= 31 then name else name[..31]
  }

  // ---------------------------------------------------------------- empty selection

  /** With no rows left after the filters, no section reports a figure: the overview has zero
      responses and no average, the per-file table is empty, the support section shows its message,
      and no column holds a number (so neither parameters nor subjects are found). */
  lemma EmptyReports(t: Table, show: real -> string, c: string)
    requires t.rows == []
    ensures OverallAverage(t) == Overview(0, None)
    ensures PerFileAverages(t) == NotFound || PerFileAverages(t) == Ok([])
    ensures !LearnerSupport(t, show).Ok?
    ensures !HasNumeric(t.rows, c)
  {
    assert Pool(t.rows, RatingColumns(t.columns)) == [];
  }
}
