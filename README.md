# CDOE feedback analytics: a verified model of the dashboard's data pipeline

The dashboard (`app.py`) takes several uploaded survey exports (CSV or Excel). It does this in order:

1. Normalises each file's column names and tags every record with its file name.
2. Concatenates the files into one frame.
3. Derives each row's delivery mode (Distance, DTL, Online or Unknown) from its file name.
4. Keeps the rows whose mode and file the sidebar selects.

From the filtered frame it computes five report sections:

- the overview: the response count and the mean of every numeric rating cell;
- the mean of the "delivery of lecture" column, per file;
- the value counts of the "learner support centre" column over the Distance rows;
- the mean of every parameter column that holds a number;
- the block of numeric subject columns after the "delivery of lecture" column, with each subject's label and mean.

This project models that pipeline in Dafny and proves what each step promises.

Modules, one file each:

- `sequences.dfy`, `Sequences`: order-preserving selection (`Subsequence`), `Distinct`, `Count`, and the first occurrences of a sequence's elements (`FirstOccurrences`).
- `strings.dfy`, `Strings`: Python's `strip()`, `lower()`, the `in` substring test and code-point ordering.
- `numeric.dfy`, `Numeric`:
  - cells (`Num`, `Text`, `Missing`);
  - `safe_num` (`pd.to_numeric(errors="coerce")`) for one cell;
  - the numbers of a column, sums and means.
- `tables.dfy`, `Tables`:
  - the frame as ordered columns plus rows, each row a map from column name to cell;
  - loading: normalise, tag, `pd.concat`;
  - `isin` row selection.
- `modes.dfy`, `Modes`: `detect_mode`, the derived `mode` column and the two sidebar filters.
- `roles.dfy`, `Roles`: which columns are rating columns, the anchor column and parameter columns, and whether a column holds a number.
- `sorting.dfy`, `Sorting`: the ascending key order of `groupby`.
- `counting.dfy`, `Counting`: `value_counts()`.
- `reports.dfy`, `Reports`: the overview, per-file, learner support and master dashboard sections.
- `subjects.dfy`, `Subjects`: the subject-wise section.

Modelling choices:

- The code's loops are methods with loop invariants. Each is proved against a predicate or function stating its result:
  - the loader loop (`Tables.Load`);
  - the `mode` assignment (`Modes.AddModeColumn`);
  - the parameter loop (`Reports.ParameterAverages`);
  - the subject scan (`Subjects.SubjectBlock`);
  - the subject rows (`Subjects.SubjectRows`).
- Pandas expressions with no explicit loop are functions.
- A column a row does not have reads as missing, as `pd.concat` fills it with NaN.
- Assigning a column (`df["source_file"] = ...`, `data["mode"] = ...`) keeps an existing column in place and appends a new one at the end.
- `pd.concat` lists columns in order of first appearance.
- Means are exact rational numbers. A mean over no numbers is `None`, where pandas gives NaN.
- Rendering a number as text (`astype(str)`) is a parameter `show` of the members that need it.

Behaviour of the code that the model keeps:

- The subject section reports "not detected" exactly when no column follows the anchor or the column right after it holds no number. The scan stops at the first column without a number (`app.py:214-219`). So a non-numeric column after the anchor hides any numeric columns further on.
- The learner support section gives its warning only when every Distance row has a missing cell in the column (`app.py:150-155`). A cell that is empty after `strip()` still counts as a value and is tallied as `""`.
- The anchor column is located twice, once per tab (`app.py:117` and `app.py:205`), by the same expression. Both uses go through `Roles.FindAnchor`.

## Model

| member | source | states |
|---|---|---|
| Strings.Trim | app.py:45 | `strip()` leaves a result that neither starts nor ends with whitespace and that sits in the input surrounded by whitespace only |
| Strings.NormalizeIdempotent | app.py:45 | normalising a column name twice (strip, then lower) gives the same name as normalising it once |
| Strings.LowerIdempotent | app.py:56 | lower-casing an already lower-cased string changes nothing |
| Strings.ContainsAt | app.py:57-61 | a keyword found at any offset of a name satisfies the `in` test |
| Strings.LessTotal | app.py:125 | the code-point order on names used to sort group keys is total, asymmetric and irreflexive |
| Numeric.SafeNum | app.py:20-21 | a number is kept as it is, a missing cell never coerces to a number, and a text coerces to a number exactly when it is a numeral |
| Numeric.ParseNumber | app.py:20-21 | a text reads as a number exactly when it is a numeral: an optional `+` or `-`, then digits, optionally followed by a point and more digits; any other text is missing |
| Numeric.UnsignedNumeralParses | app.py:20-21 | an unsigned text reads as a number exactly when it is digits, or digits, a point and digits |
| Numeric.ParseUnsignedDecimal | app.py:20-21 | the text `whole.fraction` of two digit strings coerces to the whole part plus the fraction's digits divided by ten to the power of their count |
| Numeric.ParseSigned | app.py:20-21 | a leading `+` keeps an unsigned numeral's value and a leading `-` negates it |
| Numeric.ParseDecimal | app.py:20-21 | a signed decimal text `[+\|-]whole.fraction` coerces to its value, negated under a minus sign |
| Numeric.ParseShowNat | app.py:20-21 | the decimal text of a whole number coerces back to that number |
| Numeric.Numbers | app.py:20-21 | the coerced numbers of a column are at most as many as its cells, and there are none exactly when no cell coerces |
| Numeric.NumbersAppend | app.py:102-104 | coercing and dropping NaN commutes with concatenating cells |
| Numeric.Mean | app.py:104 | a mean is undefined exactly when there are no numbers; otherwise it times the count is the sum |
| Numeric.MeanBounds | app.py:104 | a mean lies between any lower and upper bound of the values it averages |
| Tables.WithColumnKeeps | app.py:46 | assigning a column keeps the columns distinct and adds exactly that name |
| Tables.MergeColumns | app.py:49 | merged columns are those of either frame, the earlier frames' columns stay first and in order, and no name repeats |
| Sequences.FirstOccurrences | app.py:49 | the first occurrences of a sequence are duplicate-free and hold exactly its elements |
| Tables.MergeColumnsInOrder | app.py:49 | merging into duplicate-free columns gives the names of both lists in order of first appearance, each once |
| Tables.ConcatAllColumnOrder | app.py:49 | the concatenated frame's columns are all frames' columns in order of first appearance |
| Tables.PreparedHeaders | app.py:45-46 | the prepared frames' columns, one after the other, are each file's normalised header followed by `source_file` where it was missing |
| Tables.ConcatAllColumns | app.py:49 | the concatenated frame's columns are exactly the columns of the frames, each once |
| Tables.ConcatAllRowAt | app.py:49 | row j of frame k sits at that frame's offset plus j in the concatenation, which has as many rows as all frames together |
| Tables.ConcatAllRowOrigin | app.py:49 | every row of the concatenation is some row of some frame |
| Tables.TaggedHeader | app.py:45-46 | a file's normalised and tagged header is duplicate-free, normalised and includes `source_file` |
| Tables.TaggedRecord | app.py:45-46 | a tagged record holds the file name under `source_file`, each cell under its normalised column name, and nothing under any other name |
| Tables.Load | app.py:38-49 | the loaded frame's columns are the normalised header names and `source_file` of the files, in order of first appearance across the files, each once; they include `source_file`; it holds every record of every file, in file order then record order, each tagged with its file name |
| Tables.Select | app.py:73 | `isin` keeps, in their original order, exactly the rows whose cell is an allowed text |
| Tables.SelectCount | app.py:73 | `isin` keeps every copy of a row whose cell is allowed and no copy of any other row |
| Tables.SelectAppend | app.py:73 | selecting from two concatenated row blocks is selecting from each and concatenating |
| Modes.DetectMode | app.py:55-63 | Distance exactly when the lower-cased name contains "distance"; DTL when it contains "dtl" but not "distance"; Online when it contains "online" but neither of those; Unknown otherwise |
| Modes.DetectModeIgnoresCase | app.py:56 | a name and its lower-cased form get the same mode |
| Modes.ModeNameInjective | app.py:58-63 | the four mode labels are distinct, so comparing labels compares modes |
| Modes.DistanceBeforeDtl | app.py:57-60 | a name containing both "distance" and "dtl" is classified Distance |
| Modes.AddModeColumn | app.py:65 | every row gets its file's mode label in `mode`; every other cell and the row order are unchanged |
| Modes.Filtered | app.py:73-81 | the two filters keep the columns and, in order, exactly the rows whose mode and file are both selected, each as often as it occurs in the input; an empty selection leaves no rows |
| Modes.FilteredRows | app.py:65-81 | a row with its derived mode survives exactly when its file's mode and its file are both selected |
| Modes.FilteredByModes | app.py:65-81 | selecting a set of modes by their labels keeps a row exactly when its file's detected mode is one of those modes and its file is selected |
| Roles.RatingColumns | app.py:98 | the rating columns are, in column order, exactly the columns whose name contains "rate" or "rating" |
| Roles.FindAnchor | app.py:117 | the anchor is the first column whose name contains "delivery of lecture", and there is none exactly when no column does |
| Roles.HasNumericWitness | app.py:216 | `notna().sum() > 0` holds exactly when some row's cell in the column coerces to a number |
| Sorting.Insert | app.py:125 | inserting a new key into ascending keys gives ascending keys with the key added |
| Sorting.SortStrings | app.py:125 | the group keys come out strictly ascending, a permutation of the input |
| Sorting.SortStringsMembers | app.py:125 | sorting the group keys keeps exactly the names it was given |
| Counting.InsertByCount | app.py:158 | inserting a tally into tallies sorted by descending count keeps them sorted and adds exactly that tally |
| Counting.ValueCounts | app.py:158 | the tallies are in descending order of count |
| Counting.ValueCountsExact | app.py:158 | every present value has exactly one tally, holding its number of occurrences, and no other value has one |
| Counting.ValueCountsTotal | app.py:158 | the tallied counts add up to the number of values |
| Reports.OverallAverage | app.py:98-108 | the response count is the number of filtered rows |
| Reports.PoolByColumns | app.py:100-105 | stacking the rating cells row by row yields the same count and sum of numbers as taking the rating columns one at a time |
| Reports.OverallAverageByColumns | app.py:100-105 | the overall average is the sum of the numeric rating cells divided by their count, and undefined when there are none |
| Reports.Files | app.py:125 | the group keys are the file names present in the rows, each once |
| Reports.PerFileAverages | app.py:117-128 | an error exactly when there is no anchor column; otherwise one row per file present, in ascending name order, each with the mean of that file's numbers in the anchor column |
| Reports.FileKeysSorted | app.py:125 | the sorted group keys are strictly ascending and are exactly the files present |
| Reports.GroupMeans | app.py:124-126 | one row per key, in key order, each with the mean of that key's numbers |
| Reports.FileAverageDefined | app.py:124-126 | a file's average is defined exactly when one of its rows has a number in the column |
| Reports.Texts | app.py:150-152 | one value per non-missing cell, so none exactly when every cell is missing |
| Reports.TextsMembers | app.py:150-152 | the values are exactly the stripped texts of the non-missing cells, with their case kept |
| Reports.PresentMembers | app.py:150-151 | the values of `dropna()` followed by a per-value map are exactly the mapped non-missing cells |
| Reports.PresentSelected | app.py:149-151 | after keeping the rows whose cell in one column is an allowed text, the mapped non-missing cells of a column are exactly those of the admitted rows |
| Reports.SupportValuesMembers | app.py:148-152 | the learner support values are exactly the stripped, case-kept texts of the Distance rows' non-missing cells in the column |
| Reports.NoSupportValues | app.py:148-155 | there are no learner support values, and so the warning, exactly when every Distance row lacks a value in the column |
| Reports.LearnerSupport | app.py:145-159 | an error exactly when the column is absent; a warning exactly when it is present and no Distance row has a value there; otherwise the value counts of the Distance rows' stripped values |
| Reports.LearnerSupportCounts | app.py:158-159 | the learner support tallies are by descending count, each value of a Distance row once with its number of occurrences, adding up to the number of values |
| Reports.ParameterRowFor | app.py:182-187 | a parameter row carries the column's name and the mean of its numbers |
| Reports.ParameterAverages | app.py:176-189 | the parameter rows follow column order, there is one exactly for each column whose name contains one of the seven keywords and which holds a number, and each has that column's mean |
| Reports.SheetName | app.py:17 | a sheet name is the first 31 characters of a longer name and an unchanged name of 31 characters or fewer |
| Reports.EmptyReports | app.py:98-183 | with no rows left after the filters: zero responses and no average, an empty or missing per-file table, no learner support counts, and no column holding a number |
| Subjects.SubjectBlockUnique | app.py:214-219 | at most one block starts at a given position, runs over columns that pass the test, and stops at the first column that fails it |
| Subjects.StopsAtFirstGap | app.py:214-219 | when all columns from the start up to position k pass and column k fails, the block is exactly those columns, whatever follows |
| Subjects.SubjectBlock | app.py:211-219 | the scan returns the contiguous run of columns after the start that pass the test, stopping at the first that fails |
| Subjects.FirstPresentAt | app.py:227-231 | the position of the first non-missing cell: all cells before it are missing |
| Subjects.NumericHasLabel | app.py:216-231 | a column holding a number has a first non-missing cell, so `iloc[0]` finds a label |
| Subjects.SubjectRowFor | app.py:226-237 | a subject row carries the column's first non-missing cell as text and the mean of its numbers |
| Subjects.SubjectRows | app.py:225-237 | one row per subject column, in block order, each with that column's label and mean |
| Subjects.SubjectWise | app.py:205-239 | an error exactly when there is no anchor; "not detected" exactly when the block after the anchor is empty; otherwise one row per column of that block, with its label and mean |

## Left out

- The Streamlit interface is not modelled. This covers the page setup, title, uploader widget, tabs, metrics, charts, tables and download buttons. The sidebar's choices are the parameters `modes` and `files` of `Modes.Filtered`.
- The check `if not files: st.stop()` is the precondition `|files| > 0` of `Tables.Load`.
- `st.stop()` in the subject section is modelled as that section's outcome.
- Reading files (`read_csv`, `read_excel`, chosen by the `.csv` suffix) is not modelled. A parsed file is a `RawFile`: its name, header and records.
- Writing workbooks (`to_excel`, `ExcelWriter`, openpyxl) is not modelled. Only the 31-character sheet-name rule is kept, as `Reports.SheetName`.
- Tables.Load: requires rectangular records and a header that stays duplicate-free after normalisation. Pandas would allow duplicate column names, and the sections would then behave in ways not modelled here.
- Tables.Load, Modes.AddModeColumn: pandas changes the frames in place; the model builds new frame values. No frame is shared, so no aliasing is lost.
- Numeric.SafeNum: models `pd.to_numeric` only for texts of the form optional sign, digits, and optionally a dot and more digits. Other numeric spellings coerce to missing here, though pandas reads them as numbers: surrounding whitespace, exponents, `inf`, a leading or trailing dot.
- Numeric.Mean: means are exact reals. Floating-point rounding, NaN and infinities are not modelled.
- Display rounding (`round(..., 2)`) is not modelled; reported averages are unrounded.
- Strings.LowerChar: lower-cases ASCII and Latin-1 letters only, not the rest of Unicode that Python's `str.lower()` maps.
- Reports.CellText: turning a number into text (`astype(str)`) is the parameter `show`; its exact float formatting is not modelled.
- Counting.ValueCounts: breaks ties in count by first appearance. The order pandas gives to equal counts depends on its version and is not modelled.
- Sorting.SortStrings: sorts file names by code point, as Python compares `str`. Group keys are always distinct, which the precondition states.
- Reports.OverallAverage: the outcome holds the response count and the mean; the metric widget's display of NaN is not modelled.
