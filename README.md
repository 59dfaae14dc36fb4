# squeue-gui: job table and refresh cycle

A Dafny model of the core of `squeue-gui.py`, a PyQt5 window that lists Slurm jobs.

The model covers:

- **`SqueueGUIModel`**, the Qt table model. It holds the job snapshot as a numpy array, its
  headers, and the active sort column and direction. It answers the view's `rowCount`,
  `columnCount`, `headerData` and `data` queries. It re-sorts on `sort` and on `update_model`.
- **The refresh cycle** of `SQGUIMainWindow`. Each refresh does four things:
  - it projects squeue's job records onto the seven display columns;
  - it keeps running and pending jobs, and only the user's own when "Limit to self job" is checked;
  - it converts the epoch-second timestamp columns to instants;
  - it installs the result in the model.
- **The auto-refresh controls**: the interval line edit, its `textChanged` handler, the
  auto-refresh check box, and the refresh counter `arefcnt`.

Layout:

- `wrappers.dfy`: Option and Result.
- `seqs.dfy`: the boolean mask (`Filter`), subsequences and `list.index`.
- `cells.dfy`: cell values and their total order.
- `sorting.dfy`: argsort and the sort direction.
- `decimal.dfy`: Python's `int()` and `str()` on the interval text.
- `table_model.dfy`: the class `SqueueGUIModel`.
- `snapshot.dfy`: the pandas steps of `refresh`.
- `main_window.dfy`: the class `SQGUIMainWindow`.

Conventions that follow the code:

- **Sort direction.** Lines 79-82 and 141-144 take a plain argsort, which puts the smallest
  value first, for `Qt.DescendingOrder`. They reverse it, putting the largest value first, for
  `Qt.AscendingOrder`. The model keeps this mapping (`Sorting.Before`), and
  `AscendingOrderIsLargestFirst` shows it on an example.
- **Sort stability.** numpy's default argsort is not stable, so the model says nothing about
  the relative order of rows with equal keys. It proves instead that the sorted column itself
  is determined (`OrderedColumnUnique`).
- **Invalid interval text.** `change_autorefresh_rate` calls `setText("1")`. Line 220 connects
  `textChanged` back to the same handler, so the handler runs again with "1". The net effect is
  a one-second interval, in the line edit and in the timer. `SetRateText` and
  `ChangeAutorefreshRate` model this re-entry as mutual recursion.
- **Timestamps.** A timestamp is kept as its epoch second. The rendering test of lines 113-117
  (`strftime('%s') == 18000`) is taken on that value. A timestamp the job record lacks
  becomes NaT, which `data` takes for a date and on which `strftime` raises ValueError.
- **The refresh pipeline is the code as written.** An empty job list makes the column selection
  of line 296 raise KeyError, so the refresh fails (`IdleQueueRefreshFails`). The corrected
  selection, `ProjectFrame`, stands beside it (see Findings).
- **Exceptions.** Where the code raises inside a Qt slot or model method, the model returns an
  error value (`Err`, `AttributeError`, `ValueError`), and `Refresh` returns early with the table
  unchanged. The program itself would by default end: PyQt5 5.5 and later abort on an exception
  that escapes into Qt's event loop. See "## Left out".

## Model

| member | source | states |
|---|---|---|
| TableModel.SqueueGUIModel.constructor | squeue-gui.py:47-53 | installs the array and headers as given; row and column counts are the array's shape; the sort column is 0 and the direction DescendingOrder |
| TableModel.SqueueGUIModel.UpdateModel | squeue-gui.py:63-84 | the headers become the new ones and the shape the new array's; the sort column follows the old column's name to its first position in the new headers, or drops to 0; the direction is kept; the rows are a permutation of the new array, ordered by the sort column in that direction |
| TableModel.ResolveSortColumn | squeue-gui.py:66-74 | the result is the first index of the old sort column's name in the new headers when it is there, and 0 otherwise |
| TableModel.ResolveSameHeaders | squeue-gui.py:66-74 | with unchanged headers naming each column once, the sort column stays where it was |
| TableModel.SqueueGUIModel.RowCount | squeue-gui.py:86-87 | the number of rows of the installed array |
| TableModel.SqueueGUIModel.ColumnCount | squeue-gui.py:89-90 | the number of headers, which is the width of every row |
| TableModel.SqueueGUIModel.HeaderData | squeue-gui.py:92-99 | for DisplayRole, a horizontal section in range gives its header, and a negative one counts from the end as Python does; a section past the end gives None, and one below minus the length raises IndexError; a vertical section p gives p + 1; any other role gives None |
| TableModel.Display | squeue-gui.py:113-119 | a date cell shows as 'N/A' exactly when its epoch second is 18000, and as its ISO date otherwise; a missing instant (NaT) raises ValueError, because `strftime` fails on it; any other cell shows as itself |
| TableModel.SqueueGUIModel.Data | squeue-gui.py:101-120 | a value is returned exactly for a valid index inside the table with DisplayRole, and it is the rendering of that cell, including the ValueError for a missing instant |
| TableModel.SqueueGUIModel.SetDataAsWritten | squeue-gui.py:122-135 | as written: every request that passes the four guards raises AttributeError; every other request returns False |
| TableModel.SetDataAsWrittenNeverStores | squeue-gui.py:133 | as written: an EditRole request for any cell inside the table raises instead of storing the value |
| TableModel.SqueueGUIModel.SetData | squeue-gui.py:122-135 | corrected: returns True exactly when the four guards pass, and then only the addressed cell changes, to the new value; otherwise nothing changes |
| TableModel.SqueueGUIModel.Sort | squeue-gui.py:137-145 | records the column and direction; the rows become a permutation of the old rows, ordered by that column in that direction; shape and headers are unchanged |
| Sorting.SortRows | squeue-gui.py:79-82 | the result is a permutation of the rows, ordered by the column: smallest first for DescendingOrder, largest first for AscendingOrder |
| Sorting.ArgSort | squeue-gui.py:79 | numpy's argsort applied to the rows: a permutation, ordered smallest first |
| Sorting.Insert | squeue-gui.py:79 | inserting a row into rows ordered smallest first gives the old rows plus that row, still ordered |
| Sorting.Reverse | squeue-gui.py:81 | `[::-1]`: the same length, with position i holding the element at position length - 1 - i |
| Sorting.ReversePermutes | squeue-gui.py:143 | reversing the rows keeps the same rows |
| Sorting.OrderedColumnUnique | squeue-gui.py:141-144 | any two orderings of the same rows by one column in one direction show the same sort column, although the sort is not stable |
| Sorting.AscendingOrderIsLargestFirst | squeue-gui.py:142-143 | with AscendingOrder, cpus 4, 1 and 2 show as 4, 2, 1 |
| Cells.CellLeTotal | squeue-gui.py:141 | any two cells compare one way or the other |
| Cells.CellLeTransitive | squeue-gui.py:141 | the cell order is transitive |
| Cells.CellLeAntisymmetric | squeue-gui.py:141 | two cells that sort before each other are equal |
| Cells.StrLeTotal | squeue-gui.py:141 | any two strings compare one way or the other |
| Cells.StrLeTransitive | squeue-gui.py:141 | lexicographic order on strings is transitive |
| Cells.StrLeAntisymmetric | squeue-gui.py:141 | two strings that sort before each other are equal |
| Seqs.Filter | squeue-gui.py:299-305 | a boolean mask: no longer than its input, and every element kept satisfies the mask and comes from the input |
| Seqs.FilterMembership | squeue-gui.py:299-305 | an element is kept exactly when it is in the input and satisfies the mask |
| Seqs.FilterIsSubsequence | squeue-gui.py:299-305 | a mask never reorders: what it keeps is a subsequence of its input |
| Seqs.FilterFilter | squeue-gui.py:299-305 | masking by one condition and then by another keeps exactly what masking once by both keeps |
| Seqs.FilterExtensional | squeue-gui.py:299-301 | two masks that agree on every element keep the same elements |
| Seqs.IndexOf | squeue-gui.py:74 | `list.index`: the result is a position holding the element, and no earlier position holds it |
| Snapshot.FrameColumns | squeue-gui.py:287-293 | a field is a column of the frame exactly when some record carries it |
| Snapshot.ProjectRecord | squeue-gui.py:296 | one cell per display column: the record's field where it has one, NaN where it lacks it |
| Snapshot.Projected | squeue-gui.py:296 | one row per record, in source order, each the record's projection |
| Snapshot.ProjectFrameAsWritten | squeue-gui.py:296 | as written: raises KeyError exactly when some display column is carried by no record, naming exactly those columns; otherwise one row per record, each cell the record's field or NaN where that record lacks it |
| Snapshot.EmptyQueueRaisesAsWritten | squeue-gui.py:296 | as written: the selection raises for an empty job list; the corrected one yields an empty frame |
| Snapshot.ProjectFrame | squeue-gui.py:296 | corrected: an empty job list gives an empty frame; otherwise the same as the selection as written |
| Snapshot.IsActive | squeue-gui.py:300 | `isin(['RUNNING', 'PENDING'])`: true exactly for those two states |
| Snapshot.KeepActive | squeue-gui.py:299-301 | raises KeyError exactly when there is no job_state column; otherwise every row kept is running or pending |
| Snapshot.KeepOwnedBy | squeue-gui.py:304-305 | raises KeyError exactly when there is no user_name column; otherwise every row kept belongs to the user |
| Snapshot.BuildFrame | squeue-gui.py:295-305 | fails, with KeyError, exactly when the column selection as written raises (an empty job list included), or when the job_state column is missing, or, under the self filter, the user_name column; otherwise every row has one cell per column and is running or pending, and under the self filter is also the user's own |
| Snapshot.BuildFrameKeeps | squeue-gui.py:295-305 | the filtered frame is the projected records masked once by both conditions, so it keeps every surviving record as often as squeue listed it and in squeue's order; a row is in it exactly when it is a projected record that passes both masks |
| Snapshot.ToInstant | squeue-gui.py:310 | `pd.to_datetime(..., unit='s')` on one value: a number of seconds becomes that instant when pandas can hold it (at most 9223372036 seconds either side of the epoch) and raises otherwise; integer text is read the same way; the empty text and the NaN spellings become NaT, as does NaN itself; any other text raises; the result is always an instant or NaT |
| Snapshot.NumericTextConverts | squeue-gui.py:310 | the text "86400" converts to the instant one day after the epoch |
| Snapshot.MissingTextIsNaT | squeue-gui.py:310 | the empty text and "nan" convert to NaT |
| Snapshot.OutOfRangeRaises | squeue-gui.py:310 | ten billion seconds is out of range, so the conversion raises |
| Snapshot.WordTextRaises | squeue-gui.py:310 | the text "RUNNING" cannot be converted |
| Snapshot.ToInstantIdempotent | squeue-gui.py:310 | converting a converted value again changes nothing |
| Snapshot.ConvertTimes | squeue-gui.py:308-310 | succeeds exactly when every cell of every timestamp column converts as ToInstant says; each such cell is converted, and cells of other columns are unchanged |
| Snapshot.ConvertColumn | squeue-gui.py:310 | fails exactly when some cell of the column cannot be converted; otherwise only that column changes, each cell converted |
| Snapshot.ConvertTimeColumns | squeue-gui.py:308-310 | the loop over the columns gives the same result as ConvertTimes |
| Snapshot.ConvertKeepsColumn | squeue-gui.py:308-310 | the job_state and user_name columns come through the timestamp step unchanged |
| Snapshot.BuildSnapshot | squeue-gui.py:295-310 | fails exactly when the filtering step fails (with its KeyError) or a timestamp cell of the filtered frame cannot be converted (with NotEpoch); otherwise the result is the filtered frame with its timestamp columns converted, and holds only running or pending jobs, and under the self filter only the user's own |
| Snapshot.TakeSnapshot | squeue-gui.py:295-310 | building the filtered frame and then converting its timestamp columns one by one yields exactly BuildSnapshot's outcome, its error included |
| Decimal.Strip | squeue-gui.py:271 | the result is a slice of the input with only blanks before and after it, and it neither starts nor ends with a blank |
| Decimal.ParseInt | squeue-gui.py:271 | `int()`: a value exactly when the stripped text is an optional sign followed by decimal digits; the value is the digits' value, negated after a minus sign |
| Decimal.UnsignedNumeral | squeue-gui.py:271 | any number of zeros followed by `str(n)` reads as n |
| Decimal.SignedNumeral | squeue-gui.py:271 | a plus or minus sign, any number of zeros and `str(n)` read as n or -n; with UnsignedNumeral, this fixes the value of every numeral |
| Decimal.ToDecimal | squeue-gui.py:214 | `str(n)` is a non-empty string of decimal digits |
| Decimal.DigitsValueOfDecimal | squeue-gui.py:214 | the digits `str(n)` writes have the value n |
| Decimal.DecimalRoundTrip | squeue-gui.py:271 | `int(str(n)) == n` for every natural n |
| Decimal.NegativeRoundTrip | squeue-gui.py:271 | a minus sign before `str(n)` reads back as -n |
| Decimal.BlanksIgnored | squeue-gui.py:271 | a blank before and a line break after `str(n)` still read back as n |
| MainWindow.RateOf | squeue-gui.py:271-272 | a rate exactly when `int()` reads the text and the value lies strictly between 0 and 10000, and then it is that value |
| MainWindow.RateOfDecimal | squeue-gui.py:271-272 | a number written in decimal is accepted as an interval exactly when it lies in 1..9999 |
| MainWindow.RateOfOne | squeue-gui.py:214 | the default text "1" is a valid interval of one second |
| MainWindow.RateBoundaries | squeue-gui.py:272 | "1" and "9999" are accepted; "0", "10000" and "-5" are rejected |
| MainWindow.RateOfSignedOrPadded | squeue-gui.py:271-273 | "+5" and "05", which the line edit lets through, are five-second intervals |
| MainWindow.SqcolsDistinct | squeue-gui.py:168-176 | the display columns name each column once |
| MainWindow.TimestampRendering | squeue-gui.py:113-117 | an epoch-second timestamp cell, once converted, shows as 'N/A' exactly when it is 18000, and as that instant's date otherwise; a missing one raises ValueError when shown |
| MainWindow.IdleQueueRefreshFails | squeue-gui.py:287-296 | with an empty job list the snapshot fails with KeyError naming every display column, with or without the self filter |
| MainWindow.RefreshExample | squeue-gui.py:295-310 | a running job of alice's with a sentinel start time and a completed job of bob's give a snapshot holding alice's job alone, its start time shown as 'N/A' |
| MainWindow.SQGUIMainWindow.constructor | squeue-gui.py:179-214 | an empty table over the seven columns, sorted on column 0 in DescendingOrder; the interval is 1000 ms shown as "1"; the timer is stopped and the counter is 0 |
| MainWindow.SQGUIMainWindow.SetRateText | squeue-gui.py:220 | setting the same text changes nothing; new valid text sets the interval to that many seconds; new invalid text ends with "1" and 1000 ms; the timer's interval follows |
| MainWindow.SQGUIMainWindow.ChangeAutorefreshRate | squeue-gui.py:268-278 | valid text gives an interval of that many seconds, in ms, and hands it to the timer; invalid text resets the line edit to "1", whose re-emitted signal sets 1000 ms; the counter and the timer's running state are unchanged |
| MainWindow.SQGUIMainWindow.ToggleAutorefresh | squeue-gui.py:259-265 | checking zeroes the counter and starts the timer with the interval in force; unchecking stops the timer and leaves the counter |
| MainWindow.SQGUIMainWindow.Refresh | squeue-gui.py:281-316 | the counter goes up by one on every call; when the snapshot as written builds, the model holds a permutation of it, ordered by the kept sort column and direction; when the fetch or any step raises, an empty job list included, the model returns with the table unchanged |

## Left out

- Running `squeue --version` and `squeue --json`, parsing the JSON, and the version gate are left out. A refresh receives the job records, or `None` when that step fails.
- `getpass.getuser()` is left out. The user name is a constructor parameter.
- The Qt widgets, layouts, the message box and `sys.exit` are left out, as are `resizeColumnsToContents` and the timing and memory logging of `refresh`.
- The timer firing and Qt's event loop are left out. The model keeps whether the timer runs and its interval.
- The model notifications `layoutAboutToBeChanged`, `layoutChanged` and `dataChanged` are left out.
- Timezones are left out. A converted timestamp keeps its epoch second, and the 18000 test of line 114 is made on that second. That matches the program only when the local timezone is UTC; under UTC-5, for example, the raw second 0 is the one shown as 'N/A'.
- Snapshot.ProjectRecord: a missing integer field becomes NaN, which turns the whole pandas column into floats, so for `cpus` 4 `data` returns 4.0 in that refresh; the model keeps integers as integers and the missing field as a null cell.
- Snapshot.ToInstant: pandas reads any text that Python's `float()` accepts, such as "1.5" or "1e9", and fractional seconds; the model reads integer text only, and keeps whole seconds.
- Snapshot.ConvertTimes: inherits the gap of ToInstant; a timestamp column holding fractional or exponent text fails in the model where pandas converts it.
- TableModel.SqueueGUIModel.UpdateModel: always ends sorted; with a column that mixes strings and numbers the program raises TypeError after installing the unsorted array (see the Sorting.SortRows line).
- TableModel.SqueueGUIModel.Sort: always ends sorted; with a column that mixes strings and numbers the program raises TypeError at line 141, after lines 139-140 have recorded the column and direction and before the rows change.
- Sorting.SortRows: a column whose cells are of different kinds is not modelled faithfully. The model orders kinds: null, then integers, then strings, then instants, then NaT. Three cases differ from numpy:
  - NaN against a number, and NaT against an instant, do not raise in numpy's object comparison; numpy treats such a pair as equal, so argsort leaves the row with the missing key at an unspecified place, where the model puts NaN first and NaT last;
  - NaN or a number against a string raises TypeError at line 79 or line 141;
  - in `update_model`, lines 67-74 have already installed the new unsorted array, headers, shape and sort column when that TypeError is raised. The model's `UpdateModel` and `Sort` always finish sorted.
- The `print` calls of `change_autorefresh_rate` are left out.
- Decimal.ParseInt: `int()` also accepts underscores between digits, non-ASCII digits and non-ASCII blanks, and it strips the vertical tab and the form feed; the model accepts ASCII digits with an optional sign, between spaces, tabs, line feeds and carriage returns.
- MainWindow.SQGUIMainWindow.ChangeAutorefreshRate: requires that its argument is the line edit's current text, which is how lines 220 and 262 call it.
- MainWindow.SQGUIMainWindow.ChangeAutorefreshRate: running Python with `-O` strips the `assert` of line 272 and lets any integer through; that mode is not modelled.
- TableModel.SqueueGUIModel.Sort: requires a column inside the table; numpy would raise IndexError past the end and count a negative column from the end.
- TableModel.SqueueGUIModel.UpdateModel: requires as many headers as columns and at least one column; `refresh` always passes the seven display columns.
- MainWindow.SQGUIMainWindow.Refresh: an exception that a step raises escapes the slot. PyQt5 5.5 and later then abort the program by default, unless an exception hook is installed. The model instead returns early, with the counter already raised and the table unchanged.
- TableModel.SqueueGUIModel.Data: the ValueError for a missing instant, and the AttributeError of `setData`, would also end the program under the same default; the model returns them as values.

## Findings

| source | as written | input that shows it | evidently intended | confidence | as-written member | corrected member |
|---|---|---|---|---|---|---|
| squeue-gui.py:296 | `self.sqdata[self.sqcols]` on the frame built from squeue's job list | an empty job list (an idle cluster): the frame has no columns, so the selection raises KeyError, which escapes the slot; by default PyQt5 then aborts the program | an empty table | not executed | Snapshot.ProjectFrameAsWritten, Snapshot.EmptyQueueRaisesAsWritten | Snapshot.ProjectFrame |
| squeue-gui.py:133 | `self.array.values[row][column] = value` | any EditRole request for a cell inside the table: a numpy array has no `values` attribute, so it raises AttributeError | store the value in that cell and return True | not executed | TableModel.SqueueGUIModel.SetDataAsWritten, TableModel.SetDataAsWrittenNeverStores | TableModel.SqueueGUIModel.SetData |
