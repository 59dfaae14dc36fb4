/** The snapshot-building steps of `SQGUIMainWindow.refresh`: select the fixed columns,
    keep running and pending jobs, optionally keep only the user's own, and turn the
    timestamp columns into instants. */
module Snapshot {
  import opened Wrappers
  import opened Cells
  import opened Seqs
  import opened Decimal

  /** A job as squeue's JSON reports it: field name to value. */
  type Record = map<string, Cell>

  /** The columns the window shows, in order. */
  const SQCOLS: seq<string> :=
    ["job_id", "job_state", "user_name", "qos", "node_count", "cpus", "start_time"]

  /** The fields squeue reports as epoch seconds. */
  const SQUEUE_TIMEVAR: seq<string> :=
    ["accrue_time", "eligible_time", "end_time", "last_sched_evaluation", "start_time", "submit_time"]

  /** Why a refresh raises before reaching the table: a KeyError naming the columns the frame
      lacks, or a timestamp column holding something that is not epoch seconds pandas can hold
      (ValueError or OutOfBoundsDatetime). */
  datatype BuildError = MissingColumns(names: seq<string>) | NotEpoch

  /** The columns of the frame pandas builds from the records: every field any record has. */
  function FrameColumns(records: seq<Record>): (names: set<string>)
    ensures forall name :: name in names <==> exists i | 0 <= i < |records| :: name in records[i]
  {
    if records == [] then {} else records[0].Keys + FrameColumns(records[1..])
  }

  /** One record as a row over `cols`, NaN (Null) where the record lacks a field that other
      records carry. */
  function ProjectRecord(rec: Record, cols: seq<string>): (row: Row)
    ensures |row| == |cols|
    ensures forall j | 0 <= j < |cols| && cols[j] in rec :: row[j] == rec[cols[j]]
    ensures forall j | 0 <= j < |cols| && cols[j] !in rec :: row[j] == Null
  {
    seq(|cols|, j requires 0 <= j < |cols| => if cols[j] in rec then rec[cols[j]] else Null)
  }

  /** Every record projected onto `cols`, in source order. */
  function Projected(records: seq<Record>, cols: seq<string>): (rows: seq<Row>)
    ensures |rows| == |records| && Rectangular(rows, |cols|)
    ensures forall i | 0 <= i < |records| :: rows[i] == ProjectRecord(records[i], cols)
  {
    seq(|records|, i requires 0 <= i < |records| => ProjectRecord(records[i], cols))
  }

  /** `self.sqdata[self.sqcols]` as written: a KeyError when some column is in no record.
      A frame built from an empty job list has no columns at all, so it always raises. */
  function ProjectFrameAsWritten(records: seq<Record>, cols: seq<string>): (res: Result<seq<Row>, BuildError>)
    ensures res.Err? <==> exists j | 0 <= j < |cols| :: cols[j] !in FrameColumns(records)
    ensures res.Err? ==> res.error.MissingColumns?
    ensures res.Err? ==> forall name :: name in res.error.names <==> name in cols && name !in FrameColumns(records)
    ensures res.Ok? ==> |res.value| == |records| && Rectangular(res.value, |cols|)
    ensures res.Ok? ==> forall i, j | 0 <= i < |records| && 0 <= j < |cols| ::
      res.value[i][j] == if cols[j] in records[i] then records[i][cols[j]] else Null
  {
    var present := FrameColumns(records);
    var missing := Filter((name: string) => name !in present, cols);
    if missing != [] then
      assert forall name :: name in missing <==> name in cols && name !in present by {
        forall name ensures name in missing <==> name in cols && name !in present {
          FilterMembership((name: string) => name !in present, cols, name);
        }
      }
      assert missing[0] in missing;
      assert cols[IndexOf(cols, missing[0])] !in present;
      Err(MissingColumns(missing))
    else
      assert forall j | 0 <= j < |cols| :: cols[j] in present by {
        forall j | 0 <= j < |cols| ensures cols[j] in present {
          FilterMembership((name: string) => name !in present, cols, cols[j]);
        }
      }
      Ok(Projected(records, cols))
  }

  /** The column selection as intended: an empty job list yields an empty frame. */
  function ProjectFrame(records: seq<Record>, cols: seq<string>): (res: Result<seq<Row>, BuildError>)
    ensures records == [] ==> res == Ok([])
    ensures records != [] ==> res == ProjectFrameAsWritten(records, cols)
  {
    if records == [] then Ok([]) else ProjectFrameAsWritten(records, cols)
  }

  /** An idle queue: the selection as written raises for the empty job list, naming every column. */
  lemma EmptyQueueRaisesAsWritten()
    ensures ProjectFrameAsWritten([], SQCOLS).Err?
    ensures ProjectFrame([], SQCOLS) == Ok([])
  {
    assert SQCOLS[0] !in FrameColumns([]);
  }

  /** The states `isin(['RUNNING', 'PENDING'])` keeps. */
  function IsActive(x: Cell): (b: bool)
    ensures b <==> x == Str("RUNNING") || x == Str("PENDING")
  {
    x.Str? && x.s in ["RUNNING", "PENDING"]
  }

  /** The mask on `job_state`; a KeyError when the frame has no such column. */
  function KeepActive(rows: seq<Row>, cols: seq<string>): (res: Result<seq<Row>, BuildError>)
    requires Rectangular(rows, |cols|)
    ensures res.Ok? <==> "job_state" in cols
    ensures res.Ok? ==> Rectangular(res.value, |cols|) && |res.value| <= |rows|
    ensures res.Ok? ==> forall i | 0 <= i < |res.value| :: IsActive(res.value[i][IndexOf(cols, "job_state")])
  {
    if "job_state" !in cols then Err(MissingColumns(["job_state"]))
    else
      var k := IndexOf(cols, "job_state");
      Ok(Filter((row: Row) => k < |row| && IsActive(row[k]), rows))
  }

  /** The mask `user_name == uname`; a KeyError when the frame has no such column. */
  function KeepOwnedBy(rows: seq<Row>, cols: seq<string>, uname: string): (res: Result<seq<Row>, BuildError>)
    requires Rectangular(rows, |cols|)
    ensures res.Ok? <==> "user_name" in cols
    ensures res.Ok? ==> Rectangular(res.value, |cols|) && |res.value| <= |rows|
    ensures res.Ok? ==> forall i | 0 <= i < |res.value| :: res.value[i][IndexOf(cols, "user_name")] == Str(uname)
  {
    if "user_name" !in cols then Err(MissingColumns(["user_name"]))
    else
      var k := IndexOf(cols, "user_name");
      Ok(Filter((row: Row) => k < |row| && row[k] == Str(uname), rows))
  }

  /** Lines 296-305 as written: select the columns (raising for an empty job list), keep
      running and pending jobs, and keep only the user's own when the self filter is checked.
      It fails exactly when one of the three selections raises KeyError. */
  function BuildFrame(records: seq<Record>, cols: seq<string>, uname: string, selfOnly: bool): (res: Result<seq<Row>, BuildError>)
    ensures res.Ok? <==>
      ProjectFrameAsWritten(records, cols).Ok? && "job_state" in cols && (selfOnly ==> "user_name" in cols)
    ensures res.Err? ==> res.error.MissingColumns?
    ensures res.Ok? ==> Rectangular(res.value, |cols|) && |res.value| <= |records|
    ensures res.Ok? ==> "job_state" in cols
    ensures res.Ok? ==> forall i | 0 <= i < |res.value| :: IsActive(res.value[i][IndexOf(cols, "job_state")])
    ensures res.Ok? && selfOnly ==> "user_name" in cols
    ensures res.Ok? && selfOnly ==>
      forall i | 0 <= i < |res.value| :: res.value[i][IndexOf(cols, "user_name")] == Str(uname)
  {
    var frame :- ProjectFrameAsWritten(records, cols);
    var active :- KeepActive(frame, cols);
    if selfOnly then KeepOwnedBy(active, cols, uname) else Ok(active)
  }

  /** Whether a projected record survives the two masks. */
  predicate Survives(row: Row, cols: seq<string>, uname: string, selfOnly: bool)
  {
    && "job_state" in cols && IndexOf(cols, "job_state") < |row|
    && IsActive(row[IndexOf(cols, "job_state")])
    && (selfOnly ==>
          "user_name" in cols && IndexOf(cols, "user_name") < |row|
          && row[IndexOf(cols, "user_name")] == Str(uname))
  }

  /** The two masks as one. */
  function SurvivalMask(cols: seq<string>, uname: string, selfOnly: bool): Row -> bool
  {
    (row: Row) => Survives(row, cols, uname, selfOnly)
  }

  /** The frame a refresh builds is the projected records masked once by both conditions:
      exactly the running or pending ones (and the user's own, under the self filter), each
      as often as squeue listed it, in the order squeue listed them. */
  lemma {:induction false} BuildFrameKeeps(records: seq<Record>, cols: seq<string>, uname: string, selfOnly: bool)
    requires BuildFrame(records, cols, uname, selfOnly).Ok?
    ensures var rows := BuildFrame(records, cols, uname, selfOnly).value;
      && rows == Filter(SurvivalMask(cols, uname, selfOnly), Projected(records, cols))
      && IsSubsequence(rows, Projected(records, cols))
      && forall row :: row in rows <==> row in Projected(records, cols) && Survives(row, cols, uname, selfOnly)
  {
    var frame := Projected(records, cols);
    assert ProjectFrameAsWritten(records, cols) == Ok(frame);
    var mask := SurvivalMask(cols, uname, selfOnly);
    var k := IndexOf(cols, "job_state");
    var pActive := (row: Row) => k < |row| && IsActive(row[k]);
    var active := Filter(pActive, frame);
    if selfOnly {
      var u := IndexOf(cols, "user_name");
      var pOwn := (row: Row) => u < |row| && row[u] == Str(uname);
      FilterFilter(pActive, pOwn, mask, frame);
    } else {
      FilterExtensional(pActive, mask, frame);
    }
    FilterIsSubsequence(mask, frame);
    forall row ensures row in Filter(mask, frame) <==> row in frame && mask(row) {
      FilterMembership(mask, frame, row);
    }
  }

  /** The largest number of seconds pandas can hold as an instant: its instants are 64-bit
      counts of nanoseconds, so `|n| * 10^9` must stay below 2^63. */
  const MAX_EPOCH_SECONDS: int := 9223372036

  /** Whether `n` seconds from the epoch is an instant pandas can represent. */
  predicate InInstantRange(n: int)
  {
    -MAX_EPOCH_SECONDS <= n <= MAX_EPOCH_SECONDS
  }

  /** The text that `pd.to_datetime` reads as a missing instant. */
  predicate IsNaTText(s: string)
  {
    s in ["", "NaT", "nat", "NAT", "nan", "NaN", "NAN"]
  }

  /** `pd.to_datetime(value, unit='s')` on one value. Epoch seconds, as a number or as numeric
      text, become an instant when pandas can hold it; an instant stays one; NaN and the
      missing-value texts become NaT. Other text, and seconds out of range, raise. */
  function ToInstant(x: Cell): (t: Option<Cell>)
    ensures x.Int? ==> (t.Some? <==> InInstantRange(x.i))
    ensures x.Int? && t.Some? ==> t.value == Time(x.i)
    ensures x.Str? && IsNaTText(x.s) ==> t == Some(NaT)
    ensures x.Str? && !IsNaTText(x.s) ==>
      (t.Some? <==> ParseInt(x.s).Some? && InInstantRange(ParseInt(x.s).value))
    ensures x.Str? && !IsNaTText(x.s) && t.Some? ==> t.value == Time(ParseInt(x.s).value)
    ensures x.Null? || x.NaT? ==> t == Some(NaT)
    ensures x.Time? ==> t == Some(x)
    ensures t.Some? ==> t.value.Time? || t.value.NaT?
  {
    match x
    case Int(n) => if InInstantRange(n) then Some(Time(n)) else None
    case Time(_) => Some(x)
    case Null => Some(NaT)
    case NaT => Some(NaT)
    case Str(text) =>
      if IsNaTText(text) then Some(NaT)
      else match ParseInt(text)
        case Some(n) => if InInstantRange(n) then Some(Time(n)) else None
        case None => None
  }

  /** Numeric text is read as seconds. */
  lemma NumericTextConverts()
    ensures ToInstant(Str("86400")) == Some(Time(86400))
  {
    OneDayText();
    assert !IsNaTText("86400");
    assert InInstantRange(86400);
  }

  /** `int("86400")` is the number of seconds in a day. */
  lemma OneDayText()
    ensures ParseInt("86400") == Some(86400)
  {
    assert ToDecimal(86400) == "86400" by {
      assert ToDecimal(8) == "8";
      assert ToDecimal(86) == "86";
      assert ToDecimal(864) == "864";
      assert ToDecimal(8640) == "8640";
    }
    DecimalRoundTrip(86400);
  }

  /** The empty text and "nan" are read as missing instants. */
  lemma MissingTextIsNaT()
    ensures ToInstant(Str("")) == Some(NaT) && ToInstant(Str("nan")) == Some(NaT)
  {
  }

  /** Ten billion seconds lies beyond what pandas can hold, so the conversion raises. */
  lemma OutOfRangeRaises()
    ensures ToInstant(Int(10000000000)) == None
  {
  }

  /** Text that is not a number cannot be read as seconds. */
  lemma WordTextRaises()
    ensures ToInstant(Str("RUNNING")) == None
  {
    assert !IsNaTText("RUNNING");
    assert Strip("RUNNING") == "RUNNING" by {
      StripUnblanked("RUNNING");
    }
    assert !IsNumeral("RUNNING") by {
      assert !IsDigit("RUNNING"[0]);
    }
  }

  /** Converting a converted value again changes nothing. */
  lemma ToInstantIdempotent(x: Cell)
    requires ToInstant(x).Some?
    ensures ToInstant(ToInstant(x).value) == ToInstant(x)
  {
  }

  /** Every cell of every timestamp column can be converted. */
  predicate Convertible(rows: seq<Row>, cols: seq<string>)
    requires Rectangular(rows, |cols|)
  {
    forall i, j | 0 <= i < |rows| && 0 <= j < |cols| && cols[j] in SQUEUE_TIMEVAR :: ToInstant(rows[i][j]).Some?
  }

  /** A cell after the timestamp step: converted in a timestamp column, untouched elsewhere. */
  function Converted(x: Cell, col: string): Cell
    requires col in SQUEUE_TIMEVAR ==> ToInstant(x).Some?
  {
    if col in SQUEUE_TIMEVAR then ToInstant(x).value else x
  }

  /** Lines 308-310: every timestamp column of the frame turned into instants, or a failure
      when one of them holds a value that is not epoch seconds. */
  function ConvertTimes(rows: seq<Row>, cols: seq<string>): (res: Result<seq<Row>, BuildError>)
    requires Rectangular(rows, |cols|)
    ensures res.Ok? <==> Convertible(rows, cols)
    ensures res.Err? ==> res.error == NotEpoch
    ensures res.Ok? ==> |res.value| == |rows| && Rectangular(res.value, |cols|)
    ensures res.Ok? ==> forall i, j | 0 <= i < |rows| && 0 <= j < |cols| ::
      if cols[j] in SQUEUE_TIMEVAR then ToInstant(rows[i][j]) == Some(res.value[i][j])
      else res.value[i][j] == rows[i][j]
  {
    if !Convertible(rows, cols) then Err(NotEpoch)
    else Ok(seq(|rows|, i requires 0 <= i < |rows| =>
              seq(|cols|, j requires 0 <= j < |cols| => Converted(rows[i][j], cols[j]))))
  }

  /** Cell `x` of the frame stands as `y` in the working copy: converted when `done`,
      untouched otherwise. */
  predicate CellStep(x: Cell, y: Cell, done: bool)
  {
    if done then ToInstant(x) == Some(y) else y == x
  }

  /** `self.sqdata[col] = pd.to_datetime(self.sqdata[col], unit='s')` for column `j`:
      every cell of that column converted, or None when one of them cannot be. */
  method ConvertColumn(frame: seq<Row>, width: nat, j: nat) returns (res: Option<seq<Row>>)
    requires Rectangular(frame, width) && j < width
    ensures res.None? <==> exists i | 0 <= i < |frame| :: ToInstant(frame[i][j]).None?
    ensures res.Some? ==> |res.value| == |frame| && Rectangular(res.value, width)
    ensures res.Some? ==> forall i, k | 0 <= i < |frame| && 0 <= k < width ::
      CellStep(frame[i][k], res.value[i][k], k == j)
  {
    var out := frame;
    for i := 0 to |frame|
      invariant |out| == |frame| && Rectangular(out, width)
      invariant forall i', k | 0 <= i' < |frame| && 0 <= k < width ::
        CellStep(frame[i'][k], out[i'][k], k == j && i' < i)
      invariant forall i' | 0 <= i' < i :: ToInstant(frame[i'][j]).Some?
    {
      assert CellStep(frame[i][j], out[i][j], false);
      match ToInstant(out[i][j])
      case None =>
        return None;
      case Some(t) =>
        ghost var prev := out;
        out := out[i := out[i][j := t]];
        assert forall i', k | 0 <= i' < |frame| && 0 <= k < width ::
          out[i'][k] == if i' == i && k == j then t else prev[i'][k];
    }
    res := Some(out);
  }

  /** Column `k` is among the first `j` and is a timestamp column. */
  predicate ConvertedBefore(cols: seq<string>, k: nat, j: nat)
    requires k < |cols|
  {
    k < j && cols[k] in SQUEUE_TIMEVAR
  }

  /** The timestamp loop of lines 308-310: each timestamp column of the frame, in order,
      replaced by its conversion. */
  method ConvertTimeColumns(rows: seq<Row>, cols: seq<string>) returns (res: Result<seq<Row>, BuildError>)
    requires Rectangular(rows, |cols|)
    ensures res == ConvertTimes(rows, cols)
  {
    var out := rows;
    assert forall i, k | 0 <= i < |rows| && 0 <= k < |cols| :: CellStep(rows[i][k], out[i][k], ConvertedBefore(cols, k, 0));
    for j := 0 to |cols|
      invariant |out| == |rows| && Rectangular(out, |cols|)
      invariant forall i, k | 0 <= i < |rows| && 0 <= k < |cols| ::
        CellStep(rows[i][k], out[i][k], ConvertedBefore(cols, k, j))
    {
      if cols[j] in SQUEUE_TIMEVAR {
        var converted := ConvertColumn(out, |cols|, j);
        if converted.None? {
          assert !Convertible(rows, cols) by {
            var i :| 0 <= i < |out| && ToInstant(out[i][j]).None?;
            assert CellStep(rows[i][j], out[i][j], ConvertedBefore(cols, j, j));
          }
          return Err(NotEpoch);
        }
        ghost var prev := out;
        out := converted.value;
        forall i, k | 0 <= i < |rows| && 0 <= k < |cols|
          ensures CellStep(rows[i][k], out[i][k], ConvertedBefore(cols, k, j + 1))
        {
          assert CellStep(prev[i][k], out[i][k], k == j);
          assert CellStep(rows[i][k], prev[i][k], ConvertedBefore(cols, k, j));
        }
      } else {
        forall i, k | 0 <= i < |rows| && 0 <= k < |cols|
          ensures CellStep(rows[i][k], out[i][k], ConvertedBefore(cols, k, j + 1))
        {
          assert CellStep(rows[i][k], out[i][k], ConvertedBefore(cols, k, j));
        }
      }
    }
    assert Convertible(rows, cols) by {
      forall i, k | 0 <= i < |rows| && 0 <= k < |cols| && cols[k] in SQUEUE_TIMEVAR
        ensures ToInstant(rows[i][k]).Some?
      {
        assert CellStep(rows[i][k], out[i][k], ConvertedBefore(cols, k, |cols|));
      }
    }
    var expected := seq(|rows|, i requires 0 <= i < |rows| =>
                      seq(|cols|, j requires 0 <= j < |cols| => Converted(rows[i][j], cols[j])));
    forall i | 0 <= i < |rows|
      ensures out[i] == expected[i]
    {
      forall k | 0 <= k < |cols|
        ensures out[i][k] == expected[i][k]
      {
        assert CellStep(rows[i][k], out[i][k], ConvertedBefore(cols, k, |cols|));
      }
    }
    assert out == expected;
    res := Ok(out);
  }

  /** Lines 295-310: the snapshot a refresh hands to the table, the filtered frame with
      instants. It fails exactly when a selection raises KeyError or a timestamp column holds
      something that is not epoch seconds. */
  function BuildSnapshot(records: seq<Record>, cols: seq<string>, uname: string, selfOnly: bool): (res: Result<seq<Row>, BuildError>)
    ensures res.Ok? <==>
      BuildFrame(records, cols, uname, selfOnly).Ok? && Convertible(BuildFrame(records, cols, uname, selfOnly).value, cols)
    ensures BuildFrame(records, cols, uname, selfOnly).Err? ==> res == Err(BuildFrame(records, cols, uname, selfOnly).error)
    ensures BuildFrame(records, cols, uname, selfOnly).Ok? && res.Err? ==> res.error == NotEpoch
    ensures res.Ok? ==> res == ConvertTimes(BuildFrame(records, cols, uname, selfOnly).value, cols)
    ensures res.Ok? ==> Rectangular(res.value, |cols|) && |res.value| <= |records|
    ensures res.Ok? ==> "job_state" in cols
    ensures res.Ok? ==> forall i | 0 <= i < |res.value| :: IsActive(res.value[i][IndexOf(cols, "job_state")])
    ensures res.Ok? && selfOnly ==> "user_name" in cols
    ensures res.Ok? && selfOnly ==>
      forall i | 0 <= i < |res.value| :: res.value[i][IndexOf(cols, "user_name")] == Str(uname)
  {
    var frame :- BuildFrame(records, cols, uname, selfOnly);
    var res := ConvertTimes(frame, cols);
    if res.Err? then res
    else
      ConvertKeepsColumn(frame, cols, IndexOf(cols, "job_state"));
      if selfOnly then ConvertKeepsColumn(frame, cols, IndexOf(cols, "user_name")); res
      else res
  }

  /** The refresh's steps in order: the filtered frame, then its timestamp columns converted
      one column at a time; the outcome, error included, is the one BuildSnapshot defines. */
  method TakeSnapshot(records: seq<Record>, cols: seq<string>, uname: string, selfOnly: bool)
    returns (res: Result<seq<Row>, BuildError>)
    ensures res == BuildSnapshot(records, cols, uname, selfOnly)
  {
    var frame := BuildFrame(records, cols, uname, selfOnly);
    if frame.Err? {
      return Err(frame.error);
    }
    res := ConvertTimeColumns(frame.value, cols);
  }

  /** The timestamp step leaves a column that is not a timestamp column as it was. */
  lemma ConvertKeepsColumn(rows: seq<Row>, cols: seq<string>, k: nat)
    requires Rectangular(rows, |cols|) && ConvertTimes(rows, cols).Ok?
    requires k < |cols| && cols[k] in ["job_state", "user_name"]
    ensures forall i | 0 <= i < |rows| :: ConvertTimes(rows, cols).value[i][k] == rows[i][k]
  {
    assert cols[k] !in SQUEUE_TIMEVAR;
  }
}
