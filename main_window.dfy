/** `SQGUIMainWindow`: the auto-refresh settings (interval, timer, counter) and the refresh
    cycle that rebuilds the table from a fresh squeue listing. */
module MainWindow {
  import opened Wrappers
  import opened Cells
  import opened Sorting
  import opened Decimal
  import opened TableModel
  import opened Snapshot
  import Seqs

  /** The interval, in seconds, that the auto-refresh text denotes: an integer `int()` accepts
      with `0 < n < 10000`; None where the handler's `int()` or `assert` fails. */
  function RateOf(text: string): (r: Option<int>)
    ensures r.Some? <==> ParseInt(text).Some? && 0 < ParseInt(text).value < 10000
    ensures r.Some? ==> r.value == ParseInt(text).value && 0 < r.value < 10000
  {
    match ParseInt(text)
    case Some(n) => if 0 < n < 10000 then Some(n) else None
    case None => None
  }

  /** A number written in decimal is accepted as an interval exactly when it lies in 1..9999. */
  lemma RateOfDecimal(n: nat)
    ensures RateOf(ToDecimal(n)) == if 0 < n < 10000 then Some(n) else None
  {
    DecimalRoundTrip(n);
  }

  /** "1", the line edit's default text, is a valid interval of one second. */
  lemma RateOfOne()
    ensures RateOf("1") == Some(1)
  {
    RateOfDecimal(1);
    assert ToDecimal(1) == "1";
  }

  /** The boundary cases of the interval check: 1 and 9999 are accepted; 0, 10000 and -5
      are not. */
  lemma RateBoundaries()
    ensures RateOf("1") == Some(1) && RateOf("9999") == Some(9999)
    ensures RateOf("0") == None && RateOf("10000") == None && RateOf("-5") == None
  {
    RateOfOne();
    RateOfDecimal(0);
    assert ToDecimal(0) == "0";
    RateOfDecimal(9999);
    DecimalOf9999();
    RateOfDecimal(10000);
    DecimalOf10000();
    NegativeRoundTrip(5);
    assert ToDecimal(5) == "5";
    assert "-" + "5" == "-5";
  }

  /** The line edit also lets through a plus sign and leading zeros; `int()` reads past both,
      so "+5" and "05" are five-second intervals. */
  lemma RateOfSignedOrPadded()
    ensures RateOf("+5") == Some(5) && RateOf("05") == Some(5)
  {
    assert ToDecimal(5) == "5";
    SignedNumeral('+', "", 5);
    assert ['+'] + "" + ToDecimal(5) == "+5";
    UnsignedNumeral("0", 5);
    assert "0" + ToDecimal(5) == "05";
  }

  /** `str(9999)` is "9999". */
  lemma DecimalOf9999()
    ensures ToDecimal(9999) == "9999"
  {
    assert ToDecimal(9) == "9";
    assert ToDecimal(99) == "99";
    assert ToDecimal(999) == "999";
  }

  /** `str(10000)` is "10000". */
  lemma DecimalOf10000()
    ensures ToDecimal(10000) == "10000"
  {
    assert ToDecimal(1) == "1";
    assert ToDecimal(10) == "10";
    assert ToDecimal(100) == "100";
    assert ToDecimal(1000) == "1000";
  }

  /** The window's column list names each column once. */
  lemma SqcolsDistinct()
    ensures Seqs.Distinct(SQCOLS)
  {
  }

  /** Epoch-sentinel law: a timestamp whose raw value is the sentinel second shows as 'N/A',
      any other as a date; a timestamp the job record lacks cannot be shown at all. */
  lemma TimestampRendering(rows: seq<Row>, cols: seq<string>, i: nat, j: nat)
    requires Rectangular(rows, |cols|) && ConvertTimes(rows, cols).Ok?
    requires i < |rows| && j < |cols| && cols[j] in SQUEUE_TIMEVAR
    ensures rows[i][j].Int? ==>
      Display(ConvertTimes(rows, cols).value[i][j]) ==
        (if rows[i][j].i == EPOCH_SENTINEL then NotAvailable else IsoDate(rows[i][j].i))
    ensures rows[i][j].Null? ==> Display(ConvertTimes(rows, cols).value[i][j]) == ValueError
  {
  }

  /** On an idle cluster the refresh fails: the frame built from no jobs has no columns, so
      the column selection raises KeyError, whatever the self filter says. */
  lemma IdleQueueRefreshFails(uname: string, selfOnly: bool)
    ensures BuildSnapshot([], SQCOLS, uname, selfOnly).Err?
    ensures BuildSnapshot([], SQCOLS, uname, selfOnly).error.MissingColumns?
    ensures forall name ::
      name in BuildSnapshot([], SQCOLS, uname, selfOnly).error.names <==> name in SQCOLS
  {
    EmptyQueueRaisesAsWritten();
    var e := ProjectFrameAsWritten([], SQCOLS);
    assert BuildFrame([], SQCOLS, uname, selfOnly) == e;
  }

  /** A running job of alice's that has not started yet (its start time is the sentinel). */
  function AliceJob(): Record
  {
    map["job_id" := Int(1), "job_state" := Str("RUNNING"), "user_name" := Str("alice"),
        "qos" := Str("normal"), "node_count" := Int(1), "cpus" := Int(4), "start_time" := Int(18000)]
  }

  /** A completed job of bob's with the same shape. */
  function BobJob(): Record
  {
    map["job_id" := Int(2), "job_state" := Str("COMPLETED"), "user_name" := Str("bob"),
        "qos" := Str("normal"), "node_count" := Int(1), "cpus" := Int(4), "start_time" := Int(18000)]
  }

  /** Either example job projects onto the window's columns as the given row. */
  lemma ExampleRecord(rec: Record, row: Row)
    requires rec == AliceJob() || rec == BobJob()
    requires |row| == 7 && row[1..3] == [rec["job_state"], rec["user_name"]]
    requires row[0] == rec["job_id"] && row[3..] == [Str("normal"), Int(1), Int(4), Int(18000)]
    ensures ProjectRecord(rec, SQCOLS) == row
  {
    var p := ProjectRecord(rec, SQCOLS);
    assert p[0] == row[0];
    assert p[1] == row[1] && p[2] == row[2];
    assert p[3] == row[3] && p[4] == row[4];
    assert p[5] == row[5] && p[6] == row[6];
  }

  /** Every one of the window's columns is a column of the example frame. */
  lemma ExampleColumns()
    ensures forall j | 0 <= j < |SQCOLS| :: SQCOLS[j] in FrameColumns([AliceJob(), BobJob()])
  {
    forall j | 0 <= j < |SQCOLS| ensures SQCOLS[j] in FrameColumns([AliceJob(), BobJob()]) {
      assert SQCOLS[j] in AliceJob();
    }
  }

  /** Both example jobs carry every column, so the selection keeps them in order. */
  lemma ExampleProjection()
    ensures ProjectFrame([AliceJob(), BobJob()], SQCOLS) ==
      Ok([[Int(1), Str("RUNNING"), Str("alice"), Str("normal"), Int(1), Int(4), Int(18000)],
          [Int(2), Str("COMPLETED"), Str("bob"), Str("normal"), Int(1), Int(4), Int(18000)]])
  {
    var records := [AliceJob(), BobJob()];
    var ra := [Int(1), Str("RUNNING"), Str("alice"), Str("normal"), Int(1), Int(4), Int(18000)];
    var rb := [Int(2), Str("COMPLETED"), Str("bob"), Str("normal"), Int(1), Int(4), Int(18000)];
    ExampleColumns();
    ExampleRecord(AliceJob(), ra);
    ExampleRecord(BobJob(), rb);
    assert Projected(records, SQCOLS) == [ra, rb];
  }

  /** `job_state` is the window's second column. */
  lemma JobStateColumn()
    ensures Seqs.IndexOf(SQCOLS, "job_state") == 1
  {
    assert SQCOLS[0] != "job_state" && SQCOLS[1] == "job_state";
  }

  /** The state mask keeps the running job and drops the completed one. */
  lemma ExampleFilter(ra: Row, rb: Row)
    requires ra == [Int(1), Str("RUNNING"), Str("alice"), Str("normal"), Int(1), Int(4), Int(18000)]
    requires rb == [Int(2), Str("COMPLETED"), Str("bob"), Str("normal"), Int(1), Int(4), Int(18000)]
    ensures KeepActive([ra, rb], SQCOLS) == Ok([ra])
  {
    var k := Seqs.IndexOf(SQCOLS, "job_state");
    JobStateColumn();
    var active := (row: Row) => k < |row| && IsActive(row[k]);
    assert IsActive(Str("RUNNING")) && !IsActive(Str("COMPLETED"));
    assert active(ra) && !active(rb);
    assert Seqs.Filter(active, [rb]) == [];
    assert Seqs.Filter(active, [ra, rb]) == [ra];
  }

  /** Only `start_time` is a timestamp column among the window's columns. */
  lemma ExampleConversion(ra: Row)
    requires ra == [Int(1), Str("RUNNING"), Str("alice"), Str("normal"), Int(1), Int(4), Int(18000)]
    ensures ConvertTimes([ra], SQCOLS) ==
      Ok([[Int(1), Str("RUNNING"), Str("alice"), Str("normal"), Int(1), Int(4), Time(18000)]])
  {
    var out := [Int(1), Str("RUNNING"), Str("alice"), Str("normal"), Int(1), Int(4), Time(18000)];
    assert forall j | 0 <= j < 6 :: SQCOLS[j] !in SQUEUE_TIMEVAR;
    assert SQCOLS[6] in SQUEUE_TIMEVAR;
    assert InInstantRange(18000);
    assert ToInstant(ra[6]) == Some(Time(18000));
    assert Convertible([ra], SQCOLS);
    var conv := ConvertTimes([ra], SQCOLS).value;
    assert |conv| == 1 && |conv[0]| == 7;
    assert forall k | 0 <= k < 7 :: conv[0][k] == out[k];
    assert conv[0] == out;
    assert conv == [out];
  }

  /** A refresh over alice's running job and bob's completed one, without the self filter:
      the snapshot holds alice's job alone, its start time shown as 'N/A'. */
  lemma RefreshExample()
    ensures
      var res := BuildSnapshot([AliceJob(), BobJob()], SQCOLS, "alice", false);
      && res == Ok([[Int(1), Str("RUNNING"), Str("alice"), Str("normal"), Int(1), Int(4), Time(18000)]])
      && Display(res.value[0][6]) == NotAvailable
  {
    var ra := [Int(1), Str("RUNNING"), Str("alice"), Str("normal"), Int(1), Int(4), Int(18000)];
    var rb := [Int(2), Str("COMPLETED"), Str("bob"), Str("normal"), Int(1), Int(4), Int(18000)];
    ExampleProjection();
    ExampleFilter(ra, rb);
    ExampleConversion(ra);
  }

  class SQGUIMainWindow {
    /** `getpass.getuser()`, read once at start-up. */
    const uname: string
    /** The table model the view shows. */
    const sqmodel: SqueueGUIModel
    /** Refreshes since auto-refresh was last switched on. */
    var arefcnt: int
    /** The auto-refresh interval in milliseconds. */
    var arefrte: int
    /** The text of the interval line edit. */
    var rateText: string
    /** Whether the QTimer runs, and the interval it was last given. */
    var timerActive: bool
    var timerInterval: int

    /** The interval line edit shows the interval in force. */
    ghost predicate RateShown()
      reads this
    {
      RateOf(rateText).Some? && arefrte == RateOf(rateText).value * 1000
    }

    ghost predicate Valid()
      reads this, sqmodel
    {
      && sqmodel.Valid()
      && sqmodel.headers == SQCOLS
      && RateShown()
      && (timerActive ==> timerInterval == arefrte)
      && arefcnt >= 0
    }

    /** The start-up state: an empty table over the window's columns, a one-second interval
        shown as "1", the timer stopped (a fresh QTimer has interval 0) and the counter at 0. */
    constructor (uname: string)
      ensures Valid()
      ensures this.uname == uname && fresh(sqmodel)
      ensures sqmodel.rows == [] && sqmodel.r == 0 && sqmodel.c == |SQCOLS|
      ensures sqmodel.sortBy == 0 && sqmodel.sortOrd == DescendingOrder
      ensures arefcnt == 0 && arefrte == 1000 && rateText == "1"
      ensures !timerActive && timerInterval == 0
    {
      this.uname := uname;
      sqmodel := new SqueueGUIModel(Matrix([], |SQCOLS|), SQCOLS);
      arefcnt := 0;
      arefrte := 1000;
      rateText := "1";
      timerActive := false;
      timerInterval := 0;
      RateOfOne();
    }

    /** The line edit's text becomes `text`, by an edit or by `setText`; when it differs from
        the old text Qt emits `textChanged`, which line 220 connects to
        ChangeAutorefreshRate. */
    method SetRateText(text: string)
      modifies this
      ensures text == old(rateText) ==> rateText == old(rateText) && arefrte == old(arefrte)
      ensures text == old(rateText) ==> timerInterval == old(timerInterval)
      ensures text != old(rateText) && RateOf(text).Some? ==>
        rateText == text && arefrte == RateOf(text).value * 1000
      ensures text != old(rateText) && RateOf(text).None? ==> rateText == "1" && arefrte == 1000
      ensures text != old(rateText) ==> timerInterval == arefrte && RateShown()
      ensures arefcnt == old(arefcnt) && timerActive == old(timerActive)
      decreases if RateOf(text).Some? then 1 else 3
    {
      if text != rateText {
        rateText := text;
        ChangeAutorefreshRate(rateText);
      }
    }

    /** Lines 268-278: a valid interval replaces the interval in force and the timer's; any
        other text is replaced by "1", and the `textChanged` that this `setText` emits runs
        the handler again with "1", so the interval becomes one second. */
    method ChangeAutorefreshRate(newRate: string)
      requires newRate == rateText
      modifies this
      ensures RateOf(newRate).Some? ==> rateText == newRate && arefrte == RateOf(newRate).value * 1000
      ensures RateOf(newRate).None? ==> rateText == "1" && arefrte == 1000
      ensures timerInterval == arefrte && RateShown()
      ensures old(RateShown()) ==> rateText == old(rateText) && arefrte == old(arefrte)
      ensures arefcnt == old(arefcnt) && timerActive == old(timerActive)
      decreases if RateOf(newRate).Some? then 0 else 2
    {
      match RateOf(newRate)
      case Some(n) =>
        arefrte := n * 1000;
        timerInterval := arefrte;
      case None =>
        RateOfOne();
        SetRateText("1");
    }

    /** Lines 259-265: switching auto-refresh on zeroes the counter, re-reads the interval and
        starts the timer with it; switching it off stops the timer. */
    method ToggleAutorefresh(checked: bool)
      requires Valid()
      modifies this
      ensures Valid()
      ensures checked ==> arefcnt == 0 && timerActive && timerInterval == arefrte
      ensures !checked ==> !timerActive && arefcnt == old(arefcnt) && timerInterval == old(timerInterval)
      ensures arefrte == old(arefrte) && rateText == old(rateText)
    {
      if checked {
        arefcnt := 0;
        ChangeAutorefreshRate(rateText);
        assert RateShown();
        timerActive := true;
        timerInterval := arefrte;
      } else {
        timerActive := false;
      }
    }

    /** Lines 281-316: count the cycle, then build the snapshot from what squeue returned
        (`fetched` is None when the call or its JSON failed) and install it. A failure raises
        out of the slot after the count; the program as written then ends by default, and
        the model instead returns with the table as it was. */
    method Refresh(fetched: Option<seq<Record>>, selfOnly: bool)
      requires Valid()
      modifies this, sqmodel
      ensures Valid()
      ensures arefcnt == old(arefcnt) + 1
      ensures arefrte == old(arefrte) && rateText == old(rateText)
      ensures timerActive == old(timerActive) && timerInterval == old(timerInterval)
      ensures sqmodel.sortBy == old(sqmodel.sortBy) && sqmodel.sortOrd == old(sqmodel.sortOrd)
      ensures fetched.Some? && BuildSnapshot(fetched.value, SQCOLS, uname, selfOnly).Ok? ==>
        var rows := BuildSnapshot(fetched.value, SQCOLS, uname, selfOnly).value;
        && sqmodel.r == |rows|
        && multiset(sqmodel.rows) == multiset(rows)
        && Ordered(sqmodel.rows, sqmodel.sortBy, sqmodel.sortOrd)
      ensures !(fetched.Some? && BuildSnapshot(fetched.value, SQCOLS, uname, selfOnly).Ok?) ==>
        sqmodel.rows == old(sqmodel.rows) && sqmodel.r == old(sqmodel.r)
    {
      arefcnt := arefcnt + 1;
      if fetched.None? {
        return;
      }
      var snapshot := TakeSnapshot(fetched.value, SQCOLS, uname, selfOnly);
      if snapshot.Err? {
        return;
      }
      SqcolsDistinct();
      ResolveSameHeaders(SQCOLS, sqmodel.sortBy);
      sqmodel.UpdateModel(Matrix(snapshot.value, |SQCOLS|), SQCOLS);
    }
  }
}
