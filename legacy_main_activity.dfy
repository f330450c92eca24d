/** The original home screen, `MainActivity.kt`, which kept the check-in
    state in the activity itself and computed the day's and the week's
    worked time inline. Views, animations, toasts shown on screen and the
    coroutines are not modelled; each handler runs to completion with the
    clock reading `now`, and the toast a handler raises is returned. */
module LegacyMain {
  import opened Records
  import opened Seqs
  import opened DateTimeUtils
  import opened Dao
  import opened Repository
  import opened LegacyBlocks
  import MainScreen

  // ---------------------------------------------------------------------
  // The day's total of `updateTodayTime`

  /** The sum the `while` loop of `updateTodayTime` builds from index `i`:
      an entry directly followed by an exit adds the truncated minutes
      between them and the walk jumps past both; any other record is
      stepped over. The loop stops before the last record. */
  function AdjacentMinutes(rs: seq<TimeRecord>, i: nat): int
    decreases |rs| - i
  {
    if i + 1 >= |rs| then 0
    else if rs[i].recordType == CheckIn && rs[i + 1].recordType == CheckOut then
      KDiv(rs[i + 1].date - rs[i].date, MillisPerMinute) + AdjacentMinutes(rs, i + 2)
    else AdjacentMinutes(rs, i + 1)
  }

  /** The minutes added for a last record that is an entry: the truncated
      minutes from it to `now`, with no upper bound. */
  function RunningMinutes(rs: seq<TimeRecord>, now: int): (r: int)
    ensures rs != [] && rs[|rs| - 1].recordType == CheckIn && now >= rs[|rs| - 1].date ==>
              r >= 0 && r * MillisPerMinute <= now - rs[|rs| - 1].date < (r + 1) * MillisPerMinute
    ensures (rs == [] || rs[|rs| - 1].recordType == CheckOut) ==> r == 0
  {
    if rs != [] && rs[|rs| - 1].recordType == CheckIn then
      KDivRem(now - rs[|rs| - 1].date, MillisPerMinute);
      KDiv(now - rs[|rs| - 1].date, MillisPerMinute)
    else 0
  }

  /** The total `updateTodayTime` shows for the day's records. */
  function TodayMinutes(todayRecords: seq<TimeRecord>, now: int): int
  {
    var sorted := SortByDate(todayRecords);
    AdjacentMinutes(sorted, 0) + RunningMinutes(sorted, now)
  }

  /** The loop of `updateTodayTime` over the records sorted by instant. */
  method SumTodayMinutes(todayRecords: seq<TimeRecord>, now: int) returns (totalMinutes: int)
    ensures totalMinutes == TodayMinutes(todayRecords, now)
  {
    var sortedRecords := SortByDate(todayRecords);
    totalMinutes := 0;
    var i: nat := 0;
    while i < |sortedRecords| - 1
      invariant totalMinutes + AdjacentMinutes(sortedRecords, i) == AdjacentMinutes(sortedRecords, 0)
      decreases |sortedRecords| - i
    {
      var current := sortedRecords[i];
      var next := sortedRecords[i + 1];
      if current.recordType == CheckIn && next.recordType == CheckOut {
        totalMinutes := totalMinutes + KDiv(next.date - current.date, MillisPerMinute);
        i := i + 2;
      } else {
        i := i + 1;
      }
    }
    if |sortedRecords| > 0 && sortedRecords[|sortedRecords| - 1].recordType == CheckIn {
      var last := sortedRecords[|sortedRecords| - 1];
      totalMinutes := totalMinutes + KDiv(now - last.date, MillisPerMinute);
    }
  }

  // ---------------------------------------------------------------------
  // The week's total of `updateWeeklyTime`

  function BlockDuration(b: LegacyBlock): int { b.duration }

  /** The total `updateWeeklyTime` shows: the durations of the legacy blocks
      of the week's records, added up. */
  function WeekMinutes(weekRecords: seq<TimeRecord>): int
  {
    SumBy(LegacyBlocksOf(weekRecords), BlockDuration)
  }

  /** The adjacent-pair loop of the day's total and the legacy block builder
      pair records the same way: the loop's sum is the sum of the blocks'
      durations (an entry with no exit right after it makes a block of
      duration 0, and an exit without an entry before it makes none). */
  lemma {:induction false} AdjacentIsBlockSum(rs: seq<TimeRecord>, i: nat)
    ensures AdjacentMinutes(rs, i) == SumBy(PairsFrom(rs, i), BlockDuration)
    decreases |rs| - i
  {
    if i < |rs| {
      if rs[i].recordType == CheckOut {
        AdjacentIsBlockSum(rs, i + 1);
      } else if i + 1 < |rs| && rs[i + 1].recordType == CheckOut {
        AdjacentIsBlockSum(rs, i + 2);
        SumByCons(NewBlock(rs[i], Some(rs[i + 1])), PairsFrom(rs, i + 2));
      } else {
        AdjacentIsBlockSum(rs, i + 1);
        SumByCons(NewBlock(rs[i], None), PairsFrom(rs, i + 1));
      }
    }
  }

  /** A sum over `[b] + rest`. */
  lemma SumByCons(b: LegacyBlock, rest: seq<LegacyBlock>)
    ensures SumBy([b] + rest, BlockDuration) == b.duration + SumBy(rest, BlockDuration)
  {
    assert ([b] + rest)[1..] == rest;
  }

  /** The day's figure is the week's computation applied to the same
      records, plus the running time of a last entry: the two screens'
      totals agree on completed work. */
  lemma TodayAgreesWithWeek(records: seq<TimeRecord>, now: int)
    ensures TodayMinutes(records, now) == WeekMinutes(records) + RunningMinutes(SortByDate(records), now)
  {
    AdjacentIsBlockSum(SortByDate(records), 0);
  }

  /** The sum of durations that are all at least 0 is at least 0. */
  lemma {:induction false} SumByNonNegative(bs: seq<LegacyBlock>)
    requires forall k :: 0 <= k < |bs| ==> bs[k].duration >= 0
    ensures SumBy(bs, BlockDuration) >= 0
  {
    if bs != [] {
      assert forall k :: 0 <= k < |bs[1..]| ==> bs[1..][k] == bs[k + 1];
      SumByNonNegative(bs[1..]);
    }
  }

  /** Because the records are sorted first, the week's total is never
      negative, and neither is the day's when `now` is not before any
      record. */
  lemma TotalsNonNegative(records: seq<TimeRecord>, now: int)
    requires forall x :: x in records ==> x.date <= now
    ensures WeekMinutes(records) >= 0
    ensures TodayMinutes(records, now) >= 0
  {
    LegacyBlocksOrdered(records);
    SumByNonNegative(LegacyBlocksOf(records));
    TodayAgreesWithWeek(records, now);
    var sorted := SortByDate(records);
    if sorted != [] {
      assert sorted[|sorted| - 1] in multiset(records);
    }
  }

  // ---------------------------------------------------------------------
  // The check-in toggle

  /** The latest record of a table whose every row is older than `record`
      is `record` once it is added. */
  lemma {:induction false} LatestRowAppend(rows: seq<TimeRecord>, record: TimeRecord)
    requires forall x :: x in rows ==> x.date < record.date
    ensures LatestRow(rows + [record]) == Some(record)
  {
    if rows != [] {
      assert (rows + [record])[1..] == rows[1..] + [record];
      LatestRowAppend(rows[1..], record);
    } else {
      assert [record][1..] == [];
    }
  }

  /** The button is in step with the table when it shows "checked in"
      exactly when the latest record is an entry. */
  predicate InStep(isCheckedIn: bool, rows: seq<TimeRecord>)
  {
    isCheckedIn <==> LatestRow(rows).Some? && LatestRow(rows).value.recordType == CheckIn
  }

  /** What `loadLastState` shows for a table: with no record, not checked
      in and the no-records status; otherwise checked in exactly when the
      latest record is an entry, whose instant is then the check-in time,
      and the status of that record. */
  predicate ShowsLatest(isCheckedIn: bool, checkInTime: Option<int>, lastCheckText: string, rows: seq<TimeRecord>)
  {
    match LatestRow(rows)
    case None =>
      !isCheckedIn && checkInTime.None? && lastCheckText == NoRecordsText
    case Some(record) =>
      (isCheckedIn <==> record.recordType == CheckIn)
      && checkInTime == (if record.recordType == CheckIn then Some(record.date) else None)
      && lastCheckText == LastCheckText(record.recordType, record.date)
  }

  /** Flipping the flag and adding the record the flipped flag asks for, at
      an instant later than every row, keeps the button in step: the toggle
      always adds the opposite of the latest record's type. */
  lemma ToggleKeepsInStep(isCheckedIn: bool, rows: seq<TimeRecord>, record: TimeRecord)
    requires InStep(isCheckedIn, rows)
    requires forall x :: x in rows ==> x.date < record.date
    requires record.recordType == if isCheckedIn then CheckOut else CheckIn
    ensures InStep(!isCheckedIn, rows + [record])
    ensures LatestRow(rows).Some? ==> record.recordType == Opposite(LatestRow(rows).value.recordType)
  {
    LatestRowAppend(rows, record);
  }

  const NoRecordsText: string := "Sin fichajes registrados"
  const EntryText: string := "\U{DA}ltimo fichaje: Entrada a las "
  const ExitText: string := "\U{DA}ltimo fichaje: Salida a las "

  /** The status line for a record of `recordType` at instant `date`. */
  function LastCheckText(recordType: RecordType, date: int): string
  {
    (if recordType == CheckIn then EntryText else ExitText) + FormatTime(date)
  }

  /** The "%dh %dm" text of a total, the same rendering as `TimeStats`. */
  function TotalText(totalMinutes: int): string
  {
    MainScreen.ToString(MainScreen.TimeStats(totalMinutes))
  }

  /** `MainActivity`: the check-in flag and time it keeps, and the texts of
      its views, over the record table. */
  class LegacyMainActivity {
    const dao: TimeRecordDao
    var isCheckedIn: bool
    var checkInTime: Option<int>
    var lastCheckText: string
    var todayTimeText: string
    var weeklyTimeText: string
    var userNameText: string

    /** The table is well formed, and a check-in time is kept only while
        checked in. */
    ghost predicate Valid()
      reads this, dao
    {
      dao.Valid() && (checkInTime.Some? ==> isCheckedIn)
    }

    /** `onCreate`: the greeting from the stored user name ("Usuario" when
        none is stored), then `loadLastState`. */
    constructor(table: TimeRecordDao, storedUserName: Option<string>, now: int)
      requires table.Valid()
      ensures Valid() && dao == table
      ensures userNameText == "Bienvenido/a, " + (if storedUserName.Some? then storedUserName.value else "Usuario")
      ensures ShowsLatest(isCheckedIn, checkInTime, lastCheckText, dao.rows)
      ensures InStep(isCheckedIn, dao.rows)
      ensures todayTimeText == TotalText(TodayMinutes(DayRange(dao.rows, ClearSeconds(now)), now))
      ensures weeklyTimeText == ""
    {
      dao := table;
      isCheckedIn := false;
      checkInTime := None;
      lastCheckText := "";
      todayTimeText := "";
      weeklyTimeText := "";
      userNameText := "Bienvenido/a, " + (if storedUserName.Some? then storedUserName.value else "Usuario");
      new;
      LoadLastState(now);
    }

    /** `onResume`: reload the state and both totals. */
    method OnResume(now: int)
      requires Valid()
      modifies this
      ensures Valid() && InStep(isCheckedIn, dao.rows)
      ensures ShowsLatest(isCheckedIn, checkInTime, lastCheckText, dao.rows)
      ensures todayTimeText == TotalText(TodayMinutes(DayRange(dao.rows, ClearSeconds(now)), now))
      ensures weeklyTimeText == TotalText(WeekMinutes(WeekRange(dao.rows, GetStartOfWeek(now))))
      ensures userNameText == old(userNameText)
    {
      LoadLastState(now);
      UpdateTodayTime(now);
      UpdateWeeklyTime(now);
    }

    /** `loadLastState`: with a latest record, checked in exactly when it is
        an entry, whose instant is then the check-in time; with none, not
        checked in. The day's total is refreshed. */
    method LoadLastState(now: int)
      requires Valid()
      modifies this`isCheckedIn, this`checkInTime, this`lastCheckText, this`todayTimeText
      ensures Valid()
      ensures ShowsLatest(isCheckedIn, checkInTime, lastCheckText, dao.rows)
      ensures InStep(isCheckedIn, dao.rows)
      ensures todayTimeText == TotalText(TodayMinutes(DayRange(dao.rows, ClearSeconds(now)), now))
      ensures weeklyTimeText == old(weeklyTimeText) && userNameText == old(userNameText)
    {
      var lastRecord := dao.GetLastRecord();
      var checkedIn: bool, since: Option<int>, status: string;
      match lastRecord {
        case Some(record) =>
          checkedIn := record.recordType == CheckIn;
          status := LastCheckText(record.recordType, record.date);
          since := if record.recordType == CheckIn then Some(record.date) else None;
        case None =>
          status := NoRecordsText;
          checkedIn := false;
          since := None;
      }
      assert ShowsLatest(checkedIn, since, status, dao.rows) && InStep(checkedIn, dao.rows);
      isCheckedIn, checkInTime, lastCheckText := checkedIn, since, status;
      UpdateTodayTime(now);
    }

    /** `handleCheckInOut`: flip the flag first, then store an entry if now
        checked in and an exit otherwise, at the unrounded instant `now`;
        leaving also drops the check-in time. Returns the toast. */
    method HandleCheckInOut(now: int) returns (toast: string)
      requires Valid()
      modifies this, dao
      ensures Valid()
      ensures isCheckedIn == !old(isCheckedIn)
      ensures dao.lastId == old(dao.lastId) + 1
      ensures dao.rows == old(dao.rows) +
                [TimeRecord(dao.lastId, now, if isCheckedIn then CheckIn else CheckOut, None, false)]
      ensures checkInTime == if isCheckedIn then old(checkInTime) else None
      ensures lastCheckText == LastCheckText(if isCheckedIn then CheckIn else CheckOut, now)
      ensures toast == (if isCheckedIn then "Entrada registrada: " else "Salida registrada: ") + FormatTime(now)
      ensures todayTimeText == TotalText(TodayMinutes(DayRange(dao.rows, ClearSeconds(now)), now))
      ensures weeklyTimeText == old(weeklyTimeText) && userNameText == old(userNameText)
      ensures old(InStep(isCheckedIn, dao.rows)) && (forall x :: x in old(dao.rows) ==> x.date < now) ==>
                InStep(isCheckedIn, dao.rows)
    {
      toast := Toggle(now);
      UpdateTodayTime(now);
    }

    /** The part of `handleCheckInOut` before the day's total is refreshed:
        the flip, the insert and the status line. */
    method Toggle(now: int) returns (toast: string)
      requires Valid()
      modifies this, dao
      ensures Valid()
      ensures isCheckedIn == !old(isCheckedIn)
      ensures dao.lastId == old(dao.lastId) + 1
      ensures dao.rows == old(dao.rows) +
                [TimeRecord(dao.lastId, now, if isCheckedIn then CheckIn else CheckOut, None, false)]
      ensures checkInTime == if isCheckedIn then old(checkInTime) else None
      ensures lastCheckText == LastCheckText(if isCheckedIn then CheckIn else CheckOut, now)
      ensures toast == (if isCheckedIn then "Entrada registrada: " else "Salida registrada: ") + FormatTime(now)
      ensures todayTimeText == old(todayTimeText)
      ensures weeklyTimeText == old(weeklyTimeText) && userNameText == old(userNameText)
      ensures old(InStep(isCheckedIn, dao.rows)) && (forall x :: x in old(dao.rows) ==> x.date < now) ==>
                InStep(isCheckedIn, dao.rows)
    {
      var timeString := FormatTime(now);
      ghost var before := dao.rows;
      ghost var wasInStep := InStep(isCheckedIn, dao.rows);
      isCheckedIn := !isCheckedIn;
      var recordType := if isCheckedIn then CheckIn else CheckOut;
      var id := dao.Insert(TimeRecord(0, now, recordType, None, false));
      assert WithoutId(before, id) == before;
      if isCheckedIn {
        toast := "Entrada registrada: " + timeString;
        lastCheckText := EntryText + timeString;
      } else {
        toast := "Salida registrada: " + timeString;
        lastCheckText := ExitText + timeString;
        checkInTime := None;
      }
      if wasInStep && forall x :: x in before ==> x.date < now {
        ToggleKeepsInStep(!isCheckedIn, before, TimeRecord(id, now, recordType, None, false));
      }
    }

    /** `updateTodayTime`: the day's records (midnight to midnight around
        `now` with its seconds cleared) summed by the adjacent-pair loop. */
    method UpdateTodayTime(now: int)
      requires Valid()
      modifies this`todayTimeText
      ensures Valid()
      ensures isCheckedIn == old(isCheckedIn) && checkInTime == old(checkInTime)
      ensures lastCheckText == old(lastCheckText) && weeklyTimeText == old(weeklyTimeText) && userNameText == old(userNameText)
      ensures todayTimeText == TotalText(TodayMinutes(DayRange(dao.rows, ClearSeconds(now)), now))
    {
      var todayRecords := DayRange(dao.rows, ClearSeconds(now));
      var totalMinutes := SumTodayMinutes(todayRecords, now);
      todayTimeText := TotalText(totalMinutes);
    }

    /** `updateWeeklyTime`: the week's records, turned into legacy blocks,
        with their durations added up. */
    method UpdateWeeklyTime(now: int)
      requires Valid()
      modifies this`weeklyTimeText
      ensures Valid()
      ensures isCheckedIn == old(isCheckedIn) && checkInTime == old(checkInTime)
      ensures lastCheckText == old(lastCheckText) && todayTimeText == old(todayTimeText) && userNameText == old(userNameText)
      ensures weeklyTimeText == TotalText(WeekMinutes(WeekRange(dao.rows, GetStartOfWeek(now))))
    {
      var records := WeekRange(dao.rows, GetStartOfWeek(now));
      var blocks := CreateBlocks(records);
      weeklyTimeText := TotalText(SumBy(blocks, BlockDuration));
    }
  }
}
