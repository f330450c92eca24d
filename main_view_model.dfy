// The home screen's view model: the worked-time figures it shows and the
// check-in/check-out button. Coroutines, LiveData and the mutex that drops
// a second tap while one is being handled are not modelled; every method
// runs to completion with the clock reading `now`.

module MainScreen {
  import opened Records
  import opened Seqs
  import opened Text
  import opened DateTimeUtils
  import opened TimeCalculation
  import opened Validation
  import opened Dao
  import opened Repository

  // ---------------------------------------------------------------------
  // TimeStats

  /** A number of worked minutes, shown as hours and minutes. */
  datatype TimeStats = TimeStats(totalMinutes: int)

  const Zero: TimeStats := TimeStats(0)

  /** `hours`: Kotlin's truncating `totalMinutes / 60`. */
  function Hours(stats: TimeStats): (r: int)
    ensures stats.totalMinutes >= 0 ==> r * 60 <= stats.totalMinutes < (r + 1) * 60
    ensures stats.totalMinutes <= 0 ==> (r - 1) * 60 < stats.totalMinutes <= r * 60
  {
    KDivRem(stats.totalMinutes, 60);
    KDiv(stats.totalMinutes, 60)
  }

  /** `minutes`: Kotlin's `totalMinutes % 60`, with the sign of the total. */
  function Minutes(stats: TimeStats): (r: int)
    ensures Hours(stats) * 60 + r == stats.totalMinutes
    ensures stats.totalMinutes >= 0 ==> 0 <= r < 60
    ensures stats.totalMinutes <= 0 ==> -60 < r <= 0
  {
    KDivRem(stats.totalMinutes, 60);
    KRem(stats.totalMinutes, 60)
  }

  predicate IsZero(stats: TimeStats) { stats.totalMinutes == 0 }

  /** `plus`: the totals added. */
  function Plus(a: TimeStats, b: TimeStats): (r: TimeStats)
    ensures Hours(r) * 60 + Minutes(r) == Hours(a) * 60 + Minutes(a) + Hours(b) * 60 + Minutes(b)
  {
    TimeStats(a.totalMinutes + b.totalMinutes)
  }

  /** `toString`: "${hours}h ${minutes}m". For a total that is not
      negative, the duration pattern reads the two numbers back. */
  function ToString(stats: TimeStats): (r: string)
    ensures stats.totalMinutes >= 0 ==> FindHoursMinutes(r) == Some((Hours(stats), Minutes(stats)))
  {
    if stats.totalMinutes >= 0 then
      HoursMinutesRoundTrip(Hours(stats), Minutes(stats));
      HoursMinutesText(Hours(stats), Minutes(stats))
    else
      HoursMinutesText(Hours(stats), Minutes(stats))
  }

  /** `ZERO` adds nothing and is the only stats that `isZero`. */
  lemma ZeroIdentity(stats: TimeStats)
    ensures Plus(stats, Zero) == stats && Plus(Zero, stats) == stats
    ensures IsZero(stats) <==> stats == Zero
  {
  }

  /** Reading a non-negative stats' text back with the `(\d+)h\s+(\d+)m`
      pattern of the export gives whole hours and minutes below 60 that
      add up to the total again. */
  lemma ToStringRoundTrip(stats: TimeStats)
    requires stats.totalMinutes >= 0
    ensures FindHoursMinutes(ToString(stats)) == Some((Hours(stats), Minutes(stats)))
    ensures Hours(stats) * 60 + Minutes(stats) == stats.totalMinutes && Minutes(stats) < 60
  {
    HoursMinutesRoundTrip(Hours(stats), Minutes(stats));
  }

  // ---------------------------------------------------------------------
  // UI state

  /** The status line under the button. The texts come from string
      resources, which are not part of this model; only which resource and
      its argument are kept. */
  datatype StatusText =
    | NoRecords
    | LastCheckIn(time: string)
    | LastCheckOut(time: string)
    | ManualReset
    | Blank

  /** `MainUiState`. */
  datatype MainUiState = MainUiState(
    isCheckedIn: bool, checkInTime: Option<int>, lastCheckText: StatusText, error: Option<string>)

  const InitialUiState: MainUiState := MainUiState(false, None, Blank, None)

  /** The status line after a record of this type at this instant. */
  function StatusOf(recordType: RecordType, date: int): (r: StatusText)
    ensures r.LastCheckIn? <==> recordType == CheckIn
    ensures r.LastCheckIn? || r.LastCheckOut?
  {
    if recordType == CheckIn then LastCheckIn(FormatTime(date)) else LastCheckOut(FormatTime(date))
  }

  /** `abs(x)` of the balance. */
  function Abs(x: int): (r: int)
    ensures r >= 0 && (r == x || r == -x)
  {
    if x < 0 then -x else x
  }

  /** The day figure: the working minutes of today's records, counting an
      open check-in of today up to `now`. */
  function TodayMinutes(rows: seq<TimeRecord>, now: int): int
  {
    WorkingMinutes(DayRange(rows, now), true, now)
  }

  /** The week figure: the same over the records of this Monday-to-Sunday
      week. */
  function WeekMinutes(rows: seq<TimeRecord>, now: int): int
  {
    WorkingMinutes(WeekRange(rows, GetStartOfWeek(now)), true, now)
  }

  /** `filter { it.type == CHECK_IN }.maxByOrNull { it.date }`: the first
      check-in of the latest date. */
  function LatestCheckIn(records: seq<TimeRecord>): (r: Option<TimeRecord>)
    ensures r.None? <==> forall i :: 0 <= i < |records| ==> records[i].recordType != CheckIn
    ensures r.Some? ==> r.value in records && r.value.recordType == CheckIn
    ensures r.Some? ==> forall x :: x in records && x.recordType == CheckIn ==> x.date <= r.value.date
  {
    var checkIns := Filter(records, (x: TimeRecord) => x.recordType == CheckIn);
    LatestRow(checkIns)
  }

  /** A check-out is refused when there is a check-in today and the minute
      of now is not after the minute of that check-in. */
  predicate CheckOutRefused(today: seq<TimeRecord>, now: int)
  {
    var lastCheckIn := LatestCheckIn(today);
    lastCheckIn.Some? && !ValidateCheckOutTime(ClearSeconds(lastCheckIn.value.date), ClearSeconds(now)).valid
  }

  /** Among today's records, a check-out is refused exactly when now, to the
      minute, is not later than the latest check-in. */
  lemma CheckOutRefusedExact(rows: seq<TimeRecord>, now: int)
    ensures var lastCheckIn := LatestCheckIn(DayRange(rows, TruncateToDay(now)));
      CheckOutRefused(DayRange(rows, TruncateToDay(now)), now) <==>
      lastCheckIn.Some? && ClearSeconds(now) <= ClearSeconds(lastCheckIn.value.date)
  {
    var today := DayRange(rows, TruncateToDay(now));
    var lastCheckIn := LatestCheckIn(today);
    if lastCheckIn.Some? {
      var checkIn := lastCheckIn.value.date;
      DayRangeExact(rows, TruncateToDay(now));
      TruncateToDayIdempotent(now);
      ClearSecondsSameDay(checkIn);
      ClearSecondsSameDay(now);
      CheckOutSameDay(ClearSeconds(checkIn), ClearSeconds(now));
      ClearSecondsIdempotent(checkIn);
      ClearSecondsIdempotent(now);
    }
  }

  /** The button and the status line agree: the screen shows "checked in"
      exactly when the action the validator offers next is a check-out. */
  lemma StatusMatchesNextAction(today: seq<TimeRecord>)
    ensures (LatestRecord(today).Some? && LatestRecord(today).value.recordType == CheckIn) <==>
      ValidateNextAction(today).next == CheckOut
  {
  }

  /** The action offered next is the opposite of the type of the latest
      record of the day, a check-in on a day without records. */
  lemma NextActionAlternates(today: seq<TimeRecord>)
    ensures today == [] ==> ValidateNextAction(today).next == CheckIn
    ensures today != [] ==>
      (exists k :: IsLastMax(today, DateKey, k) && ValidateNextAction(today).next == Opposite(today[k].recordType))
  {
    if today != [] {
      LatestExists(today);
      var k :| IsLastMax(today, DateKey, k);
      NextActionLatest(today, k);
    }
  }

  // ---------------------------------------------------------------------
  // The view model

  /** `MainViewModel`: the UI state and the three figures, over the
      repository. */
  class MainViewModel {
    const repository: TimeRecordRepository
    var uiState: MainUiState
    var lastRecord: Option<TimeRecord>
    var todayTime: TimeStats
    var weeklyTime: TimeStats
    var overtimeBalance: TimeStats

    ghost predicate Valid()
      reads this, repository, repository.timeRecordDao
    {
      repository.Valid()
    }

    /** The view model loads the last state as soon as it is created. */
    constructor(repo: TimeRecordRepository, now: int)
      requires repo.Valid()
      ensures Valid() && repository == repo
      ensures var today := DayRange(repo.timeRecordDao.rows, TruncateToDay(now));
        match LatestRecord(today)
        case None =>
          uiState == InitialUiState.(lastCheckText := NoRecords)
        case Some(last) =>
          uiState == InitialUiState.(
            isCheckedIn := last.recordType == CheckIn,
            checkInTime := if last.recordType == CheckIn then Some(last.date) else None,
            lastCheckText := StatusOf(last.recordType, last.date))
      ensures var today := DayRange(repo.timeRecordDao.rows, TruncateToDay(now));
        uiState.isCheckedIn == (ValidateNextAction(today).next == CheckOut)
      ensures lastRecord == LatestRow(repo.timeRecordDao.rows)
      ensures todayTime == TimeStats(TodayMinutes(repo.timeRecordDao.rows, now))
      ensures weeklyTime == TimeStats(WeekMinutes(repo.timeRecordDao.rows, now))
      ensures overtimeBalance == TimeStats(Abs(CurrentBalance(repo.overtimeBalanceDao.table)))
    {
      repository := repo;
      uiState := InitialUiState;
      lastRecord := None;
      todayTime := Zero;
      weeklyTime := Zero;
      overtimeBalance := Zero;
      new;
      LoadLastState(now);
      StatusMatchesNextAction(DayRange(repo.timeRecordDao.rows, TruncateToDay(now)));
    }

    /** `updateTodayTime`. */
    method UpdateTodayTime(now: int)
      modifies this
      ensures todayTime == TimeStats(TodayMinutes(repository.timeRecordDao.rows, now))
      ensures todayTime.totalMinutes >= 0
      ensures uiState == old(uiState) && lastRecord == old(lastRecord)
      ensures weeklyTime == old(weeklyTime) && overtimeBalance == old(overtimeBalance)
    {
      var todayRecords := repository.GetDayRecords(now);
      var totalMinutes := CalculateWorkingMinutes(todayRecords, true, now);
      todayTime := TimeStats(totalMinutes);
    }

    /** `updateWeeklyTime`. */
    method UpdateWeeklyTime(now: int)
      modifies this
      ensures weeklyTime == TimeStats(WeekMinutes(repository.timeRecordDao.rows, now))
      ensures weeklyTime.totalMinutes >= 0
      ensures uiState == old(uiState) && lastRecord == old(lastRecord)
      ensures todayTime == old(todayTime) && overtimeBalance == old(overtimeBalance)
    {
      var weekStart := GetStartOfWeek(now);
      var weekRecords := repository.GetRecordsForWeek(weekStart);
      var totalMinutes := CalculateWorkingMinutes(weekRecords, true, now);
      weeklyTime := TimeStats(totalMinutes);
    }

    /** `updateOvertimeBalance`: the size of the balance, its sign dropped. */
    method UpdateOvertimeBalance()
      modifies this
      ensures overtimeBalance == TimeStats(Abs(CurrentBalance(repository.overtimeBalanceDao.table)))
      ensures uiState == old(uiState) && lastRecord == old(lastRecord)
      ensures todayTime == old(todayTime) && weeklyTime == old(weeklyTime)
    {
      var balanceMinutes := repository.GetOvertimeBalance();
      overtimeBalance := TimeStats(Abs(balanceMinutes));
    }

    /** The three updates that end both `loadLastState` and
        `handleCheckInOut`. */
    method UpdateFigures(now: int)
      modifies this
      ensures todayTime == TimeStats(TodayMinutes(repository.timeRecordDao.rows, now))
      ensures weeklyTime == TimeStats(WeekMinutes(repository.timeRecordDao.rows, now))
      ensures overtimeBalance == TimeStats(Abs(CurrentBalance(repository.overtimeBalanceDao.table)))
      ensures uiState == old(uiState) && lastRecord == old(lastRecord)
    {
      UpdateTodayTime(now);
      UpdateWeeklyTime(now);
      UpdateOvertimeBalance();
    }

    /** `clearError`. */
    method ClearError()
      modifies this
      ensures uiState == old(uiState).(error := None)
      ensures lastRecord == old(lastRecord) && todayTime == old(todayTime)
      ensures weeklyTime == old(weeklyTime) && overtimeBalance == old(overtimeBalance)
    {
      uiState := uiState.(error := None);
    }

    /** `resetState`: checked out with the manual-reset status, and the day
        and week figures recomputed; the balance is left as it was. */
    method ResetState(now: int)
      modifies this
      ensures uiState == MainUiState(false, None, ManualReset, None)
      ensures todayTime == TimeStats(TodayMinutes(repository.timeRecordDao.rows, now))
      ensures weeklyTime == TimeStats(WeekMinutes(repository.timeRecordDao.rows, now))
      ensures lastRecord == old(lastRecord) && overtimeBalance == old(overtimeBalance)
    {
      uiState := MainUiState(false, None, ManualReset, None);
      UpdateTodayTime(now);
      UpdateWeeklyTime(now);
    }

    /** `loadLastState`: the latest record of today decides whether the
        screen shows "checked in"; the three figures are recomputed. */
    method LoadLastState(now: int)
      modifies this
      ensures var today := DayRange(repository.timeRecordDao.rows, TruncateToDay(now));
        match LatestRecord(today)
        case None =>
          uiState == old(uiState).(isCheckedIn := false, checkInTime := None, lastCheckText := NoRecords)
        case Some(last) =>
          uiState == old(uiState).(
            isCheckedIn := last.recordType == CheckIn,
            checkInTime := if last.recordType == CheckIn then Some(last.date) else None,
            lastCheckText := StatusOf(last.recordType, last.date))
      ensures lastRecord == LatestRow(repository.timeRecordDao.rows)
      ensures todayTime == TimeStats(TodayMinutes(repository.timeRecordDao.rows, now))
      ensures weeklyTime == TimeStats(WeekMinutes(repository.timeRecordDao.rows, now))
      ensures overtimeBalance == TimeStats(Abs(CurrentBalance(repository.overtimeBalanceDao.table)))
    {
      var todayRecords := repository.GetDayRecords(TruncateToDay(now));
      var record := repository.GetLastRecord();
      lastRecord := record;
      var latest := LatestRecord(todayRecords);
      match latest {
        case None =>
          uiState := uiState.(isCheckedIn := false, checkInTime := None, lastCheckText := NoRecords);
        case Some(last) =>
          uiState := uiState.(
            isCheckedIn := last.recordType == CheckIn,
            checkInTime := if last.recordType == CheckIn then Some(last.date) else None,
            lastCheckText := StatusOf(last.recordType, last.date));
      }
      UpdateFigures(now);
    }

    /** `handleCheckInOut`: stores the record the validator asks for, unless
        it is a check-out whose minute is not after today's latest check-in,
        which only sets the error and changes nothing else. */
    method HandleCheckInOut(now: int)
      requires Valid()
      modifies this, repository.timeRecordDao
      ensures Valid()
      ensures var today := DayRange(old(repository.timeRecordDao.rows), TruncateToDay(now));
        ValidateNextAction(today).next == CheckOut && CheckOutRefused(today, now) ==>
          repository.timeRecordDao.rows == old(repository.timeRecordDao.rows) &&
          repository.timeRecordDao.lastId == old(repository.timeRecordDao.lastId) &&
          uiState == old(uiState).(error := Some(ErrorExitAfterEntry)) &&
          lastRecord == old(lastRecord) && todayTime == old(todayTime) &&
          weeklyTime == old(weeklyTime) && overtimeBalance == old(overtimeBalance)
      ensures var today := DayRange(old(repository.timeRecordDao.rows), TruncateToDay(now));
        var next := ValidateNextAction(today).next;
        !(next == CheckOut && CheckOutRefused(today, now)) ==>
          repository.timeRecordDao.lastId == old(repository.timeRecordDao.lastId) + 1 &&
          repository.timeRecordDao.rows == old(repository.timeRecordDao.rows) +
            [TimeRecord(repository.timeRecordDao.lastId, ClearSeconds(now), next, None, false)] &&
          uiState == old(uiState).(
            isCheckedIn := next == CheckIn,
            checkInTime := if next == CheckIn then Some(now) else None,
            lastCheckText := StatusOf(next, now)) &&
          lastRecord == old(lastRecord) &&
          todayTime == TimeStats(TodayMinutes(repository.timeRecordDao.rows, now)) &&
          weeklyTime == TimeStats(WeekMinutes(repository.timeRecordDao.rows, now)) &&
          overtimeBalance == TimeStats(Abs(CurrentBalance(repository.overtimeBalanceDao.table)))
    {
      var currentTime := now;
      var todayRecords := repository.GetDayRecords(TruncateToDay(now));
      var action := ValidateNextAction(todayRecords);
      ghost var refused := action.next == CheckOut && CheckOutRefused(todayRecords, now);
      if action.next == CheckOut {
        var lastCheckIn := LatestCheckIn(todayRecords);
        if lastCheckIn.Some? {
          var cleanCheckInTime := ClearSeconds(lastCheckIn.value.date);
          var cleanCurrentTime := ClearSeconds(currentTime);
          var verdict := ValidateCheckOutTime(cleanCheckInTime, cleanCurrentTime);
          if !verdict.valid {
            assert refused;
            uiState := uiState.(error := Some(verdict.message));
            return;
          }
        }
      }
      assert !refused;
      StoreRecord(action.next, currentTime);
    }

    /** What both branches of the `when` do once the record is accepted:
        store it, show it, and recompute the figures. */
    method StoreRecord(recordType: RecordType, now: int)
      requires Valid()
      modifies this, repository.timeRecordDao
      ensures Valid()
      ensures repository.timeRecordDao.lastId == old(repository.timeRecordDao.lastId) + 1
      ensures repository.timeRecordDao.rows == old(repository.timeRecordDao.rows) +
        [TimeRecord(repository.timeRecordDao.lastId, ClearSeconds(now), recordType, None, false)]
      ensures uiState == old(uiState).(
        isCheckedIn := recordType == CheckIn,
        checkInTime := if recordType == CheckIn then Some(now) else None,
        lastCheckText := StatusOf(recordType, now))
      ensures lastRecord == old(lastRecord)
      ensures todayTime == TimeStats(TodayMinutes(repository.timeRecordDao.rows, now))
      ensures weeklyTime == TimeStats(WeekMinutes(repository.timeRecordDao.rows, now))
      ensures overtimeBalance == TimeStats(Abs(CurrentBalance(repository.overtimeBalanceDao.table)))
    {
      var _ := repository.InsertRecord(now, recordType, None);
      uiState := uiState.(
        isCheckedIn := recordType == CheckIn,
        checkInTime := if recordType == CheckIn then Some(now) else None,
        lastCheckText := StatusOf(recordType, now));
      UpdateFigures(now);
    }
  }
}
