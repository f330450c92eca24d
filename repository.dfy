// The repository the view models use: record operations on the
// `time_records` table and the overtime balance kept in `overtime_balance`.

module Repository {
  import opened Records
  import opened Seqs
  import opened DateTimeUtils
  import opened Dao

  /** `AppConstants.WEEKLY_BASELINE_MINUTES`: 37.5 hours. */
  const WeeklyBaselineMinutes: int := 2250

  /** The balance `getOvertimeBalance` reports for a table: row 1, or 0. */
  function CurrentBalance(table: map<int, int>): int
  {
    if 1 in table then table[1] else 0
  }

  /** The table after `addToOvertimeBalance(weeklyMinutes)`: row 1 holds the
      old balance plus the week's difference from the baseline. */
  function Credited(table: map<int, int>, weeklyMinutes: int): (r: map<int, int>)
    ensures 1 in r && r[1] - CurrentBalance(table) == weeklyMinutes - WeeklyBaselineMinutes
    ensures forall id :: id != 1 ==> (id in r <==> id in table)
    ensures forall id :: id in table && id != 1 ==> r[id] == table[id]
  {
    table[1 := CurrentBalance(table) + (weeklyMinutes - WeeklyBaselineMinutes)]
  }

  /** With a balance row present, the repository's read-and-replace gives
      the same table as the in-place `addToBalance` of the difference;
      without one it creates the row, where `addToBalance` would do nothing. */
  lemma CreditedAgreesWithAdd(table: map<int, int>, weeklyMinutes: int)
    ensures 1 in table ==> Credited(table, weeklyMinutes) == AddedToBalance(table, weeklyMinutes - WeeklyBaselineMinutes)
    ensures 1 !in table ==> AddedToBalance(table, weeklyMinutes - WeeklyBaselineMinutes) == table != Credited(table, weeklyMinutes)
  {
  }

  /** Crediting several weeks in turn adds up their differences from the
      baseline. */
  function CreditedWeeks(table: map<int, int>, weeks: seq<int>): map<int, int>
    decreases weeks
  {
    if weeks == [] then table else CreditedWeeks(Credited(table, weeks[0]), weeks[1..])
  }

  /** The balance after several weeks is the starting balance plus each
      week's overtime (negative for a short week). */
  lemma {:induction false} CreditedWeeksBalance(table: map<int, int>, weeks: seq<int>)
    ensures CurrentBalance(CreditedWeeks(table, weeks)) ==
      CurrentBalance(table) + SumBy(weeks, (w: int) => w - WeeklyBaselineMinutes)
    decreases weeks
  {
    if weeks != [] {
      CreditedWeeksBalance(Credited(table, weeks[0]), weeks[1..]);
    }
  }

  /** The records of the calendar day of `date`, as `getDayRecords` bounds
      it: from midnight to the next midnight. */
  function DayRange(rows: seq<TimeRecord>, date: int): seq<TimeRecord>
  {
    SortByDate(RowsInRange(rows, TruncateToDay(date), AddDays(TruncateToDay(date), 1)))
  }

  /** The day query returns exactly the records on the same day as `date`,
      oldest first. */
  lemma DayRangeExact(rows: seq<TimeRecord>, date: int)
    ensures forall x :: x in DayRange(rows, date) <==> x in rows && TruncateToDay(x.date) == TruncateToDay(date)
    ensures SortedBy(DayRange(rows, date), DateKey)
  {
    var start := TruncateToDay(date);
    DayRecordsExact(rows, start, AddDays(start, 1));
    forall x | x in rows
      ensures start <= x.date < AddDays(start, 1) <==> TruncateToDay(x.date) == start
    {
      if start <= x.date < AddDays(start, 1) {
        TruncateToDayUnique(x.date, start);
      }
    }
  }

  /** The records of the Monday-to-Sunday week of `weekStart`. */
  function WeekRange(rows: seq<TimeRecord>, weekStart: int): seq<TimeRecord>
  {
    SortByDate(RowsInRange(rows, GetStartOfWeek(weekStart), GetEndOfWeek(weekStart)))
  }

  /** The week query returns exactly the records of the same week as
      `weekStart`, whichever weekday that is, oldest first. */
  lemma WeekRangeExact(rows: seq<TimeRecord>, weekStart: int)
    ensures forall x :: x in WeekRange(rows, weekStart) <==>
      x in rows && GetStartOfWeek(x.date) == GetStartOfWeek(weekStart)
    ensures SortedBy(WeekRange(rows, weekStart), DateKey)
  {
    var start := GetStartOfWeek(weekStart);
    DayRecordsExact(rows, start, GetEndOfWeek(weekStart));
    forall x | x in rows
      ensures start <= x.date < GetEndOfWeek(weekStart) <==> GetStartOfWeek(x.date) == start
    {
      if start <= x.date < GetEndOfWeek(weekStart) {
        StartOfWeekUnique(x.date, start);
      }
    }
  }

  /** `TimeRecordRepository`: the two tables behind one object. */
  class TimeRecordRepository {
    const timeRecordDao: TimeRecordDao
    const overtimeBalanceDao: OvertimeBalanceDao

    ghost predicate Valid()
      reads this, timeRecordDao
    {
      timeRecordDao.Valid()
    }

    constructor(records: TimeRecordDao, balances: OvertimeBalanceDao)
      requires records.Valid()
      ensures Valid() && timeRecordDao == records && overtimeBalanceDao == balances
    {
      timeRecordDao := records;
      overtimeBalanceDao := balances;
    }

    /** `insertRecord`: stores a new record at the minute of `date`, not
        exported, under a freshly generated key. */
    method InsertRecord(date: int, recordType: RecordType, note: Option<string>) returns (id: int)
      requires Valid()
      modifies timeRecordDao
      ensures Valid()
      ensures id == old(timeRecordDao.lastId) + 1 == timeRecordDao.lastId
      ensures timeRecordDao.rows == old(timeRecordDao.rows) + [TimeRecord(id, ClearSeconds(date), recordType, note, false)]
    {
      ghost var before := timeRecordDao.rows;
      id := timeRecordDao.Insert(TimeRecord(0, ClearSeconds(date), recordType, note, false));
      assert WithoutId(before, id) == before;
    }

    /** `getLastRecord`. */
    method GetLastRecord() returns (r: Option<TimeRecord>)
      ensures r == LatestRow(timeRecordDao.rows)
    {
      r := timeRecordDao.GetLastRecord();
    }

    /** `getDayRecords(date)`. */
    method GetDayRecords(date: int) returns (r: seq<TimeRecord>)
      ensures r == DayRange(timeRecordDao.rows, date)
    {
      var startOfDay := TruncateToDay(date);
      var endOfDay := AddDays(startOfDay, 1);
      r := timeRecordDao.GetDayRecords(startOfDay, endOfDay);
    }

    /** `getRecordsForWeek(weekStart)`. */
    method GetRecordsForWeek(weekStart: int) returns (r: seq<TimeRecord>)
      ensures r == WeekRange(timeRecordDao.rows, weekStart)
    {
      var startDate := GetStartOfWeek(weekStart);
      var endDate := GetEndOfWeek(weekStart);
      r := timeRecordDao.GetDayRecords(startDate, endDate);
    }

    /** `updateRecordTime`: moves a record to `hour:minute` of its own day;
        an unknown key reports false and changes nothing. */
    method UpdateRecordTime(recordId: int, hour: int, minute: int) returns (ok: bool)
      requires Valid()
      modifies timeRecordDao
      ensures Valid()
      ensures ok <==> Lookup(old(timeRecordDao.rows), recordId).Some?
      ensures timeRecordDao.lastId == old(timeRecordDao.lastId)
      ensures timeRecordDao.rows == match Lookup(old(timeRecordDao.rows), recordId)
        case None => old(timeRecordDao.rows)
        case Some(record) => Replace(old(timeRecordDao.rows), record.(date := SetTimeToDate(record.date, hour, minute)))
    {
      var found := timeRecordDao.GetRecordById(recordId);
      match found
      case None =>
        ok := false;
      case Some(record) =>
        var newDate := SetTimeToDate(record.date, hour, minute);
        timeRecordDao.Update(record.(date := newDate));
        ok := true;
    }

    /** `markWeekAsExported(weekStart)`: every record of that week becomes
        exported. */
    method MarkWeekAsExported(weekStart: int)
      requires Valid()
      modifies timeRecordDao
      ensures Valid()
      ensures timeRecordDao.lastId == old(timeRecordDao.lastId)
      ensures timeRecordDao.rows == MarkExported(old(timeRecordDao.rows), GetStartOfWeek(weekStart), GetEndOfWeek(weekStart))
    {
      var startDate := GetStartOfWeek(weekStart);
      var endDate := GetEndOfWeek(weekStart);
      timeRecordDao.MarkWeekAsExported(startDate, endDate);
    }

    /** `deleteRecord`: removes the record with that key; an unknown key
        reports false and changes nothing. */
    method DeleteRecord(recordId: int) returns (ok: bool)
      requires Valid()
      modifies timeRecordDao
      ensures Valid()
      ensures ok <==> Lookup(old(timeRecordDao.rows), recordId).Some?
      ensures timeRecordDao.lastId == old(timeRecordDao.lastId)
      ensures timeRecordDao.rows == if ok then WithoutId(old(timeRecordDao.rows), recordId) else old(timeRecordDao.rows)
    {
      var found := timeRecordDao.GetRecordById(recordId);
      match found
      case None =>
        ok := false;
      case Some(record) =>
        timeRecordDao.Delete(record);
        ok := true;
    }

    /** `updateRecordNote`: replaces the note of that record; an unknown
        key reports false and changes nothing. */
    method UpdateRecordNote(recordId: int, note: string) returns (ok: bool)
      requires Valid()
      modifies timeRecordDao
      ensures Valid()
      ensures ok <==> Lookup(old(timeRecordDao.rows), recordId).Some?
      ensures timeRecordDao.lastId == old(timeRecordDao.lastId)
      ensures timeRecordDao.rows == match Lookup(old(timeRecordDao.rows), recordId)
        case None => old(timeRecordDao.rows)
        case Some(record) => Replace(old(timeRecordDao.rows), record.(note := Some(note)))
    {
      var found := timeRecordDao.GetRecordById(recordId);
      match found
      case None =>
        ok := false;
      case Some(record) =>
        timeRecordDao.Update(record.(note := Some(note)));
        ok := true;
    }

    /** `getOvertimeBalance`: 0 when no balance row exists. */
    method GetOvertimeBalance() returns (r: int)
      ensures r == CurrentBalance(overtimeBalanceDao.table)
    {
      var balance := overtimeBalanceDao.GetBalance();
      r := if balance.Some? then balance.value.totalMinutes else 0;
    }

    /** `addToOvertimeBalance(weeklyMinutes)`: row 1 becomes the current
        balance plus `weeklyMinutes - 2250`. */
    method AddToOvertimeBalance(weeklyMinutes: int)
      modifies overtimeBalanceDao
      ensures overtimeBalanceDao.table == Credited(old(overtimeBalanceDao.table), weeklyMinutes)
    {
      var overtimeMinutes := weeklyMinutes - WeeklyBaselineMinutes;
      var currentBalance := GetOvertimeBalance();
      overtimeBalanceDao.InsertOrUpdateBalance(OvertimeBalance(1, currentBalance + overtimeMinutes));
    }
  }

  /** An update of the time changes only that record, and only its date:
      it stays on the same day, at the given hour and minute. */
  lemma UpdateTimeOnlyThatRecord(rows: seq<TimeRecord>, recordId: int, hour: int, minute: int, other: int)
    requires UniqueIds(rows)
    requires 0 <= hour < 24 && 0 <= minute < 60
    requires Lookup(rows, recordId).Some?
    ensures var record := Lookup(rows, recordId).value;
      var moved := Replace(rows, record.(date := SetTimeToDate(record.date, hour, minute)));
      Lookup(moved, recordId) == Some(record.(date := SetTimeToDate(record.date, hour, minute))) &&
      TruncateToDay(SetTimeToDate(record.date, hour, minute)) == TruncateToDay(record.date) &&
      (other != recordId ==> Lookup(moved, other) == Lookup(rows, other))
  {
    var record := Lookup(rows, recordId).value;
    LookupAfterReplace(rows, record.(date := SetTimeToDate(record.date, hour, minute)), other);
  }

  /** Deleting finds nothing under that key afterwards and keeps every
      other key's record. */
  lemma DeleteOnlyThatRecord(rows: seq<TimeRecord>, recordId: int, other: int)
    requires UniqueIds(rows)
    ensures Lookup(WithoutId(rows, recordId), recordId).None?
    ensures other != recordId ==> Lookup(WithoutId(rows, recordId), other) == Lookup(rows, other)
  {
    var w := WithoutId(rows, recordId);
    forall i | 0 <= i < |w| ensures w[i].id != recordId {
      assert w[i] in w;
    }
    if other != recordId {
      LookupWithout(rows, recordId, other);
    }
  }
}
