// The history screen's view model: which of the last four weeks have
// records, the blocks of the selected week, edits that reload it, and the
// guard in front of the PDF export. Coroutines are not modelled: a reload
// that the source launches runs to completion where it is launched.

module History {
  import opened Records
  import opened Seqs
  import opened DateTimeUtils
  import opened Blocks
  import opened Dao
  import opened Repository

  /** `WeekData`: the Monday that starts a week and its label. */
  datatype WeekData = WeekData(startDate: int, displayText: string)

  /** `HistoryUiState`. */
  datatype HistoryUiState = HistoryUiState(
    isLoading: bool, isExporting: bool, selectedWeek: Option<WeekData>,
    error: Option<string>, message: Option<string>)

  const InitialUiState: HistoryUiState := HistoryUiState(false, false, None, None, None)

  const NothingToExport: string := "No hay registros para exportar"
  const ExportCompleted: string := "Exportación completada"
  const PdfManagerMissing: string := "PDFManager no disponible"
  const RecordUpdated: string := "Registro actualizado correctamente"
  const RecordDeleted: string := "Registro eliminado correctamente"
  const RecordAdded: string := "Registro añadido correctamente"

  /** The error text of a failed export. */
  function ExportFailed(reason: string): string
  {
    "Error al exportar: " + reason
  }

  /** How many weeks `loadAvailableWeeks` looks at. */
  const WeeksInspected: nat := 4

  /** The start of the week the loop inspects at step `i`: `i` weeks
      before the current week's Monday. */
  function WeekStartAt(currentWeekStart: int, i: int): int
  {
    AddDays(currentWeekStart, -7 * i)
  }

  /** Stepping the calendar back `i` weeks from now and taking its Monday
      gives the week start of step `i`. */
  lemma SteppedCalendarWeek(now: int, i: int)
    ensures GetStartOfWeek(AddDays(now, -7 * i)) == WeekStartAt(GetStartOfWeek(now), i)
  {
    StartOfWeekShift(now, -i);
  }

  /** The last day shown in a week's label, `add(DAY_OF_WEEK, 6)`. */
  function WeekEnd(weekStart: int): int
  {
    AddDays(weekStart, 6)
  }

  /** For a Monday, the label's last day is the Sunday of the same week. */
  lemma WeekEndSameWeek(weekStart: int)
    requires GetStartOfWeek(weekStart) == weekStart
    ensures GetStartOfWeek(WeekEnd(weekStart)) == weekStart
    ensures WeekEnd(weekStart) < GetEndOfWeek(weekStart)
    ensures DaysSinceMonday(WeekEnd(weekStart)) == 6
  {
    StartOfWeekUnique(WeekEnd(weekStart), weekStart);
    assert DayNumber(WeekEnd(weekStart)) == DayNumber(weekStart) + 6;
  }

  /** The Mondays of the weeks that hold at least one record. */
  function RecordWeeks(rows: seq<TimeRecord>): set<int>
  {
    set x | x in rows :: GetStartOfWeek(x.date)
  }

  /** The week query of a Monday returns records exactly when that Monday
      starts the week of some record. */
  lemma RecordWeeksExact(rows: seq<TimeRecord>, weekStart: int)
    requires GetStartOfWeek(weekStart) == weekStart
    ensures WeekRange(rows, weekStart) != [] <==> weekStart in RecordWeeks(rows)
  {
    WeekRangeExact(rows, weekStart);
    var week := WeekRange(rows, weekStart);
    if week != [] {
      assert week[0] in week;
    }
  }

  /** The list the loop has built after its first `n` steps: each week that
      has records is put in front, so the oldest comes first. The label text is
      locale formatting and comes from `labelOf`. */
  function ListedWeeks(recordWeeks: set<int>, currentWeekStart: int, labelOf: (int, int) -> string, n: nat): (r: seq<WeekData>)
    ensures |r| <= n
    decreases n
  {
    if n == 0 then []
    else
      var earlier := ListedWeeks(recordWeeks, currentWeekStart, labelOf, n - 1);
      var weekStart := WeekStartAt(currentWeekStart, n - 1);
      if weekStart <= currentWeekStart && weekStart in recordWeeks then
        [WeekData(weekStart, labelOf(weekStart, WeekEnd(weekStart)))] + earlier
      else earlier
  }

  /** Week starts strictly increase along the list. */
  predicate OldestFirst(weeks: seq<WeekData>)
  {
    forall j, k :: 0 <= j < k < |weeks| ==> weeks[j].startDate < weeks[k].startDate
  }

  /** Each week of the list is one of the first `n` inspected, has
      records, and carries the label of its own first and last day. */
  predicate InspectedWeeks(weeks: seq<WeekData>, recordWeeks: set<int>, currentWeekStart: int, labelOf: (int, int) -> string, n: nat)
  {
    forall j :: 0 <= j < |weeks| ==>
      weeks[j].displayText == labelOf(weeks[j].startDate, WeekEnd(weeks[j].startDate)) &&
      weeks[j].startDate in recordWeeks &&
      exists i :: 0 <= i < n && weeks[j].startDate == WeekStartAt(currentWeekStart, i)
  }

  /** Only inspected weeks with records are listed, with their labels. */
  lemma {:induction false} ListedWeeksSound(recordWeeks: set<int>, currentWeekStart: int, labelOf: (int, int) -> string, n: nat)
    ensures InspectedWeeks(ListedWeeks(recordWeeks, currentWeekStart, labelOf, n), recordWeeks, currentWeekStart, labelOf, n)
    decreases n
  {
    if n > 0 {
      ListedWeeksSound(recordWeeks, currentWeekStart, labelOf, n - 1);
      var earlier := ListedWeeks(recordWeeks, currentWeekStart, labelOf, n - 1);
      var weeks := ListedWeeks(recordWeeks, currentWeekStart, labelOf, n);
      var weekStart := WeekStartAt(currentWeekStart, n - 1);
      forall j | 0 <= j < |weeks|
        ensures weeks[j].displayText == labelOf(weeks[j].startDate, WeekEnd(weeks[j].startDate))
        ensures weeks[j].startDate in recordWeeks
        ensures exists i :: 0 <= i < n && weeks[j].startDate == WeekStartAt(currentWeekStart, i)
      {
        if weekStart <= currentWeekStart && weekStart in recordWeeks {
          if j == 0 {
            assert weeks[j].startDate == WeekStartAt(currentWeekStart, n - 1);
          } else {
            assert weeks[j] == earlier[j - 1];
          }
        } else {
          assert weeks[j] == earlier[j];
        }
      }
      assert InspectedWeeks(weeks, recordWeeks, currentWeekStart, labelOf, n);
    }
  }

  /** The weeks are listed oldest first. */
  lemma {:induction false} ListedWeeksOldestFirst(recordWeeks: set<int>, currentWeekStart: int, labelOf: (int, int) -> string, n: nat)
    ensures OldestFirst(ListedWeeks(recordWeeks, currentWeekStart, labelOf, n))
    decreases n
  {
    if n > 0 {
      ListedWeeksOldestFirst(recordWeeks, currentWeekStart, labelOf, n - 1);
      ListedWeeksSound(recordWeeks, currentWeekStart, labelOf, n - 1);
      var earlier := ListedWeeks(recordWeeks, currentWeekStart, labelOf, n - 1);
      var weeks := ListedWeeks(recordWeeks, currentWeekStart, labelOf, n);
      var weekStart := WeekStartAt(currentWeekStart, n - 1);
      if weekStart <= currentWeekStart && weekStart in recordWeeks {
        assert weeks == [WeekData(weekStart, labelOf(weekStart, WeekEnd(weekStart)))] + earlier;
        forall k | 0 < k < |weeks| ensures weekStart < weeks[k].startDate {
          assert weeks[k] == earlier[k - 1];
          var i :| 0 <= i < n - 1 && earlier[k - 1].startDate == WeekStartAt(currentWeekStart, i);
        }
        assert OldestFirst(weeks) by {
          forall j, k | 0 <= j < k < |weeks| ensures weeks[j].startDate < weeks[k].startDate {
            if j > 0 {
              assert weeks[j] == earlier[j - 1] && weeks[k] == earlier[k - 1];
            }
          }
        }
      }
    }
  }

  /** Every one of the first `n` inspected weeks that has records is listed:
      the check that a week is not in the future never drops one. */
  lemma {:induction false} ListedWeeksComplete(recordWeeks: set<int>, currentWeekStart: int, labelOf: (int, int) -> string, n: nat, i: nat)
    requires i < n && WeekStartAt(currentWeekStart, i) in recordWeeks
    ensures exists j :: (0 <= j < |ListedWeeks(recordWeeks, currentWeekStart, labelOf, n)| &&
      ListedWeeks(recordWeeks, currentWeekStart, labelOf, n)[j].startDate == WeekStartAt(currentWeekStart, i))
    decreases n
  {
    var earlier := ListedWeeks(recordWeeks, currentWeekStart, labelOf, n - 1);
    var weeks := ListedWeeks(recordWeeks, currentWeekStart, labelOf, n);
    if i < n - 1 {
      ListedWeeksComplete(recordWeeks, currentWeekStart, labelOf, n - 1, i);
      var j :| 0 <= j < |earlier| && earlier[j].startDate == WeekStartAt(currentWeekStart, i);
      var weekStart := WeekStartAt(currentWeekStart, n - 1);
      if weekStart <= currentWeekStart && weekStart in recordWeeks {
        assert weeks[j + 1] == earlier[j];
      }
    } else {
      assert WeekStartAt(currentWeekStart, i) <= currentWeekStart;
      assert weeks[0].startDate == WeekStartAt(currentWeekStart, i);
    }
  }

  /** `last()` of a non-empty list. */
  function Last(weeks: seq<WeekData>): WeekData
    requires weeks != []
  {
    weeks[|weeks| - 1]
  }

  /** `find { it.startDate == weekStart }`: the first week with that start. */
  function FindWeek(weeks: seq<WeekData>, weekStart: int): (r: Option<WeekData>)
    ensures r.None? <==> forall j :: 0 <= j < |weeks| ==> weeks[j].startDate != weekStart
    ensures r.Some? ==> r.value in weeks && r.value.startDate == weekStart
  {
    if weeks == [] then None
    else if weeks[0].startDate == weekStart then Some(weeks[0])
    else
      var rest := FindWeek(weeks[1..], weekStart);
      assert forall j :: 0 < j < |weeks| ==> weeks[j] == weeks[1..][j - 1];
      rest
  }

  /** In a list with distinct, increasing starts, searching a listed week's
      start finds that very week. */
  lemma {:induction false} FindListedWeek(weeks: seq<WeekData>, j: nat)
    requires OldestFirst(weeks)
    requires j < |weeks|
    ensures FindWeek(weeks, weeks[j].startDate) == Some(weeks[j])
  {
    if j > 0 {
      assert weeks[0].startDate < weeks[j].startDate;
      assert weeks[1..][j - 1] == weeks[j];
      FindListedWeek(weeks[1..], j - 1);
    }
  }

  /** `HistoryViewModel`. The PDF manager is optional; only whether it is
      present matters here. */
  class HistoryViewModel {
    const repository: TimeRecordRepository
    const hasPdfManager: bool
    const weekLabel: (int, int) -> string
    var uiState: HistoryUiState
    var timeBlocks: Option<seq<TimeRecordBlock>>
    var availableWeeks: seq<WeekData>

    ghost predicate Valid()
      reads this, repository, repository.timeRecordDao
    {
      repository.Valid()
    }

    /** The weeks are loaded as soon as the view model is created. */
    constructor(repo: TimeRecordRepository, pdfManager: bool, labelOf: (int, int) -> string, now: int)
      requires repo.Valid()
      ensures Valid() && repository == repo && hasPdfManager == pdfManager && weekLabel == labelOf
      ensures availableWeeks == ListedWeeks(RecordWeeks(repo.timeRecordDao.rows), GetStartOfWeek(now), labelOf, WeeksInspected)
      ensures availableWeeks == [] ==> timeBlocks.None? && uiState == InitialUiState
      ensures availableWeeks != [] ==>
        uiState == InitialUiState.(selectedWeek := Some(Last(availableWeeks))) &&
        timeBlocks == Some(AllBlocks(WeekRange(repo.timeRecordDao.rows, Last(availableWeeks).startDate)))
    {
      repository := repo;
      hasPdfManager := pdfManager;
      weekLabel := labelOf;
      uiState := InitialUiState;
      timeBlocks := None;
      availableWeeks := [];
      new;
      LoadAvailableWeeks(now);
    }

    /** `loadWeekRecords`: the blocks of that week's records, and the listed
        week with that start as the selection. */
    method LoadWeekRecords(weekStart: int)
      modifies this
      ensures timeBlocks == Some(AllBlocks(WeekRange(repository.timeRecordDao.rows, weekStart)))
      ensures uiState == old(uiState).(isLoading := false, selectedWeek := FindWeek(availableWeeks, weekStart))
      ensures availableWeeks == old(availableWeeks)
    {
      uiState := uiState.(isLoading := true);
      var records := repository.GetRecordsForWeek(weekStart);
      var blocks := CreateBlocks(records);
      timeBlocks := Some(blocks);
      uiState := uiState.(selectedWeek := FindWeek(availableWeeks, weekStart), isLoading := false);
    }

    /** `getRecordsForWeek(weekStart).isNotEmpty()`. */
    method HasRecordsFor(weekStart: int) returns (found: bool)
      requires GetStartOfWeek(weekStart) == weekStart
      ensures found <==> weekStart in RecordWeeks(repository.timeRecordDao.rows)
    {
      var records := repository.GetRecordsForWeek(weekStart);
      found := records != [];
      RecordWeeksExact(repository.timeRecordDao.rows, weekStart);
    }

    /** The loop of `loadAvailableWeeks`: steps a calendar back one week at
        a time from now, four times, and puts each week with records in
        front of the list. */
    method InspectWeeks(now: int) returns (weeksWithRecords: seq<WeekData>)
      ensures weeksWithRecords == ListedWeeks(RecordWeeks(repository.timeRecordDao.rows), GetStartOfWeek(now), weekLabel, WeeksInspected)
    {
      var currentWeekStart := GetStartOfWeek(now);
      var calendar := now;
      weeksWithRecords := [];
      ghost var recordWeeks := RecordWeeks(repository.timeRecordDao.rows);
      for i := 0 to WeeksInspected
        invariant calendar == AddDays(now, -7 * i)
        invariant weeksWithRecords == ListedWeeks(recordWeeks, currentWeekStart, weekLabel, i)
      {
        var weekStart := GetStartOfWeek(calendar);
        SteppedCalendarWeek(now, i);
        StartOfWeekIdempotent(calendar);
        if weekStart <= currentWeekStart {
          var found := HasRecordsFor(weekStart);
          if found {
            var endOfWeek := WeekEnd(weekStart);
            var displayText := weekLabel(weekStart, endOfWeek);
            weeksWithRecords := [WeekData(weekStart, displayText)] + weeksWithRecords;
          }
        }
        calendar := AddDays(calendar, -7);
      }
    }

    /** `loadAvailableWeeks`: lists the weeks with records among this week
        and the three before it, oldest first, and selects and loads the
        most recent of them. */
    method LoadAvailableWeeks(now: int)
      modifies this
      ensures availableWeeks == ListedWeeks(RecordWeeks(repository.timeRecordDao.rows), GetStartOfWeek(now), weekLabel, WeeksInspected)
      ensures availableWeeks == [] ==>
        uiState == old(uiState).(isLoading := false) && timeBlocks == old(timeBlocks)
      ensures availableWeeks != [] ==>
        uiState == old(uiState).(isLoading := false, selectedWeek := Some(Last(availableWeeks))) &&
        timeBlocks == Some(AllBlocks(WeekRange(repository.timeRecordDao.rows, Last(availableWeeks).startDate)))
    {
      uiState := uiState.(isLoading := true);
      var weeksWithRecords := InspectWeeks(now);
      availableWeeks := weeksWithRecords;
      if weeksWithRecords != [] {
        var mostRecentWeek := Last(weeksWithRecords);
        uiState := uiState.(selectedWeek := Some(mostRecentWeek), isLoading := false);
        LoadWeekRecords(mostRecentWeek.startDate);
        ListedWeeksOldestFirst(RecordWeeks(repository.timeRecordDao.rows), GetStartOfWeek(now), weekLabel, WeeksInspected);
        FindListedWeek(weeksWithRecords, |weeksWithRecords| - 1);
      } else {
        uiState := uiState.(isLoading := false);
      }
    }

    /** The reload and the message that end each edit. */
    method ReloadSelectedWeek(message: string)
      modifies this
      ensures availableWeeks == old(availableWeeks)
      ensures match old(uiState.selectedWeek)
        case None =>
          timeBlocks == old(timeBlocks) &&
          uiState == old(uiState).(isLoading := false, message := Some(message))
        case Some(week) =>
          timeBlocks == Some(AllBlocks(WeekRange(repository.timeRecordDao.rows, week.startDate))) &&
          uiState == old(uiState).(isLoading := false, message := Some(message),
            selectedWeek := FindWeek(availableWeeks, week.startDate))
    {
      match uiState.selectedWeek {
        case None =>
        case Some(week) =>
          LoadWeekRecords(week.startDate);
      }
      uiState := uiState.(isLoading := false, message := Some(message));
    }

    /** `updateRecordTime`: the repository moves the record, the selected
        week is reloaded, and success is reported even for an unknown key. */
    method UpdateRecordTime(recordId: int, hour: int, minute: int)
      requires Valid()
      modifies this, repository.timeRecordDao
      ensures Valid() && availableWeeks == old(availableWeeks)
      ensures repository.timeRecordDao.rows == match Lookup(old(repository.timeRecordDao.rows), recordId)
        case None => old(repository.timeRecordDao.rows)
        case Some(record) => Replace(old(repository.timeRecordDao.rows), record.(date := SetTimeToDate(record.date, hour, minute)))
      ensures match old(uiState.selectedWeek)
        case None =>
          timeBlocks == old(timeBlocks) &&
          uiState == old(uiState).(isLoading := false, message := Some(RecordUpdated))
        case Some(week) =>
          timeBlocks == Some(AllBlocks(WeekRange(repository.timeRecordDao.rows, week.startDate))) &&
          uiState == old(uiState).(isLoading := false, message := Some(RecordUpdated),
            selectedWeek := FindWeek(availableWeeks, week.startDate))
    {
      uiState := uiState.(isLoading := true);
      var _ := repository.UpdateRecordTime(recordId, hour, minute);
      ReloadSelectedWeek(RecordUpdated);
    }

    /** `deleteRecord`: the repository removes the record, the selected week
        is reloaded, and success is reported even for an unknown key. */
    method DeleteRecord(recordId: int)
      requires Valid()
      modifies this, repository.timeRecordDao
      ensures Valid() && availableWeeks == old(availableWeeks)
      ensures repository.timeRecordDao.rows ==
        if Lookup(old(repository.timeRecordDao.rows), recordId).Some? then WithoutId(old(repository.timeRecordDao.rows), recordId)
        else old(repository.timeRecordDao.rows)
      ensures match old(uiState.selectedWeek)
        case None =>
          timeBlocks == old(timeBlocks) &&
          uiState == old(uiState).(isLoading := false, message := Some(RecordDeleted))
        case Some(week) =>
          timeBlocks == Some(AllBlocks(WeekRange(repository.timeRecordDao.rows, week.startDate))) &&
          uiState == old(uiState).(isLoading := false, message := Some(RecordDeleted),
            selectedWeek := FindWeek(availableWeeks, week.startDate))
    {
      uiState := uiState.(isLoading := true);
      var _ := repository.DeleteRecord(recordId);
      ReloadSelectedWeek(RecordDeleted);
    }

    /** `addRecord`: the repository stores the record, and the selected week
        is reloaded. */
    method AddRecord(date: int, recordType: RecordType, note: Option<string>)
      requires Valid()
      modifies this, repository.timeRecordDao
      ensures Valid() && availableWeeks == old(availableWeeks)
      ensures repository.timeRecordDao.rows == old(repository.timeRecordDao.rows) +
        [TimeRecord(repository.timeRecordDao.lastId, ClearSeconds(date), recordType, note, false)]
      ensures match old(uiState.selectedWeek)
        case None =>
          timeBlocks == old(timeBlocks) &&
          uiState == old(uiState).(isLoading := false, message := Some(RecordAdded))
        case Some(week) =>
          timeBlocks == Some(AllBlocks(WeekRange(repository.timeRecordDao.rows, week.startDate))) &&
          uiState == old(uiState).(isLoading := false, message := Some(RecordAdded),
            selectedWeek := FindWeek(availableWeeks, week.startDate))
    {
      uiState := uiState.(isLoading := true);
      var _ := repository.InsertRecord(date, recordType, note);
      ReloadSelectedWeek(RecordAdded);
    }

    /** `exportWeekToPdf`: nothing to export, or no PDF manager, fails
        without asking for a document; otherwise the document of the shown
        blocks is requested, and `uploadFailure` is the reason it failed, if
        it did. Every path ends with both flags down. */
    method ExportWeekToPdf(uploadFailure: Option<string>) returns (success: bool, message: string, pdfRequested: bool)
      modifies this
      ensures !uiState.isLoading && !uiState.isExporting
      ensures uiState.selectedWeek == old(uiState.selectedWeek)
      ensures timeBlocks == old(timeBlocks) && availableWeeks == old(availableWeeks)
      ensures pdfRequested <==> timeBlocks.Some? && timeBlocks.value != [] && hasPdfManager
      ensures success <==> pdfRequested && uploadFailure.None?
      ensures (timeBlocks.None? || timeBlocks.value == []) ==>
        message == NothingToExport && uiState.error == Some(NothingToExport) && uiState.message == old(uiState.message)
      ensures success ==> message == ExportCompleted && uiState.message == Some(ExportCompleted) && uiState.error == old(uiState.error)
      ensures timeBlocks.Some? && timeBlocks.value != [] && !success ==>
        message == ExportFailed(if hasPdfManager then uploadFailure.value else PdfManagerMissing) &&
        uiState.error == Some(message) && uiState.message == old(uiState.message)
    {
      uiState := uiState.(isLoading := true, isExporting := true);
      var currentBlocks := timeBlocks;
      if currentBlocks.None? || currentBlocks.value == [] {
        uiState := uiState.(isLoading := false, isExporting := false, error := Some(NothingToExport));
        return false, NothingToExport, false;
      }
      if !hasPdfManager {
        message := ExportFailed(PdfManagerMissing);
        uiState := uiState.(isLoading := false, isExporting := false, error := Some(message));
        return false, message, false;
      }
      pdfRequested := true;
      match uploadFailure {
        case Some(reason) =>
          message := ExportFailed(reason);
          uiState := uiState.(isLoading := false, isExporting := false, error := Some(message));
          success := false;
        case None =>
          uiState := uiState.(isLoading := false, isExporting := false, message := Some(ExportCompleted));
          success, message := true, ExportCompleted;
      }
    }

    /** `clearMessages`. */
    method ClearMessages()
      modifies this
      ensures uiState == old(uiState).(error := None, message := None)
      ensures timeBlocks == old(timeBlocks) && availableWeeks == old(availableWeeks)
    {
      uiState := uiState.(error := None, message := None);
    }
  }
}
