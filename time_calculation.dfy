/** `TimeCalculationUtils`: the minutes worked in a list of records. Exported
    records are left out, the rest are grouped by day, and each day pairs
    entries and exits exactly as the block reconciler does; an open entry of
    today counts up to the current instant when asked to. The current
    instant is the parameter `now`. */
module TimeCalculation {
  import opened Records
  import opened Seqs
  import opened DateTimeUtils
  import opened Blocks

  /** `isToday`: the day of `date` is the day of `now`, that is, `now`
      falls between the midnight that starts `date`'s day and the next. */
  function IsToday(date: int, now: int): (r: bool)
    ensures r <==> TruncateToDay(date) <= now < TruncateToDay(date) + MillisPerDay
  {
    var today := TruncateToDay(now);
    if TruncateToDay(date) <= now < TruncateToDay(date) + MillisPerDay then
      TruncateToDayUnique(now, TruncateToDay(date));
      TruncateToDay(date) == today
    else
      TruncateToDay(date) == today
  }

  /** The minutes an open entry has been running at `now`, counted only when
      strictly between 0 and a whole day. */
  function InProgressMinutes(checkIn: int, now: int): (r: int)
    ensures 0 <= r < MinutesPerDay
  {
    var d := KDiv(now - checkIn, MillisPerMinute);
    if 0 < d < MinutesPerDay then d else 0
  }

  /** The running time is the whole minutes elapsed since the entry, and it
      is 0 when `now` is less than a minute after the entry (or before it)
      and when a whole day or more has passed. */
  lemma InProgressWholeMinutes(checkIn: int, now: int)
    ensures var r := InProgressMinutes(checkIn, now);
            (r > 0 ==> r * MillisPerMinute <= now - checkIn < (r + 1) * MillisPerMinute)
            && (now < checkIn + MillisPerMinute ==> r == 0)
            && (now - checkIn >= MinutesPerDay * MillisPerMinute ==> r == 0)
            && (MillisPerMinute <= now - checkIn < MinutesPerDay * MillisPerMinute ==> r > 0)
  {
    KDivRem(now - checkIn, MillisPerMinute);
  }

  /** What one step of the day walk adds: a pair its clamped duration, an
      open entry of today its running time when `includeInProgressToday`,
      anything else (an orphan exit, an older open entry) nothing. */
  function StepMinutes(day: int, rs: seq<TimeRecord>, st: Step, includeInProgressToday: bool, now: int): (r: int)
    requires st.first <= End(st) < |rs|
    ensures r >= 0
  {
    if st.second.Some? then CalculateDuration(rs[st.first], Some(rs[st.second.value]))
    else if rs[st.first].recordType == CheckIn && includeInProgressToday && IsToday(day, now)
    then InProgressMinutes(rs[st.first].date, now)
    else 0
  }

  /** The minutes of a list of steps. */
  function StepsMinutes(day: int, rs: seq<TimeRecord>, steps: seq<Step>, includeInProgressToday: bool, now: int): (r: int)
    requires forall st :: st in steps ==> st.first <= End(st) < |rs|
    ensures r >= 0
  {
    if steps == [] then 0
    else StepMinutes(day, rs, steps[0], includeInProgressToday, now)
         + StepsMinutes(day, rs, steps[1..], includeInProgressToday, now)
  }

  /** The minutes of one day, from its records sorted by instant. */
  function DayMinutes(day: int, rs: seq<TimeRecord>, includeInProgressToday: bool, now: int): int
  {
    StepsMinutes(day, rs, Steps(rs, 0), includeInProgressToday, now)
  }

  /** The body of the loop of `calculateDayMinutes`, as a helper of
      `CalculateDayMinutes`; `WalkIsSteps` ties its specification to the
      block builder's walk. One pass at record `i`: an entry
      followed by an exit adds the pair's minutes (when positive) and the
      walk resumes after the exit; an entry of today with no exit after it
      adds its running minutes when asked to; anything else adds nothing. */
  method DayMinutesStep(sortedRecords: seq<TimeRecord>, i: nat, day: int, includeInProgressToday: bool, now: int)
    returns (added: int, next: nat)
    requires i < |sortedRecords|
    ensures added == LoopMinutes(day, sortedRecords, i, includeInProgressToday, now)
    ensures next == LoopNext(sortedRecords, i) && i < next <= |sortedRecords|
  {
    added := 0;
    var current := sortedRecords[i];
    match current.recordType {
      case CheckIn =>
        var checkOutIndex := FindNextCheckOut(sortedRecords, i + 1);
        if checkOutIndex != -1 {
          var checkOut := sortedRecords[checkOutIndex];
          var duration := KDiv(checkOut.date - current.date, MillisPerMinute);
          if duration > 0 {
            added := duration;
          }
          next := checkOutIndex + 1;
        } else if includeInProgressToday && IsToday(day, now) {
          var duration := KDiv(now - current.date, MillisPerMinute);
          if duration > 0 && duration < 24 * 60 {
            added := duration;
          }
          next := i + 1;
        } else {
          next := i + 1;
        }
      case CheckOut =>
        next := i + 1;
    }
  }

  /** `calculateDayMinutes`: sorts the day's records and walks them, adding
      the duration of each pair and, for today, of an open entry. */
  method CalculateDayMinutes(dayRecords: seq<TimeRecord>, day: int, includeInProgressToday: bool, now: int)
    returns (totalMinutes: int)
    ensures totalMinutes == DayMinutes(day, SortByDate(dayRecords), includeInProgressToday, now)
    ensures totalMinutes >= 0
  {
    var sortedRecords := SortByDate(dayRecords);
    totalMinutes := 0;
    var i: nat := 0;
    while i < |sortedRecords|
      invariant i <= |sortedRecords|
      invariant totalMinutes + WalkMinutes(day, sortedRecords, i, includeInProgressToday, now)
             == WalkMinutes(day, sortedRecords, 0, includeInProgressToday, now)
      decreases |sortedRecords| - i
    {
      var added, next := DayMinutesStep(sortedRecords, i, day, includeInProgressToday, now);
      totalMinutes := totalMinutes + added;
      i := next;
    }
    WalkIsSteps(day, sortedRecords, 0, includeInProgressToday, now);
  }

  /** What one iteration of `calculateDayMinutes` adds, computed as the loop
      does. */
  function LoopMinutes(day: int, rs: seq<TimeRecord>, i: nat, inProgress: bool, now: int): int
    requires i < |rs|
  {
    if rs[i].recordType == CheckOut then 0
    else
      var j := NextCheckOut(rs, i + 1);
      if j != -1 then
        var d := KDiv(rs[j].date - rs[i].date, MillisPerMinute);
        if d > 0 then d else 0
      else if inProgress && IsToday(day, now) then
        var d := KDiv(now - rs[i].date, MillisPerMinute);
        if d > 0 && d < 24 * 60 then d else 0
      else 0
  }

  /** Where the next iteration of `calculateDayMinutes` starts. */
  function LoopNext(rs: seq<TimeRecord>, i: nat): nat
    requires i < |rs|
  {
    if rs[i].recordType == CheckIn && NextCheckOut(rs, i + 1) != -1 then NextCheckOut(rs, i + 1) + 1 else i + 1
  }

  /** The minutes from record `i` on, walked as the loop walks them. */
  function WalkMinutes(day: int, rs: seq<TimeRecord>, i: nat, inProgress: bool, now: int): int
    decreases |rs| - i
  {
    if i >= |rs| then 0
    else LoopMinutes(day, rs, i, inProgress, now) + WalkMinutes(day, rs, LoopNext(rs, i), inProgress, now)
  }

  /** The first step from record `i` is worth what one pass of the loop
      adds there. */
  lemma FirstStepMinutes(day: int, rs: seq<TimeRecord>, i: nat, inProgress: bool, now: int)
    requires i < |rs|
    ensures Steps(rs, i) != []
    ensures StepMinutes(day, rs, Steps(rs, i)[0], inProgress, now) == LoopMinutes(day, rs, i, inProgress, now)
  {
    StepsUnfold(rs, i);
    var st := Steps(rs, i)[0];
    if rs[i].recordType == CheckIn && NextCheckOut(rs, i + 1) != -1 {
      assert st == Step(i, Some(NextCheckOut(rs, i + 1) as nat));
    } else {
      assert st == Step(i, None);
    }
  }

  /** The loop's walk adds up the minutes of the steps the block reconciler
      builds from the same records. */
  lemma {:induction false} WalkIsSteps(day: int, rs: seq<TimeRecord>, i: nat, inProgress: bool, now: int)
    ensures WalkMinutes(day, rs, i, inProgress, now) == StepsMinutes(day, rs, Steps(rs, i), inProgress, now)
    decreases |rs| - i
  {
    if i < |rs| {
      StepsUnfold(rs, i);
      var steps := Steps(rs, i);
      WalkIsSteps(day, rs, LoopNext(rs, i), inProgress, now);
      FirstStepMinutes(day, rs, i, inProgress, now);
      assert StepsMinutes(day, rs, steps, inProgress, now)
          == StepMinutes(day, rs, steps[0], inProgress, now) + StepsMinutes(day, rs, steps[1..], inProgress, now);
    }
  }

  function NotExported(r: TimeRecord): bool { !r.exported }

  /** `records.filter { !it.exported }`. */
  function ActiveRecords(records: seq<TimeRecord>): (r: seq<TimeRecord>)
    ensures forall x :: x in r ==> x in records && !x.exported
  {
    Filter(records, NotExported)
  }

  /** The minutes of each group, added up in group order. */
  function GroupMinutes(groups: seq<Group<TimeRecord>>, includeInProgressToday: bool, now: int): (r: int)
    ensures r >= 0
  {
    if groups == [] then 0
    else DayMinutes(groups[0].key, SortByDate(groups[0].members), includeInProgressToday, now)
         + GroupMinutes(groups[1..], includeInProgressToday, now)
  }

  /** `calculateWorkingMinutes`: the minutes of the non-exported records,
      day by day. */
  function WorkingMinutes(records: seq<TimeRecord>, includeInProgressToday: bool, now: int): int
  {
    GroupMinutes(GroupBy(ActiveRecords(records), DayKey), includeInProgressToday, now)
  }

  /** The `forEach` of `calculateWorkingMinutes` over the day groups. */
  method CalculateWorkingMinutes(records: seq<TimeRecord>, includeInProgressToday: bool, now: int)
    returns (totalMinutes: int)
    ensures totalMinutes == WorkingMinutes(records, includeInProgressToday, now)
    ensures totalMinutes >= 0
  {
    var activeRecords := ActiveRecords(records);
    var recordsByDay := GroupBy(activeRecords, DayKey);
    totalMinutes := 0;
    var k := 0;
    while k < |recordsByDay|
      invariant 0 <= k <= |recordsByDay|
      invariant totalMinutes + GroupMinutes(recordsByDay[k..], includeInProgressToday, now)
             == GroupMinutes(recordsByDay, includeInProgressToday, now)
    {
      var dayMinutes := CalculateDayMinutes(recordsByDay[k].members, recordsByDay[k].key, includeInProgressToday, now);
      GroupMinutesStep(recordsByDay, k, totalMinutes, dayMinutes, includeInProgressToday, now);
      totalMinutes := totalMinutes + dayMinutes;
      k := k + 1;
    }
    assert recordsByDay[k..] == [];
  }

  /** One iteration of the `forEach` adds the minutes of group `k`. */
  lemma GroupMinutesStep(groups: seq<Group<TimeRecord>>, k: nat, total: int, dayMinutes: int, inProgress: bool, now: int)
    requires k < |groups|
    requires total + GroupMinutes(groups[k..], inProgress, now) == GroupMinutes(groups, inProgress, now)
    requires dayMinutes == DayMinutes(groups[k].key, SortByDate(groups[k].members), inProgress, now)
    ensures total + dayMinutes + GroupMinutes(groups[k + 1..], inProgress, now) == GroupMinutes(groups, inProgress, now)
  {
    assert groups[k..][1..] == groups[k + 1..];
  }

  /** Without the running entry, a day's minutes are the durations of its
      blocks added up: the two walks pair the same records. */
  lemma {:induction false} StepsMinutesBlocks(day: int, rs: seq<TimeRecord>, steps: seq<Step>, now: int)
    requires forall st :: st in steps ==> st.first <= End(st) < |rs|
    ensures StepsMinutes(day, rs, steps, false, now) == SumBy(BlocksFor(day, rs, steps), BlockDuration)
  {
    if steps != [] {
      StepsMinutesBlocks(day, rs, steps[1..], now);
      var bs := BlocksFor(day, rs, steps);
      assert bs[0] == BlockOf(day, rs, steps[0]);
      assert bs[1..] == BlocksFor(day, rs, steps[1..]);
    }
  }

  function BlockDuration(b: TimeRecordBlock): int { b.duration }

  /** A day's minutes, without the running entry, are the sum of the
      durations of that day's blocks. */
  lemma DayMinutesBlocks(day: int, rs: seq<TimeRecord>, now: int)
    ensures DayMinutes(day, rs, false, now) == SumBy(DayBlocks(day, rs), BlockDuration)
  {
    StepsMinutesBlocks(day, rs, Steps(rs, 0), now);
  }

  /** The running entry only counts on today's day and only when asked for;
      it adds at most a day's worth of minutes per record. */
  lemma {:induction false} StepsMinutesInProgress(day: int, rs: seq<TimeRecord>, steps: seq<Step>, inProgress: bool, now: int)
    requires forall st :: st in steps ==> st.first <= End(st) < |rs|
    ensures !(inProgress && IsToday(day, now)) ==>
              StepsMinutes(day, rs, steps, inProgress, now) == StepsMinutes(day, rs, steps, false, now)
    ensures StepsMinutes(day, rs, steps, false, now) <= StepsMinutes(day, rs, steps, inProgress, now)
            <= StepsMinutes(day, rs, steps, false, now) + (MinutesPerDay - 1) * |steps|
  {
    if steps != [] {
      StepsMinutesInProgress(day, rs, steps[1..], inProgress, now);
    }
  }

  /** Day-level form: an open entry changes nothing unless the day is today
      and the running time is asked for, and then adds less than a day per
      record of the day. */
  lemma DayMinutesInProgress(day: int, rs: seq<TimeRecord>, inProgress: bool, now: int)
    ensures !(inProgress && IsToday(day, now)) ==> DayMinutes(day, rs, inProgress, now) == DayMinutes(day, rs, false, now)
    ensures DayMinutes(day, rs, false, now) <= DayMinutes(day, rs, inProgress, now)
            <= DayMinutes(day, rs, false, now) + (MinutesPerDay - 1) * |rs|
  {
    var steps := Steps(rs, 0);
    StepsMinutesInProgress(day, rs, steps, inProgress, now);
    StepsDisjoint(rs, 0);
    StepsCountBound(rs, 0);
  }

  /** The walk takes at most one step per record. */
  lemma {:induction false} StepsCountBound(rs: seq<TimeRecord>, i: nat)
    ensures |Steps(rs, i)| <= |rs| - i || (i >= |rs| && Steps(rs, i) == [])
    decreases |rs| - i
  {
    if i < |rs| {
      var steps := Steps(rs, i);
      var next := End(steps[0]) + 1;
      assert steps[1..] == Steps(rs, next);
      StepsCountBound(rs, next);
    }
  }

  /** An exported record never changes the total, wherever it sits in the
      list. */
  lemma ExportedIgnored(a: seq<TimeRecord>, x: TimeRecord, b: seq<TimeRecord>, inProgress: bool, now: int)
    requires x.exported
    ensures WorkingMinutes(a + [x] + b, inProgress, now) == WorkingMinutes(a + b, inProgress, now)
  {
    FilterConcat(a + [x], b, NotExported);
    FilterConcat(a, [x], NotExported);
    FilterConcat(a, b, NotExported);
    assert Filter([x], NotExported) == [];
    assert ActiveRecords(a + [x]) == ActiveRecords(a);
    assert ActiveRecords(a + [x] + b) == ActiveRecords(a + b);
  }

  /** The day's minutes as a function of its key alone, for a given list. */
  function KeyMinutes(active: seq<TimeRecord>, k: int, inProgress: bool, now: int): int
  {
    DayMinutes(k, SortByDate(WithKey(active, DayKey, k)), inProgress, now)
  }

  /** Summing group by group is summing over the keys, when every group
      holds the records of its key (in any order that sorts the same). */
  lemma {:induction false} GroupMinutesKeys(active: seq<TimeRecord>, groups: seq<Group<TimeRecord>>, inProgress: bool, now: int)
    requires forall g :: g in groups ==>
               SortByDate(g.members) == SortByDate(WithKey(active, DayKey, g.key))
    ensures GroupMinutes(groups, inProgress, now) == SumBy(Keys(groups), k => KeyMinutes(active, k, inProgress, now))
  {
    if groups != [] {
      assert groups[0] in groups;
      GroupMinutesKeys(active, groups[1..], inProgress, now);
      assert Keys(groups)[1..] == Keys(groups[1..]);
    }
  }

  /** Grouping before or after sorting gives the same total: the groups of
      the sorted list are the same days, each with the same records. */
  lemma GroupMinutesSorted(active: seq<TimeRecord>, inProgress: bool, now: int)
    ensures GroupMinutes(GroupBy(active, DayKey), inProgress, now)
         == GroupMinutes(GroupBy(SortByDate(active), DayKey), inProgress, now)
  {
    var sorted := SortByDate(active);
    var g1 := GroupBy(active, DayKey);
    var g2 := GroupBy(sorted, DayKey);
    GroupByShape(active, DayKey);
    GroupByShape(sorted, DayKey);
    forall g | g in g2
      ensures SortByDate(g.members) == SortByDate(WithKey(active, DayKey, g.key))
    {
      WithKeySortBy(active, DateKey, DayKey, g.key);
      SortByIdempotent(WithKey(active, DayKey, g.key), DateKey);
    }
    GroupMinutesKeys(active, g1, inProgress, now);
    GroupMinutesKeys(active, g2, inProgress, now);
    forall k ensures k in Keys(g1) <==> k in Keys(g2) {
      if k in Keys(g1) {
        var x :| x in active && DayKey(x) == k;
        assert x in multiset(sorted);
      }
      if k in Keys(g2) {
        var x :| x in sorted && DayKey(x) == k;
        assert x in multiset(active);
      }
    }
    DistinctSameSet(Keys(g1), Keys(g2));
    SumByPermutation(Keys(g1), Keys(g2), k => KeyMinutes(active, k, inProgress, now));
  }

  /** The minutes of a list of groups are the durations of their blocks. */
  lemma {:induction false} GroupMinutesBlocks(groups: seq<Group<TimeRecord>>, now: int)
    ensures GroupMinutes(groups, false, now) == SumBy(GroupBlocks(groups), BlockDuration)
  {
    if groups != [] {
      var g := groups[0];
      GroupMinutesBlocks(groups[1..], now);
      DayMinutesBlocks(g.key, SortByDate(g.members), now);
      SumByConcat(DayBlocks(g.key, SortByDate(g.members)), GroupBlocks(groups[1..]), BlockDuration);
    }
  }

  /** Without the running entry, the worked minutes of a list of records
      are the durations of the blocks the history screen builds from its
      non-exported records, added up. */
  lemma WorkingMinutesBlocks(records: seq<TimeRecord>, now: int)
    ensures WorkingMinutes(records, false, now) == SumBy(AllBlocks(ActiveRecords(records)), BlockDuration)
  {
    var active := ActiveRecords(records);
    var groups := GroupBy(SortByDate(active), DayKey);
    GroupMinutesSorted(active, false, now);
    GroupMinutesBlocks(groups, now);
    SumByPermutation(AllBlocks(active), GroupBlocks(groups), BlockDuration);
  }

  /** Two shifts, 09:00 to 13:00 and 14:00 to 18:00, make a day of 480
      minutes. */
  lemma TwoShiftsDay()
    ensures DayMinutes(0, [TimeRecord(1, 9 * MillisPerHour, CheckIn, None, false),
                           TimeRecord(2, 13 * MillisPerHour, CheckOut, None, false),
                           TimeRecord(3, 14 * MillisPerHour, CheckIn, None, false),
                           TimeRecord(4, 18 * MillisPerHour, CheckOut, None, false)], false, 0) == 480
  {
    var rs := [TimeRecord(1, 9 * MillisPerHour, CheckIn, None, false),
               TimeRecord(2, 13 * MillisPerHour, CheckOut, None, false),
               TimeRecord(3, 14 * MillisPerHour, CheckIn, None, false),
               TimeRecord(4, 18 * MillisPerHour, CheckOut, None, false)];
    assert NextCheckOut(rs, 1) == 1;
    assert NextCheckOut(rs, 3) == 3;
    assert Steps(rs, 4) == [];
    assert Steps(rs, 2) == [Step(2, Some(3))];
    assert Steps(rs, 0) == [Step(0, Some(1)), Step(2, Some(3))];
    assert CalculateDuration(rs[0], Some(rs[1])) == 240;
    assert CalculateDuration(rs[2], Some(rs[3])) == 240;
    assert StepsMinutes(0, rs, [Step(2, Some(3))], false, 0) == 240;
    assert StepsMinutes(0, rs, [Step(0, Some(1)), Step(2, Some(3))], false, 0) == 480;
  }

  /** An entry at 09:00 still open at 10:30 the same day counts 90 minutes
      when the running entry is asked for, and nothing otherwise. */
  lemma RunningEntryDay()
    ensures DayMinutes(0, [TimeRecord(1, 9 * MillisPerHour, CheckIn, None, false)], true,
                       9 * MillisPerHour + 90 * MillisPerMinute) == 90
    ensures DayMinutes(0, [TimeRecord(1, 9 * MillisPerHour, CheckIn, None, false)], false,
                       9 * MillisPerHour + 90 * MillisPerMinute) == 0
  {
    var rs := [TimeRecord(1, 9 * MillisPerHour, CheckIn, None, false)];
    var now := 9 * MillisPerHour + 90 * MillisPerMinute;
    assert NextCheckOut(rs, 1) == -1;
    assert Steps(rs, 1) == [];
    assert Steps(rs, 0) == [Step(0, None)];
    assert IsToday(0, now);
    assert InProgressMinutes(rs[0].date, now) == 90;
    assert StepsMinutes(0, rs, [Step(0, None)], true, now) == StepMinutes(0, rs, Step(0, None), true, now);
    assert StepsMinutes(0, rs, [Step(0, None)], false, now) == StepMinutes(0, rs, Step(0, None), false, now);
  }
}
