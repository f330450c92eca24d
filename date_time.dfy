/** `DateTimeUtils`: instant arithmetic on a calendar with a fixed offset and
    no daylight-saving changes, so that a day is always 86 400 000 ms and
    the epoch (day 0) is a Thursday. Each operation maps an instant to an
    instant. */
module DateTimeUtils {
  import opened Records
  import opened Text

  /** Whole days since the epoch (negative before it). */
  function DayNumber(d: int): int
  {
    d / MillisPerDay
  }

  /** Days since the most recent Monday: 0 on Monday, 6 on Sunday. */
  function DaysSinceMonday(d: int): (r: int)
    ensures 0 <= r < 7
  {
    (DayNumber(d) + 3) % 7
  }

  /** `clearSeconds`: the same minute with seconds and milliseconds zeroed. */
  function ClearSeconds(d: int): (r: int)
    ensures r % MillisPerMinute == 0
    ensures r <= d < r + MillisPerMinute
  {
    d - d % MillisPerMinute
  }

  /** `truncateToDay`: midnight of the day `d` falls in. */
  function TruncateToDay(d: int): (r: int)
    ensures r % MillisPerDay == 0
    ensures r <= d < r + MillisPerDay
  {
    d - d % MillisPerDay
  }

  /** `setTimeToDate`: the day of `d` at `hour:minute:00.000`. The calendar is
      lenient, so an hour or minute out of range rolls over into the next or
      previous units. */
  function SetTimeToDate(d: int, hour: int, minute: int): (r: int)
    ensures r % MillisPerMinute == 0
    ensures 0 <= hour < 24 && 0 <= minute < 60 ==>
              TruncateToDay(r) == TruncateToDay(d)
              && (r - TruncateToDay(d)) / MillisPerMinute == hour * 60 + minute
  {
    var offset := (hour * 60 + minute) * MillisPerMinute;
    assert hour * MillisPerHour + minute * MillisPerMinute == offset;
    SetTimeToDateDay(d, offset);
    TruncateToDay(d) + hour * MillisPerHour + minute * MillisPerMinute
  }

  /** Adding a whole number of minutes less than a day to midnight stays in
      the same day. */
  lemma SetTimeToDateDay(d: int, offset: int)
    requires offset % MillisPerMinute == 0
    ensures (TruncateToDay(d) + offset) % MillisPerMinute == 0
    ensures 0 <= offset < MillisPerDay ==> TruncateToDay(TruncateToDay(d) + offset) == TruncateToDay(d)
  {
    var t := TruncateToDay(d);
    assert t == (t / MillisPerDay) * MillisPerDay;
    assert t == (t / MillisPerDay * 1440) * MillisPerMinute;
    if 0 <= offset < MillisPerDay {
      TruncateToDayUnique(t + offset, t);
    }
  }

  /** `addDays`: `days` whole days later (earlier when negative). */
  function AddDays(d: int, days: int): (r: int)
    ensures r - d == days * MillisPerDay
  {
    d + days * MillisPerDay
  }

  /** `getStartOfWeek`: midnight of the Monday that starts the week of `d`. */
  function GetStartOfWeek(d: int): (r: int)
    ensures r % MillisPerDay == 0 && DaysSinceMonday(r) == 0
    ensures r <= d < r + 7 * MillisPerDay
  {
    TruncateToDay(d) - DaysSinceMonday(d) * MillisPerDay
  }

  /** `getEndOfWeek`: midnight of the following Monday, the exclusive end of
      the week of `d`. */
  function GetEndOfWeek(d: int): (r: int)
    ensures r % MillisPerDay == 0 && DaysSinceMonday(r) == 0
    ensures r - 7 * MillisPerDay <= d < r
  {
    AddDays(GetStartOfWeek(d), 7)
  }

  /** Midnight is the only multiple of a day in the day's range, so
      `truncateToDay` is determined by its bounds. */
  lemma TruncateToDayUnique(d: int, m: int)
    requires m % MillisPerDay == 0 && m <= d < m + MillisPerDay
    ensures m == TruncateToDay(d)
  {
  }

  lemma ClearSecondsIdempotent(d: int)
    ensures ClearSeconds(ClearSeconds(d)) == ClearSeconds(d)
  {
  }

  lemma TruncateToDayIdempotent(d: int)
    ensures TruncateToDay(TruncateToDay(d)) == TruncateToDay(d)
  {
  }

  /** Clearing the seconds never moves an instant to another day. */
  lemma ClearSecondsSameDay(d: int)
    ensures TruncateToDay(ClearSeconds(d)) == TruncateToDay(d)
  {
    TruncateToDayUnique(ClearSeconds(d), TruncateToDay(d));
  }

  /** The week start is determined by its three properties: a Monday
      midnight no later than `d` and less than a week before it. */
  lemma StartOfWeekUnique(d: int, m: int)
    requires m % MillisPerDay == 0 && DaysSinceMonday(m) == 0
    requires m <= d < m + 7 * MillisPerDay
    ensures m == GetStartOfWeek(d)
  {
    var s := GetStartOfWeek(d);
    var q := m / MillisPerDay;
    var p := s / MillisPerDay;
    assert m == q * MillisPerDay && s == p * MillisPerDay;
    assert (q + 3) % 7 == 0 && (p + 3) % 7 == 0;
    assert -7 < q - p < 7;
  }

  lemma StartOfWeekIdempotent(d: int)
    ensures GetStartOfWeek(GetStartOfWeek(d)) == GetStartOfWeek(d)
  {
    StartOfWeekUnique(GetStartOfWeek(d), GetStartOfWeek(d));
  }

  /** Moving a whole number of weeks moves the week start by as much. */
  lemma StartOfWeekShift(d: int, weeks: int)
    ensures GetStartOfWeek(AddDays(d, 7 * weeks)) == AddDays(GetStartOfWeek(d), 7 * weeks)
  {
    var m := AddDays(GetStartOfWeek(d), 7 * weeks);
    var q := GetStartOfWeek(d) / MillisPerDay;
    assert m == (q + 7 * weeks) * MillisPerDay;
    assert DayNumber(m) == q + 7 * weeks;
    StartOfWeekUnique(AddDays(d, 7 * weeks), m);
  }

  lemma AddDaysCompose(d: int, a: int, b: int)
    ensures AddDays(AddDays(d, a), b) == AddDays(d, a + b)
  {
  }

  /** Whole days keep the time of day: the day of `addDays(d, n)` is `n` days
      after the day of `d`. */
  lemma AddDaysTruncate(d: int, n: int)
    ensures TruncateToDay(AddDays(d, n)) == AddDays(TruncateToDay(d), n)
  {
    TruncateToDayUnique(AddDays(d, n), AddDays(TruncateToDay(d), n));
  }

  /** Minutes since midnight, hour of day times 60 plus minute of hour. */
  function MinuteOfDay(d: int): (r: int)
    ensures 0 <= r < MinutesPerDay
    ensures r * MillisPerMinute <= d - TruncateToDay(d) < (r + 1) * MillisPerMinute
  {
    var sinceMidnight := d - TruncateToDay(d);
    var hour := sinceMidnight / MillisPerHour;
    var minute := sinceMidnight / MillisPerMinute % 60;
    assert hour * 60 + minute == sinceMidnight / MillisPerMinute;
    hour * 60 + minute
  }

  /** `formatTime` and the "HH:mm" format: two-digit hour, a colon, and
      two-digit minute of the day. */
  function FormatTime(d: int): (r: string)
    ensures |r| == 5 && r[2] == ':'
    ensures AllDigits(r[..2]) && AllDigits(r[3..])
    ensures ParseDigits(r[..2]) * 60 + ParseDigits(r[3..]) == MinuteOfDay(d)
  {
    var m := MinuteOfDay(d);
    var hh := TwoDigits(m / 60);
    var mm := TwoDigits(m % 60);
    assert (hh + ":" + mm)[..2] == hh && (hh + ":" + mm)[3..] == mm;
    hh + ":" + mm
  }
}
