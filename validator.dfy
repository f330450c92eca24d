// The action validator: which record the user may add next, and whether a
// proposed check-out time is acceptable against its check-in.

module Validation {
  import opened Records
  import opened Seqs
  import opened DateTimeUtils

  /** The triple returned by `validateNextAction`: whether the state is
      consistent, the record type to add next, and a message. */
  datatype NextAction = NextAction(valid: bool, next: RecordType, message: string)

  /** The pair returned by `validateCheckOutTime`. */
  datatype Verdict = Verdict(valid: bool, message: string)

  /** The user-facing text of the `error_exit_after_entry` string resource;
      its translation is not part of this model. */
  const ErrorExitAfterEntry: string := "error_exit_after_entry"

  /** `sortedBy { it.date }.last()`: the record that ends up last when the
      list is sorted by date, or nothing for an empty list. */
  function LatestRecord(records: seq<TimeRecord>): (r: Option<TimeRecord>)
    ensures r.None? <==> records == []
    ensures r.Some? ==> r.value in records
  {
    if records == [] then None
    else
      var sorted := SortByDate(records);
      assert |sorted| == |multiset(sorted)| == |records|;
      assert sorted[|sorted| - 1] in multiset(records);
      Some(sorted[|sorted| - 1])
  }

  /** The action to propose next: a check-in for an empty list, otherwise the
      opposite of the type of the last record once sorted by date. */
  function ValidateNextAction(records: seq<TimeRecord>): (r: NextAction)
    ensures r.valid && r.message == ""
    ensures records == [] ==> r.next == CheckIn
  {
    match LatestRecord(records)
    case None => NextAction(true, CheckIn, "")
    case Some(lastRecord) =>
      match lastRecord.recordType
      case CheckIn => NextAction(true, CheckOut, "")
      case CheckOut => NextAction(true, CheckIn, "")
  }

  /** Two positions both holding the last occurrence of the latest date are
      the same position. */
  lemma LastMaxUnique<T>(s: seq<T>, key: T -> int, j: int, k: int)
    requires IsLastMax(s, key, j) && IsLastMax(s, key, k)
    ensures j == k
  {
    var atJ, atK := key(s[j]), key(s[k]);
    assert atJ <= atK && atK <= atJ;
    assert j < k ==> atK < atJ;
  }

  /** Every non-empty list has a latest record. */
  lemma LatestExists(records: seq<TimeRecord>)
    requires records != []
    ensures exists k :: IsLastMax(records, DateKey, k)
  {
    var k := SortByLast(records, DateKey);
  }

  /** For a non-empty list the proposal is the opposite of the type of the
      latest record (the last one among those sharing the latest date, as
      the stable sort keeps them in list order). */
  lemma NextActionLatest(records: seq<TimeRecord>, k: int)
    requires IsLastMax(records, DateKey, k)
    ensures LatestRecord(records) == Some(records[k])
    ensures ValidateNextAction(records).next == Opposite(records[k].recordType)
  {
    var k' := SortByLast(records, DateKey);
    LastMaxUnique(records, DateKey, k, k');
    var sorted := SortByDate(records);
    assert sorted[|sorted| - 1] == records[k];
    assert LatestRecord(records) == Some(records[k]);
  }

  /** No two records share a timestamp. */
  ghost predicate DistinctDates(records: seq<TimeRecord>)
  {
    forall i, j :: 0 <= i < |records| && 0 <= j < |records| && i != j ==> records[i].date != records[j].date
  }

  /** With distinct timestamps the proposal does not depend on the order in
      which the records are given. */
  lemma NextActionPermutation(a: seq<TimeRecord>, b: seq<TimeRecord>)
    requires multiset(a) == multiset(b)
    requires DistinctDates(a) && DistinctDates(b)
    ensures ValidateNextAction(a) == ValidateNextAction(b)
  {
    if a != [] {
      assert b != [] by {
        assert |b| == |multiset(b)| == |multiset(a)| == |a|;
      }
      LatestExists(a);
      var k :| IsLastMax(a, DateKey, k);
      assert a[k] in multiset(b);
      var j :| 0 <= j < |b| && b[j] == a[k];
      LatestInPermutation(a, b, k, j);
      NextActionLatest(a, k);
      NextActionLatest(b, j);
    } else {
      assert |b| == |multiset(b)| == |multiset(a)| == 0;
    }
  }

  /** The latest record of a list is also the latest of any permutation of
      it, when timestamps are distinct. */
  lemma LatestInPermutation(a: seq<TimeRecord>, b: seq<TimeRecord>, k: int, j: int)
    requires multiset(a) == multiset(b)
    requires DistinctDates(b)
    requires IsLastMax(a, DateKey, k) && 0 <= j < |b| && b[j] == a[k]
    ensures IsLastMax(b, DateKey, j)
  {
    forall i | 0 <= i < |b| ensures b[i].date <= b[j].date {
      assert b[i] in multiset(a);
      var i' :| 0 <= i' < |a| && a[i'] == b[i];
      assert DateKey(a[i']) <= DateKey(a[k]);
    }
  }

  /** Accepts a check-out only when its minute of the day is strictly later
      than the check-in's; seconds and the date itself are ignored. */
  function ValidateCheckOutTime(checkInTime: int, checkOutTime: int): (r: Verdict)
    ensures r.valid <==> MinuteOfDay(checkInTime) < MinuteOfDay(checkOutTime)
    ensures r.message == (if r.valid then "" else ErrorExitAfterEntry)
  {
    var inMinutes := MinuteOfDay(checkInTime);
    var outMinutes := MinuteOfDay(checkOutTime);
    if outMinutes <= inMinutes then Verdict(false, ErrorExitAfterEntry)
    else Verdict(true, "")
  }

  /** On the same day the check accepts exactly the check-outs that fall in
      a later minute than the check-in. */
  lemma CheckOutSameDay(checkInTime: int, checkOutTime: int)
    requires TruncateToDay(checkInTime) == TruncateToDay(checkOutTime)
    ensures ValidateCheckOutTime(checkInTime, checkOutTime).valid <==> ClearSeconds(checkInTime) < ClearSeconds(checkOutTime)
  {
    var day := TruncateToDay(checkInTime);
    var a := MinuteOfDay(checkInTime);
    var b := MinuteOfDay(checkOutTime);
    ClearSecondsMinute(checkInTime);
    ClearSecondsMinute(checkOutTime);
    if a < b {
      assert day + a * MillisPerMinute < day + b * MillisPerMinute;
    } else {
      assert day + b * MillisPerMinute <= day + a * MillisPerMinute;
    }
  }

  /** Clearing the seconds leaves midnight plus the minute of the day. */
  lemma ClearSecondsMinute(d: int)
    ensures ClearSeconds(d) == TruncateToDay(d) + MinuteOfDay(d) * MillisPerMinute
  {
    var m := TruncateToDay(d) + MinuteOfDay(d) * MillisPerMinute;
    assert TruncateToDay(d) % MillisPerMinute == 0;
    assert m % MillisPerMinute == 0;
    ClearSecondsUnique(d, m);
  }

  /** The minute boundary below an instant is unique. */
  lemma ClearSecondsUnique(d: int, m: int)
    requires m % MillisPerMinute == 0 && m <= d < m + MillisPerMinute
    ensures m == ClearSeconds(d)
  {
    var c := ClearSeconds(d);
    assert (m - c) % MillisPerMinute == 0;
    assert -MillisPerMinute < m - c < MillisPerMinute;
  }

  /** An overnight shift is refused: a check-out at 01:00 the day after a
      23:00 check-in falls in an earlier minute of the day. */
  lemma CheckOutOvernightRefused()
    ensures !ValidateCheckOutTime(23 * MillisPerHour, MillisPerDay + MillisPerHour).valid
  {
    assert TruncateToDay(23 * MillisPerHour) == 0 by {
      TruncateToDayUnique(23 * MillisPerHour, 0);
    }
    assert TruncateToDay(MillisPerDay + MillisPerHour) == MillisPerDay by {
      TruncateToDayUnique(MillisPerDay + MillisPerHour, MillisPerDay);
    }
  }
}
