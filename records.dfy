/** The persisted entity of the time-record engine, `TimeRecord`, its
    `RecordType`, the time units the engine counts in, and Kotlin's
    truncating `Long` division. Instants are milliseconds since the epoch,
    as `Date.time` gives them. */
module Records {
  import Seqs

  datatype Option<T> = None | Some(value: T)

  /** A record is either an entry or an exit. */
  datatype RecordType = CheckIn | CheckOut

  /** The action that follows `t` when entries and exits alternate. */
  function Opposite(t: RecordType): (r: RecordType)
    ensures r != t
  {
    match t
    case CheckIn => CheckOut
    case CheckOut => CheckIn
  }

  /** One row of the `time_records` table. `id` 0 asks the database to
      generate the key on insert. */
  datatype TimeRecord = TimeRecord(
    id: int,
    date: int,
    recordType: RecordType,
    note: Option<string>,
    exported: bool)

  const MillisPerMinute: int := 60000
  const MillisPerHour: int := 3600000
  const MillisPerDay: int := 86400000
  const MinutesPerDay: int := 1440

  /** Kotlin's `/` on `Long` by a positive divisor: the quotient truncated
      toward zero. */
  function KDiv(a: int, b: int): int
    requires b > 0
  {
    if a >= 0 then a / b else -((-a) / b)
  }

  /** Kotlin's `%` on `Long`: the remainder takes the sign of the dividend. */
  function KRem(a: int, b: int): int
    requires b > 0
  {
    a - b * KDiv(a, b)
  }

  /** Truncating division by a positive divisor: the quotient and remainder
      recompose the dividend, the remainder is smaller than the divisor in
      size and has the dividend's sign, and on non-negative dividends it is
      the same as Dafny's Euclidean division. */
  lemma KDivRem(a: int, b: int)
    requires b > 0
    ensures KDiv(a, b) * b + KRem(a, b) == a
    ensures -b < KRem(a, b) < b
    ensures a >= 0 ==> 0 <= KRem(a, b) && KDiv(a, b) == a / b && KRem(a, b) == a % b
    ensures a <= 0 ==> KRem(a, b) <= 0 && KDiv(a, b) == -((-a) / b)
  {
  }

  /** The sort key of `sortedBy { it.date }`. */
  function DateKey(r: TimeRecord): int { r.date }

  /** `records.sortedBy { it.date }`: stable, ascending by instant (see
      `SortByDateSorted`). */
  function SortByDate(records: seq<TimeRecord>): (r: seq<TimeRecord>)
    ensures multiset(r) == multiset(records)
  {
    Seqs.SortBy(records, DateKey)
  }

  /** The records come out in ascending order of instant. */
  lemma SortByDateSorted(records: seq<TimeRecord>)
    ensures Seqs.SortedBy(SortByDate(records), DateKey)
  {
    Seqs.SortByIsSorted(records, DateKey);
  }
}
