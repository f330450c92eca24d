// The arithmetic and row handling of the PDF export: a block becomes a row
// of text, new rows are merged into the rows read back from the previous
// document, and both kinds of document end with a total. Rendering,
// reading text out of a PDF and the network are not part of this model.

module PdfManager {
  import opened Records
  import opened Seqs
  import opened Text
  import opened DateTimeUtils
  import opened Blocks

  /** One table row: the date, entry, exit and duration texts, the comment
      and the instant of the entry. */
  datatype RecordInfo = RecordInfo(
    date: string, entryTime: string, exitTime: string, duration: string,
    comment: string, timestamp: int)

  /** The exit text of a block that has no check-out yet. */
  const Pending: string := "Pendiente"

  /** The duration column: whole hours and the remaining minutes, with
      Kotlin's truncating `/` and `%`. */
  function DurationText(minutes: int): (r: string)
    ensures minutes >= 0 ==> FindHoursMinutes(r) == Some((minutes / 60, minutes % 60))
  {
    if minutes >= 0 then
      var hours, rest := minutes / 60, minutes % 60;
      assert KDiv(minutes, 60) == hours && KRem(minutes, 60) == rest;
      HoursMinutesRoundTrip(hours, rest);
      HoursMinutesText(hours, rest)
    else
      HoursMinutesText(KDiv(minutes, 60), KRem(minutes, 60))
  }

  /** `RecordInfo.fromTimeRecordBlock`. The day is rendered by
      `dateFormat` ("dd/MM/yyyy"), times by "HH:mm". */
  function FromTimeRecordBlock(block: TimeRecordBlock, dateFormat: int -> string): (r: RecordInfo)
    ensures r.date == dateFormat(block.date)
    ensures r.exitTime == Pending <==> block.checkOut.None?
    ensures r.entryTime == FormatTime(block.checkIn.date)
    ensures block.checkOut.Some? ==> r.exitTime == FormatTime(block.checkOut.value.date)
    ensures r.timestamp == block.checkIn.date
    ensures block.checkIn.note.Some? ==> r.comment == block.checkIn.note.value
    ensures block.checkIn.note.None? && block.checkOut.Some? && block.checkOut.value.note.Some? ==>
      r.comment == block.checkOut.value.note.value
    ensures block.checkIn.note.None? && (block.checkOut.None? || block.checkOut.value.note.None?) ==>
      r.comment == ""
  {
    RecordInfo(
      dateFormat(block.date),
      FormatTime(block.checkIn.date),
      if block.checkOut.Some? then FormatTime(block.checkOut.value.date) else Pending,
      DurationText(block.duration),
      if block.checkIn.note.Some? then block.checkIn.note.value
      else if block.checkOut.Some? && block.checkOut.value.note.Some? then block.checkOut.value.note.value
      else "",
      block.checkIn.date)
  }

  /** Two digits, a colon and two digits. */
  predicate IsClock(s: string)
  {
    |s| == 5 && s[2] == ':' && AllDigits(s[..2]) && AllDigits(s[3..])
  }

  /** The minute of the day an "HH:mm" text reads back as. */
  function ClockMinute(s: string): int
    requires IsClock(s)
  {
    ParseDigits(s[..2]) * 60 + ParseDigits(s[3..])
  }

  /** A row reads back as its block: the entry's minute of the day, the
      exit's minute for a closed block and "Pendiente" for an open one, and
      the instant that orders the rows. */
  lemma RowReadsBack(block: TimeRecordBlock, dateFormat: int -> string)
    ensures var row := FromTimeRecordBlock(block, dateFormat);
            IsClock(row.entryTime) && ClockMinute(row.entryTime) == MinuteOfDay(block.checkIn.date)
            && row.timestamp == block.checkIn.date
            && (block.checkOut.Some? ==>
                  IsClock(row.exitTime) && ClockMinute(row.exitTime) == MinuteOfDay(block.checkOut.value.date))
            && (block.checkOut.None? ==> row.exitTime == Pending)
  {
  }

  /** The rows of a list of blocks, in order. */
  function RowsOf(blocks: seq<TimeRecordBlock>, dateFormat: int -> string): (r: seq<RecordInfo>)
    ensures |r| == |blocks|
    ensures forall i :: 0 <= i < |blocks| ==> r[i] == FromTimeRecordBlock(blocks[i], dateFormat)
  {
    if blocks == [] then []
    else [FromTimeRecordBlock(blocks[0], dateFormat)] + RowsOf(blocks[1..], dateFormat)
  }

  // ---------------------------------------------------------------------
  // Merging into an existing document

  /** Two rows describe the same entry when their date and entry time texts
      agree. */
  predicate SameEntry(a: RecordInfo, b: RecordInfo)
  {
    a.date == b.date && a.entryTime == b.entryTime
  }

  /** `existingRecords.any { ... }`: the document already has this entry. */
  predicate AlreadyListed(existing: seq<RecordInfo>, row: RecordInfo)
  {
    exists i :: 0 <= i < |existing| && SameEntry(existing[i], row)
  }

  /** The new rows whose entry the document does not list yet. */
  function UniqueNew(existing: seq<RecordInfo>, newRows: seq<RecordInfo>): seq<RecordInfo>
  {
    Filter(newRows, (row: RecordInfo) => !AlreadyListed(existing, row))
  }

  /** A new row is kept exactly when no existing row has its date and entry
      time. */
  lemma UniqueNewExact(existing: seq<RecordInfo>, newRows: seq<RecordInfo>, i: int)
    requires 0 <= i < |newRows|
    ensures newRows[i] in UniqueNew(existing, newRows) <==> !AlreadyListed(existing, newRows[i])
  {
  }

  /** What `createPDFWithCombinedRecords` produces: the existing document
      unchanged, or a new one with these rows. */
  datatype Combined = KeepExisting | Rebuilt(rows: seq<RecordInfo>)

  function Timestamp(row: RecordInfo): int { row.timestamp }

  /** The merge: nothing new keeps the old document; otherwise the old rows
      and the new ones, ordered by entry instant. */
  function CombineRecords(existing: seq<RecordInfo>, newRows: seq<RecordInfo>): (r: Combined)
    ensures r.KeepExisting? <==> forall i :: 0 <= i < |newRows| ==> AlreadyListed(existing, newRows[i])
    ensures r.Rebuilt? ==> multiset(r.rows) == multiset(existing) + multiset(UniqueNew(existing, newRows))
  {
    var unique := UniqueNew(existing, newRows);
    if unique == [] then
      assert forall i :: 0 <= i < |newRows| ==> AlreadyListed(existing, newRows[i]) by {
        forall i | 0 <= i < |newRows| ensures AlreadyListed(existing, newRows[i]) {
          UniqueNewExact(existing, newRows, i);
        }
      }
      KeepExisting
    else
      assert unique[0] in unique;
      Rebuilt(SortBy(existing + unique, Timestamp))
  }

  /** A rebuilt document lists its rows by entry instant. */
  lemma CombineRecordsSorted(existing: seq<RecordInfo>, newRows: seq<RecordInfo>)
    requires CombineRecords(existing, newRows).Rebuilt?
    ensures SortedBy(CombineRecords(existing, newRows).rows, Timestamp)
  {
    SortByIsSorted(existing + UniqueNew(existing, newRows), Timestamp);
  }

  // ---------------------------------------------------------------------
  // Totals

  /** Hours read from a row's duration text, for a closed row. */
  function RowHours(row: RecordInfo): int
  {
    if row.exitTime == Pending then 0
    else match FindHoursMinutes(row.duration)
      case None => 0
      case Some(hm) => hm.0
  }

  /** Minutes read from a row's duration text, for a closed row. */
  function RowMinutes(row: RecordInfo): int
  {
    if row.exitTime == Pending then 0
    else match FindHoursMinutes(row.duration)
      case None => 0
      case Some(hm) => hm.1
  }

  /** The total of `createPDFWithAllRecords`: hours and minutes of the
      closed rows added separately, then whole hours carried out of the
      minutes. */
  method CombinedTotal(records: seq<RecordInfo>) returns (totalHours: int, totalMinutes: int)
    ensures totalHours * 60 + totalMinutes == SumBy(records, RowHours) * 60 + SumBy(records, RowMinutes)
    ensures 0 <= totalMinutes < 60
  {
    totalHours := 0;
    totalMinutes := 0;
    var i := 0;
    while i < |records|
      invariant 0 <= i <= |records|
      invariant totalHours == SumBy(records[..i], RowHours)
      invariant totalMinutes == SumBy(records[..i], RowMinutes)
    {
      var record := records[i];
      ghost var hoursBefore, minutesBefore := totalHours, totalMinutes;
      if record.exitTime != Pending {
        var found := FindHoursMinutes(record.duration);
        if found.Some? {
          var (hours, minutes) := found.value;
          totalHours := totalHours + hours;
          totalMinutes := totalMinutes + minutes;
        }
      }
      assert totalHours == hoursBefore + RowHours(record) && totalMinutes == minutesBefore + RowMinutes(record);
      SumByPrefix(records, i, RowHours);
      SumByPrefix(records, i, RowMinutes);
      i := i + 1;
    }
    assert records[..i] == records;
    SumByNonNegative(records, RowMinutes);
    totalHours := totalHours + totalMinutes / 60;
    totalMinutes := totalMinutes % 60;
  }

  /** Extending a prefix by one element adds that element's value. */
  lemma SumByPrefix(records: seq<RecordInfo>, i: nat, f: RecordInfo -> int)
    requires i < |records|
    ensures SumBy(records[..i + 1], f) == SumBy(records[..i], f) + f(records[i])
  {
    assert records[..i + 1] == records[..i] + [records[i]];
    SumByConcat(records[..i], [records[i]], f);
  }

  /** A sum of values that are never negative is not negative. */
  lemma {:induction false} SumByNonNegative(records: seq<RecordInfo>, f: RecordInfo -> int)
    requires forall r :: f(r) >= 0
    ensures SumBy(records, f) >= 0
  {
    if records != [] {
      SumByNonNegative(records[1..], f);
    }
  }

  /** The check-in instant, the order of `createPDFInMemory`. */
  function CheckInTime(b: TimeRecordBlock): int { b.checkIn.date }

  function Duration(b: TimeRecordBlock): int { b.duration }

  /** The total of `createPDFInMemory`: the sum of the durations of the
      blocks, ordered by check-in, split into hours and minutes. */
  function FreshTotal(blocks: seq<TimeRecordBlock>): (r: (int, int))
    ensures r.0 * 60 + r.1 == SumBy(blocks, Duration)
    ensures SumBy(blocks, Duration) >= 0 ==> 0 <= r.1 < 60
  {
    var sortedBlocks := SortBy(blocks, CheckInTime);
    var totalMinutes := SumBy(sortedBlocks, Duration);
    SumByPermutation(sortedBlocks, blocks, Duration);
    KDivRem(totalMinutes, 60);
    (KDiv(totalMinutes, 60), KRem(totalMinutes, 60))
  }

  /** A closed row reads back its block's duration, an open row counts 0. */
  lemma RowTotalOfBlock(block: TimeRecordBlock, dateFormat: int -> string)
    requires block.duration >= 0
    requires block.checkOut.None? ==> block.duration == 0
    ensures var row := FromTimeRecordBlock(block, dateFormat);
      RowHours(row) * 60 + RowMinutes(row) == block.duration
  {
    var row := FromTimeRecordBlock(block, dateFormat);
    if block.checkOut.Some? {
      var h, m := block.duration / 60, block.duration % 60;
      assert row.exitTime != Pending;
      assert row.duration == HoursMinutesText(h, m);
      HoursMinutesRoundTrip(h, m);
      assert RowHours(row) == h && RowMinutes(row) == m;
    } else {
      assert row.exitTime == Pending;
    }
  }

  /** For blocks whose durations are never negative and open blocks count
      0, the total read back from the rows equals the sum of the durations:
      re-reading the duration texts loses nothing. */
  lemma {:induction false} RowsTotal(blocks: seq<TimeRecordBlock>, dateFormat: int -> string)
    requires forall b :: b in blocks ==> b.duration >= 0 && (b.checkOut.None? ==> b.duration == 0)
    ensures var rows := RowsOf(blocks, dateFormat);
      SumBy(rows, RowHours) * 60 + SumBy(rows, RowMinutes) == SumBy(blocks, Duration)
  {
    if blocks != [] {
      RowTotalOfBlock(blocks[0], dateFormat);
      RowsTotal(blocks[1..], dateFormat);
      assert RowsOf(blocks, dateFormat)[1..] == RowsOf(blocks[1..], dateFormat);
    }
  }

  /** The blocks of `createBlocks` satisfy `RowsTotal`'s conditions, so a
      document built fresh from them and one built by merging them into an
      empty document show the same total. */
  lemma FreshAndCombinedAgree(records: seq<TimeRecord>, dateFormat: int -> string)
    ensures var blocks := AllBlocks(records);
      SumBy(RowsOf(blocks, dateFormat), RowHours) * 60 + SumBy(RowsOf(blocks, dateFormat), RowMinutes) ==
      FreshTotal(blocks).0 * 60 + FreshTotal(blocks).1
  {
    var blocks := AllBlocks(records);
    AllBlocksShape(records);
    RowsTotal(blocks, dateFormat);
  }
}
