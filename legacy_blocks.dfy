/** The original block builder of the history screen,
    `ui/history/model/TimeRecordBlock.kt`. It walks the records sorted by
    instant once. An entry takes the record right after it as its exit, but
    only when that record is an exit. An exit that does not follow an entry
    is skipped. Durations are not clamped. */
module LegacyBlocks {
  import opened Records
  import opened Seqs

  /** A legacy block: `date` is the full instant of the entry. */
  datatype LegacyBlock = LegacyBlock(
    date: int,
    checkIn: TimeRecord,
    checkOut: Option<TimeRecord>,
    duration: int)

  /** `calculateDuration`: the minutes from entry to exit truncated toward
      zero, with no clamp (an exit before its entry gives a negative or zero
      count), and 0 without an exit. */
  function LegacyDuration(checkIn: TimeRecord, checkOut: Option<TimeRecord>): (r: int)
    ensures checkOut.None? ==> r == 0
    ensures checkOut.Some? && checkOut.value.date >= checkIn.date ==>
              0 <= r && r * MillisPerMinute <= checkOut.value.date - checkIn.date < (r + 1) * MillisPerMinute
    ensures checkOut.Some? && checkOut.value.date <= checkIn.date ==>
              r <= 0 && (r - 1) * MillisPerMinute < checkOut.value.date - checkIn.date <= r * MillisPerMinute
  {
    match checkOut
    case None => 0
    case Some(out) =>
      KDivRem(out.date - checkIn.date, MillisPerMinute);
      KDiv(out.date - checkIn.date, MillisPerMinute)
  }

  /** The data-class constructor: the block is dated at the entry's instant
      and its `duration` defaults to `calculateDuration`. */
  function NewBlock(checkIn: TimeRecord, checkOut: Option<TimeRecord>): (r: LegacyBlock)
    ensures r.date == checkIn.date && r.checkIn == checkIn && r.checkOut == checkOut
    ensures checkOut.None? ==> r.duration == 0
    ensures checkOut.Some? && checkOut.value.date >= checkIn.date ==>
              0 <= r.duration && r.duration * MillisPerMinute <= checkOut.value.date - checkIn.date < (r.duration + 1) * MillisPerMinute
  {
    LegacyBlock(checkIn.date, checkIn, checkOut, LegacyDuration(checkIn, checkOut))
  }

  /** The walk of `createBlocks` from index `i` of the sorted records. */
  function PairsFrom(rs: seq<TimeRecord>, i: nat): seq<LegacyBlock>
    decreases |rs| - i
  {
    if i >= |rs| then []
    else if rs[i].recordType == CheckOut then PairsFrom(rs, i + 1)
    else if i + 1 < |rs| && rs[i + 1].recordType == CheckOut then
      [NewBlock(rs[i], Some(rs[i + 1]))] + PairsFrom(rs, i + 2)
    else [NewBlock(rs[i], None)] + PairsFrom(rs, i + 1)
  }

  /** The blocks `createBlocks` returns for `records`. */
  function LegacyBlocksOf(records: seq<TimeRecord>): seq<LegacyBlock>
  {
    PairsFrom(SortByDate(records), 0)
  }

  /** `createBlocks`: sort, then walk with an index that jumps past the exit
      of each pair it forms. */
  method CreateBlocks(records: seq<TimeRecord>) returns (blocks: seq<LegacyBlock>)
    ensures blocks == LegacyBlocksOf(records)
  {
    var sortedRecords := SortByDate(records);
    blocks := [];
    var i: nat := 0;
    while i < |sortedRecords|
      invariant i <= |sortedRecords|
      invariant blocks + PairsFrom(sortedRecords, i) == PairsFrom(sortedRecords, 0)
      decreases |sortedRecords| - i
    {
      var current := sortedRecords[i];
      if current.recordType == CheckIn {
        var checkOut := if i + 1 < |sortedRecords| && sortedRecords[i + 1].recordType == CheckOut
                        then Some(sortedRecords[i + 1]) else None;
        var block := NewBlock(current, checkOut);
        var next: nat := if checkOut.Some? then i + 2 else i + 1;
        assert PairsFrom(sortedRecords, i) == [block] + PairsFrom(sortedRecords, next);
        AppendAssoc(blocks, [block], PairsFrom(sortedRecords, next));
        blocks := blocks + [block];
        i := next;
      } else {
        i := i + 1;
      }
    }
  }

  // ---------------------------------------------------------------------
  // A reference definition: one block per entry, built from that entry and
  // the record right after it

  /** The block an entry at index `j` gets: the next record is its exit
      exactly when it exists and is an exit. */
  function BlockAt(rs: seq<TimeRecord>, j: nat): LegacyBlock
    requires j < |rs|
  {
    NewBlock(rs[j], if j + 1 < |rs| && rs[j + 1].recordType == CheckOut then Some(rs[j + 1]) else None)
  }

  /** The indices of the entries from index `i` on, in increasing order. */
  function CheckInIndices(rs: seq<TimeRecord>, i: nat): (r: seq<nat>)
    ensures forall k :: 0 <= k < |r| ==> i <= r[k] < |rs| && rs[r[k]].recordType == CheckIn
    ensures forall k, l :: 0 <= k < l < |r| ==> r[k] < r[l]
    ensures forall j :: i <= j < |rs| && rs[j].recordType == CheckIn ==> j in r
    decreases |rs| - i
  {
    if i >= |rs| then []
    else if rs[i].recordType == CheckIn then [i] + CheckInIndices(rs, i + 1)
    else CheckInIndices(rs, i + 1)
  }

  /** The blocks of a list of entry indices, in order. */
  function BlocksAt(rs: seq<TimeRecord>, idx: seq<nat>): (r: seq<LegacyBlock>)
    requires forall k :: 0 <= k < |idx| ==> idx[k] < |rs|
    ensures |r| == |idx|
    ensures forall k :: 0 <= k < |idx| ==> r[k] == BlockAt(rs, idx[k])
  {
    seq(|idx|, k requires 0 <= k < |idx| => BlockAt(rs, idx[k]))
  }

  /** The walk makes exactly one block per entry, in order of position: the
      entry's own block, paired with the next record only when that is an
      exit. An exit never starts a block, and no entry is skipped. */
  lemma {:induction false} PairsFromEntries(rs: seq<TimeRecord>, i: nat)
    ensures PairsFrom(rs, i) == BlocksAt(rs, CheckInIndices(rs, i))
    decreases |rs| - i
  {
    if i < |rs| {
      if rs[i].recordType == CheckOut {
        PairsFromEntries(rs, i + 1);
      } else {
        var next := if i + 1 < |rs| && rs[i + 1].recordType == CheckOut then i + 2 else i + 1;
        PairsFromEntries(rs, next);
        if next == i + 2 {
          assert CheckInIndices(rs, i + 1) == CheckInIndices(rs, i + 2);
        }
        BlocksAtCons(rs, i, CheckInIndices(rs, next));
      }
    }
  }

  /** The blocks of `[j] + rest` are the block of `j` followed by those of
      `rest`. */
  lemma BlocksAtCons(rs: seq<TimeRecord>, j: nat, rest: seq<nat>)
    requires j < |rs| && forall k :: 0 <= k < |rest| ==> rest[k] < |rs|
    ensures BlocksAt(rs, [j] + rest) == [BlockAt(rs, j)] + BlocksAt(rs, rest)
  {
    var idx := [j] + rest;
    var left := BlocksAt(rs, idx);
    var right := [BlockAt(rs, j)] + BlocksAt(rs, rest);
    forall k | 0 <= k < |idx|
      ensures left[k] == right[k]
    {
      if k > 0 {
        assert idx[k] == rest[k - 1];
      }
    }
  }

  predicate IsCheckIn(r: TimeRecord) { r.recordType == CheckIn }

  /** There are as many entry indices as entries. */
  lemma {:induction false} CheckInIndicesCount(rs: seq<TimeRecord>, i: nat)
    requires i <= |rs|
    ensures |CheckInIndices(rs, i)| == |Filter(rs[i..], IsCheckIn)|
    decreases |rs| - i
  {
    if i < |rs| {
      assert rs[i..][0] == rs[i] && rs[i..][1..] == rs[i + 1..];
      CheckInIndicesCount(rs, i + 1);
    }
  }

  /** `createBlocks` makes one block per entry record, and each entry (counted
      with its multiplicity) is the `checkIn` of exactly one block: block `k`
      is the block of the `k`-th entry of the sorted records. Orphan exits
      give no block. */
  lemma LegacyBlocksPerEntry(records: seq<TimeRecord>)
    ensures var rs := SortByDate(records);
            var idx := CheckInIndices(rs, 0);
            LegacyBlocksOf(records) == BlocksAt(rs, idx)
            && |LegacyBlocksOf(records)| == |Filter(records, IsCheckIn)|
            && multiset(Filter(records, IsCheckIn)) == multiset(EntriesOf(rs, idx))
  {
    var rs := SortByDate(records);
    var idx := CheckInIndices(rs, 0);
    PairsFromEntries(rs, 0);
    assert rs[0..] == rs;
    CheckInIndicesCount(rs, 0);
    EntriesAt(rs, 0);
    FilterPermutation(rs, records, IsCheckIn);
  }

  /** Filtering two permutations of each other gives permutations of each
      other. */
  lemma FilterPermutation<T>(a: seq<T>, b: seq<T>, p: T -> bool)
    requires multiset(a) == multiset(b)
    ensures multiset(Filter(a, p)) == multiset(Filter(b, p))
    ensures |Filter(a, p)| == |Filter(b, p)|
  {
    FilterMultiset(a, p);
    FilterMultiset(b, p);
    assert multiset(Filter(a, p)) == multiset(Filter(b, p));
    assert |multiset(Filter(a, p))| == |Filter(a, p)|;
    assert |multiset(Filter(b, p))| == |Filter(b, p)|;
  }

  /** Reading the records at the entry indices gives the entries in order. */
  lemma {:induction false} EntriesAt(rs: seq<TimeRecord>, i: nat)
    requires i <= |rs|
    ensures EntriesOf(rs, CheckInIndices(rs, i)) == Filter(rs[i..], IsCheckIn)
    decreases |rs| - i
  {
    if i < |rs| {
      assert rs[i..][0] == rs[i] && rs[i..][1..] == rs[i + 1..];
      EntriesAt(rs, i + 1);
      if rs[i].recordType == CheckIn {
        assert Filter(rs[i..], IsCheckIn) == [rs[i]] + Filter(rs[i + 1..], IsCheckIn);
        EntriesOfCons(rs, i, CheckInIndices(rs, i + 1));
      } else {
        assert Filter(rs[i..], IsCheckIn) == Filter(rs[i + 1..], IsCheckIn);
      }
    }
  }

  /** The records at `[j] + rest` are `rs[j]` followed by those at `rest`. */
  lemma EntriesOfCons(rs: seq<TimeRecord>, j: nat, rest: seq<nat>)
    requires j < |rs| && forall k :: 0 <= k < |rest| ==> rest[k] < |rs|
    ensures EntriesOf(rs, [j] + rest) == [rs[j]] + EntriesOf(rs, rest)
  {
    var idx := [j] + rest;
    var left := EntriesOf(rs, idx);
    var right := [rs[j]] + EntriesOf(rs, rest);
    forall k | 0 <= k < |idx|
      ensures left[k] == right[k]
    {
      if k > 0 {
        assert idx[k] == rest[k - 1];
      }
    }
  }

  /** The records at a list of indices. */
  function EntriesOf(rs: seq<TimeRecord>, idx: seq<nat>): (r: seq<TimeRecord>)
    requires forall k :: 0 <= k < |idx| ==> idx[k] < |rs|
    ensures |r| == |idx|
    ensures forall k :: 0 <= k < |idx| ==> r[k] == rs[idx[k]]
  {
    seq(|idx|, k requires 0 <= k < |idx| => rs[idx[k]])
  }

  /** Filtering keeps every element that passes, as often as it occurs. */
  lemma {:induction false} FilterMultiset<T>(s: seq<T>, p: T -> bool)
    ensures forall x :: multiset(Filter(s, p))[x] == if p(x) then multiset(s)[x] else 0
  {
    if s != [] {
      assert s == [s[0]] + s[1..];
      FilterMultiset(s[1..], p);
    }
  }

  /** On records sorted by instant, every duration is at least 0 and the
      blocks come out in ascending order of entry, each dated at its entry. */
  lemma LegacyBlocksOrdered(records: seq<TimeRecord>)
    ensures var blocks := LegacyBlocksOf(records);
            (forall k :: 0 <= k < |blocks| ==>
               blocks[k].duration >= 0 && blocks[k].date == blocks[k].checkIn.date
               && blocks[k].checkIn.recordType == CheckIn)
            && (forall k, l :: 0 <= k < l < |blocks| ==> blocks[k].checkIn.date <= blocks[l].checkIn.date)
  {
    var rs := SortByDate(records);
    var idx := CheckInIndices(rs, 0);
    SortByDateSorted(records);
    PairsFromEntries(rs, 0);
    var blocks := LegacyBlocksOf(records);
    forall k | 0 <= k < |blocks|
      ensures blocks[k].duration >= 0
    {
      var j := idx[k];
      if j + 1 < |rs| {
        assert DateKey(rs[j]) <= DateKey(rs[j + 1]);
      }
    }
    forall k, l | 0 <= k < l < |blocks|
      ensures blocks[k].checkIn.date <= blocks[l].checkIn.date
    {
      assert DateKey(rs[idx[k]]) <= DateKey(rs[idx[l]]);
    }
  }
}
