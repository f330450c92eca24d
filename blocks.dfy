/** The block reconciler of `core/data/model/TimeRecordBlock.kt`: records are
    sorted, grouped by day, and within each day every entry is paired with
    the first later exit. Orphan exits and entries without an exit become
    blocks of their own. */
module Blocks {
  import opened Records
  import opened Seqs
  import opened DateTimeUtils

  /** A derived work interval. `checkIn` is an orphan exit itself when the
      block has no entry. */
  datatype TimeRecordBlock = TimeRecordBlock(
    date: int,
    checkIn: TimeRecord,
    checkOut: Option<TimeRecord>,
    duration: int)

  /** `calculateDuration`: whole minutes from entry to exit, never negative,
      and 0 without an exit. */
  function CalculateDuration(checkIn: TimeRecord, checkOut: Option<TimeRecord>): (r: int)
    ensures r >= 0
    ensures checkOut.None? ==> r == 0
  {
    match checkOut
    case None => 0
    case Some(out) =>
      var minutes := KDiv(out.date - checkIn.date, MillisPerMinute);
      if minutes > 0 then minutes else 0
  }

  /** The duration counts the whole minutes elapsed from entry to exit, and
      an exit before the entry (or less than a minute after it) counts 0. */
  lemma DurationWholeMinutes(checkIn: TimeRecord, out: TimeRecord)
    ensures var r := CalculateDuration(checkIn, Some(out));
            (out.date >= checkIn.date ==>
               r * MillisPerMinute <= out.date - checkIn.date < (r + 1) * MillisPerMinute)
            && (out.date < checkIn.date + MillisPerMinute ==> r == 0)
  {
    KDivRem(out.date - checkIn.date, MillisPerMinute);
  }

  /** The data-class constructor, whose `duration` defaults to
      `calculateDuration(checkIn, checkOut)`. */
  function MakeBlock(date: int, checkIn: TimeRecord, checkOut: Option<TimeRecord>): TimeRecordBlock
  {
    TimeRecordBlock(date, checkIn, checkOut, CalculateDuration(checkIn, checkOut))
  }

  /** `findNextCheckOut`: the index of the first exit at or after `start`, or
      -1 when there is none. */
  function NextCheckOut(rs: seq<TimeRecord>, start: nat): (r: int)
    ensures r == -1 <==> forall k :: start <= k < |rs| ==> rs[k].recordType != CheckOut
    ensures r != -1 ==> start <= r < |rs| && rs[r].recordType == CheckOut
    ensures r != -1 ==> forall k :: start <= k < r ==> rs[k].recordType == CheckIn
    decreases |rs| - start
  {
    if start >= |rs| then -1
    else if rs[start].recordType == CheckOut then start
    else NextCheckOut(rs, start + 1)
  }

  /** The loop of `findNextCheckOut`. */
  method FindNextCheckOut(rs: seq<TimeRecord>, start: nat) returns (r: int)
    ensures r == NextCheckOut(rs, start)
    ensures r == -1 <==> forall k :: start <= k < |rs| ==> rs[k].recordType != CheckOut
    ensures r != -1 ==> start <= r < |rs| && rs[r].recordType == CheckOut
                        && forall k :: start <= k < r ==> rs[k].recordType == CheckIn
  {
    var i := start;
    while i < |rs|
      invariant start <= i
      invariant forall k :: start <= k < i && k < |rs| ==> rs[k].recordType == CheckIn
      invariant NextCheckOut(rs, i) == NextCheckOut(rs, start)
      decreases |rs| - i
    {
      if rs[i].recordType == CheckOut {
        return i;
      }
      i := i + 1;
    }
    return -1;
  }

  /** One iteration of the day walk: the index of the record the block is
      built from and, for an entry that found one, the index of its exit. */
  datatype Step = Step(first: nat, second: Option<nat>)

  /** The last index a step consumes. */
  function End(st: Step): nat
  {
    match st.second
    case None => st.first
    case Some(j) => j
  }

  /** The walk of `createBlocksForDay` (and of `calculateDayMinutes`, which
      pairs the same way) from index `i` of a day's sorted records. */
  function Steps(rs: seq<TimeRecord>, i: nat): (r: seq<Step>)
    ensures forall st :: st in r ==> i <= st.first <= End(st) < |rs|
    ensures forall st :: st in r ==> st.second.Some? ==> st.first < st.second.value
    decreases |rs| - i
  {
    if i >= |rs| then []
    else if rs[i].recordType == CheckIn then
      var j := NextCheckOut(rs, i + 1);
      if j == -1 then [Step(i, None)] + Steps(rs, i + 1)
      else [Step(i, Some(j))] + Steps(rs, j + 1)
    else [Step(i, None)] + Steps(rs, i + 1)
  }

  /** The block a step produces for `day`. */
  function BlockOf(day: int, rs: seq<TimeRecord>, st: Step): TimeRecordBlock
    requires st.first <= End(st) < |rs|
  {
    MakeBlock(day, rs[st.first], if st.second.Some? then Some(rs[st.second.value]) else None)
  }

  /** The blocks of a list of steps, in order. */
  function BlocksFor(day: int, rs: seq<TimeRecord>, steps: seq<Step>): (r: seq<TimeRecordBlock>)
    requires forall st :: st in steps ==> st.first <= End(st) < |rs|
    ensures |r| == |steps|
  {
    if steps == [] then [] else [BlockOf(day, rs, steps[0])] + BlocksFor(day, rs, steps[1..])
  }

  /** The `k`-th block is the block of the `k`-th step. */
  lemma {:induction false} BlocksForAt(day: int, rs: seq<TimeRecord>, steps: seq<Step>, k: nat)
    requires forall st :: st in steps ==> st.first <= End(st) < |rs|
    requires k < |steps|
    ensures BlocksFor(day, rs, steps)[k] == BlockOf(day, rs, steps[k])
    decreases k
  {
    if k > 0 {
      assert steps[1..][k - 1] == steps[k];
      BlocksForAt(day, rs, steps[1..], k - 1);
    }
  }

  /** The blocks of one day, from its records already sorted by instant. */
  function DayBlocks(day: int, rs: seq<TimeRecord>): seq<TimeRecordBlock>
  {
    BlocksFor(day, rs, Steps(rs, 0))
  }

  /** `createBlocksForDay`: sorts the day's records and walks them with an
      index that jumps past each exit it pairs. */
  method CreateBlocksForDay(day: int, dayRecords: seq<TimeRecord>) returns (blocks: seq<TimeRecordBlock>)
    ensures blocks == DayBlocks(day, SortByDate(dayRecords))
  {
    var sorted := SortByDate(dayRecords);
    blocks := [];
    var i: nat := 0;
    while i < |sorted|
      invariant 0 <= i <= |sorted|
      invariant blocks + BlocksFor(day, sorted, Steps(sorted, i)) == DayBlocks(day, sorted)
      decreases |sorted| - i
    {
      var current := sorted[i];
      ghost var before := i;
      ghost var done := blocks;
      StepsUnfold(sorted, i);
      match current.recordType {
        case CheckIn =>
          var checkOutIndex := FindNextCheckOut(sorted, i + 1);
          var checkOut := if checkOutIndex != -1 then Some(sorted[checkOutIndex]) else None;
          blocks := blocks + [MakeBlock(day, current, checkOut)];
          i := if checkOutIndex != -1 then checkOutIndex + 1 else i + 1;
        case CheckOut =>
          blocks := blocks + [MakeBlock(day, current, None)];
          i := i + 1;
      }
      WalkStep(day, sorted, before, done, blocks, i);
    }
  }

  /** One iteration of the walk appends the block of the first step and
      resumes after it, keeping the blocks built so far followed by the
      blocks of the rest of the walk equal to the day's blocks. */
  lemma WalkStep(day: int, rs: seq<TimeRecord>, i: nat, done: seq<TimeRecordBlock>,
                 blocks: seq<TimeRecordBlock>, next: nat)
    requires i < |rs|
    requires done + BlocksFor(day, rs, Steps(rs, i)) == DayBlocks(day, rs)
    requires Steps(rs, i) != [] && blocks == done + [BlockOf(day, rs, Steps(rs, i)[0])]
    requires next == End(Steps(rs, i)[0]) + 1
    ensures blocks + BlocksFor(day, rs, Steps(rs, next)) == DayBlocks(day, rs)
  {
    StepsUnfold(rs, i);
    var step := Steps(rs, i)[0];
    var rest := BlocksFor(day, rs, Steps(rs, next));
    assert BlocksFor(day, rs, Steps(rs, i)) == [BlockOf(day, rs, step)] + rest;
    AppendAssoc(done, [BlockOf(day, rs, step)], rest);
  }

  /** One iteration of the walk: the first step is built from record `i`,
      paired with the next exit when that record is an entry that has one,
      and the walk resumes after the step's last index. */
  lemma StepsUnfold(rs: seq<TimeRecord>, i: nat)
    requires i < |rs|
    ensures Steps(rs, i) != []
    ensures Steps(rs, i)[0].first == i
    ensures Steps(rs, i)[0].second ==
              (if rs[i].recordType == CheckIn && NextCheckOut(rs, i + 1) != -1
               then Some(NextCheckOut(rs, i + 1) as nat) else None)
    ensures Steps(rs, i)[1..] == Steps(rs, End(Steps(rs, i)[0]) + 1)
  {
  }

  /** Every step of the walk pairs an entry with the FIRST later exit, skipping
      only entries; an entry left without a step partner has no exit after it;
      an exit reached by the walk stands alone. */
  lemma StepsPairing(rs: seq<TimeRecord>, i: nat)
    ensures forall st :: st in Steps(rs, i) && st.second.Some? ==>
              rs[st.first].recordType == CheckIn && rs[st.second.value].recordType == CheckOut
              && forall m :: st.first < m < st.second.value ==> rs[m].recordType == CheckIn
    ensures forall st :: st in Steps(rs, i) && st.second.None? && rs[st.first].recordType == CheckIn ==>
              forall m :: st.first < m < |rs| ==> rs[m].recordType == CheckIn
    ensures forall st :: st in Steps(rs, i) && rs[st.first].recordType == CheckOut ==> st.second.None?
  {
    PairedSteps(rs, i);
    OpenSteps(rs, i);
    LoneExits(rs, i);
  }

  /** A step with two records pairs an entry with the first exit after it. */
  lemma {:induction false} PairedSteps(rs: seq<TimeRecord>, i: nat)
    ensures forall st :: st in Steps(rs, i) && st.second.Some? ==>
              rs[st.first].recordType == CheckIn && rs[st.second.value].recordType == CheckOut
              && forall m :: st.first < m < st.second.value ==> rs[m].recordType == CheckIn
    decreases |rs| - i
  {
    if i < |rs| {
      StepsUnfold(rs, i);
      var steps := Steps(rs, i);
      var next := End(steps[0]) + 1;
      assert steps == [steps[0]] + Steps(rs, next);
      PairedSteps(rs, next);
    }
  }

  /** An entry left alone has no exit anywhere after it. */
  lemma {:induction false} OpenSteps(rs: seq<TimeRecord>, i: nat)
    ensures forall st :: st in Steps(rs, i) && st.second.None? && rs[st.first].recordType == CheckIn ==>
              forall m :: st.first < m < |rs| ==> rs[m].recordType == CheckIn
    decreases |rs| - i
  {
    if i < |rs| {
      StepsUnfold(rs, i);
      var steps := Steps(rs, i);
      var next := End(steps[0]) + 1;
      assert steps == [steps[0]] + Steps(rs, next);
      OpenSteps(rs, next);
    }
  }

  /** An exit the walk reaches stands alone. */
  lemma {:induction false} LoneExits(rs: seq<TimeRecord>, i: nat)
    ensures forall st :: st in Steps(rs, i) && rs[st.first].recordType == CheckOut ==> st.second.None?
    decreases |rs| - i
  {
    if i < |rs| {
      StepsUnfold(rs, i);
      var steps := Steps(rs, i);
      var next := End(steps[0]) + 1;
      assert steps == [steps[0]] + Steps(rs, next);
      LoneExits(rs, next);
    }
  }

  /** Each step starts after the last index of every earlier step. */
  ghost predicate Ordered(steps: seq<Step>)
  {
    forall a, b :: 0 <= a < b < |steps| ==> End(steps[a]) < steps[b].first
  }

  /** The index strictly increases along the walk: every step starts after
      the last index of every earlier step, so no record is in two blocks. */
  lemma {:induction false} StepsDisjoint(rs: seq<TimeRecord>, i: nat)
    ensures Ordered(Steps(rs, i))
    decreases |rs| - i
  {
    if i < |rs| {
      var steps := Steps(rs, i);
      var next := End(steps[0]) + 1;
      var rest := Steps(rs, next);
      assert steps == [steps[0]] + rest;
      StepsDisjoint(rs, next);
      forall a, b | 0 <= a < b < |steps| ensures End(steps[a]) < steps[b].first {
        assert steps[b] == rest[b - 1];
        assert rest[b - 1] in rest;
        if a > 0 {
          assert steps[a] == rest[a - 1];
        }
      }
    }
  }

  /** Index `m` is the record of a step, its exit, or an entry skipped between
      the two. */
  ghost predicate Covered(steps: seq<Step>, m: int)
  {
    exists st :: st in steps && st.first <= m <= End(st)
  }

  /** The walk misses nothing: every index from `i` on is the record of some
      step, or its exit, or an entry skipped between a step's entry and exit. */
  lemma {:induction false} StepsCover(rs: seq<TimeRecord>, i: nat)
    ensures forall m :: i <= m < |rs| ==> Covered(Steps(rs, i), m)
    decreases |rs| - i
  {
    if i < |rs| {
      var steps := Steps(rs, i);
      var next := End(steps[0]) + 1;
      var rest := Steps(rs, next);
      assert steps == [steps[0]] + rest;
      StepsCover(rs, next);
      forall m | i <= m < |rs| ensures Covered(steps, m) {
        if m < next {
          assert steps[0] in steps;
        } else {
          assert Covered(rest, m);
          var st :| st in rest && st.first <= m <= End(st);
          assert st in steps;
        }
      }
    }
  }

  /** The blocks of a day carry the day, never a negative duration, and
      follow the pairing: a block with an exit pairs an entry with an exit,
      a block built from an exit (an orphan) or from an unmatched entry has no
      exit and duration 0. */
  lemma DayBlocksShape(day: int, rs: seq<TimeRecord>)
    ensures forall b :: b in DayBlocks(day, rs) ==>
              b.date == day && b.duration >= 0
              && (b.checkOut.None? ==> b.duration == 0)
              && (b.checkIn.recordType == CheckOut ==> b.checkOut.None?)
              && (b.checkOut.Some? ==> b.checkIn.recordType == CheckIn && b.checkOut.value.recordType == CheckOut)
              && b.checkIn in rs && (b.checkOut.Some? ==> b.checkOut.value in rs)
  {
    var steps := Steps(rs, 0);
    StepsPairing(rs, 0);
    forall b | b in DayBlocks(day, rs)
      ensures b.date == day && b.duration >= 0
      ensures b.checkOut.None? ==> b.duration == 0
      ensures b.checkIn.recordType == CheckOut ==> b.checkOut.None?
      ensures b.checkOut.Some? ==> b.checkIn.recordType == CheckIn && b.checkOut.value.recordType == CheckOut
      ensures b.checkIn in rs && (b.checkOut.Some? ==> b.checkOut.value in rs)
    {
      var k :| 0 <= k < |steps| && DayBlocks(day, rs)[k] == b;
      BlocksForAt(day, rs, steps, k);
      assert steps[k] in steps;
    }
  }

  /** The grouping key: the day an instant falls in. */
  function DayKey(r: TimeRecord): int { TruncateToDay(r.date) }

  /** The key of `sortedByDescending { it.date }`: ascending in the negated
      date is descending in the date, and the sort stays stable. */
  function NegatedBlockDate(b: TimeRecordBlock): int { -b.date }

  /** The blocks of each group, one group after another. */
  function GroupBlocks(groups: seq<Group<TimeRecord>>): seq<TimeRecordBlock>
  {
    if groups == [] then []
    else DayBlocks(groups[0].key, SortByDate(groups[0].members)) + GroupBlocks(groups[1..])
  }

  /** `createBlocks`: sort, group by day, build each day's blocks, then order
      all blocks latest day first. */
  function AllBlocks(records: seq<TimeRecord>): seq<TimeRecordBlock>
  {
    SortBy(GroupBlocks(GroupBy(SortByDate(records), DayKey)), NegatedBlockDate)
  }

  /** The pipeline of `createBlocks`, with its `forEach` that appends each
      day's blocks to a mutable list. */
  method CreateBlocks(records: seq<TimeRecord>) returns (blocks: seq<TimeRecordBlock>)
    ensures blocks == AllBlocks(records)
  {
    var recordsByDay := GroupBy(SortByDate(records), DayKey);
    var all: seq<TimeRecordBlock> := [];
    var k := 0;
    while k < |recordsByDay|
      invariant 0 <= k <= |recordsByDay|
      invariant all + GroupBlocks(recordsByDay[k..]) == GroupBlocks(recordsByDay)
    {
      var dayBlocks := CreateBlocksForDay(recordsByDay[k].key, recordsByDay[k].members);
      GroupStep(recordsByDay, k, all, all + dayBlocks);
      all := all + dayBlocks;
      k := k + 1;
    }
    assert recordsByDay[k..] == [];
    assert GroupBlocks(recordsByDay[k..]) == [];
    assert all + [] == all;
    assert all == GroupBlocks(recordsByDay);
    blocks := SortBy(all, NegatedBlockDate);
  }

  /** One iteration of the `forEach` appends the blocks of group `k`. */
  lemma GroupStep(groups: seq<Group<TimeRecord>>, k: nat, all: seq<TimeRecordBlock>, all': seq<TimeRecordBlock>)
    requires k < |groups|
    requires all + GroupBlocks(groups[k..]) == GroupBlocks(groups)
    requires all' == all + DayBlocks(groups[k].key, SortByDate(groups[k].members))
    ensures all' + GroupBlocks(groups[k + 1..]) == GroupBlocks(groups)
  {
    assert groups[k..][1..] == groups[k + 1..];
    var day := DayBlocks(groups[k].key, SortByDate(groups[k].members));
    assert GroupBlocks(groups[k..]) == day + GroupBlocks(groups[k + 1..]);
    AppendAssoc(all, day, GroupBlocks(groups[k + 1..]));
  }

  /** Every block of a group's day lies in that day and its records come
      from the group. */
  lemma {:induction false} GroupBlocksShape(groups: seq<Group<TimeRecord>>)
    requires forall g :: g in groups ==> forall x :: x in g.members ==> DayKey(x) == g.key
    ensures forall b :: b in GroupBlocks(groups) ==>
              b.date == TruncateToDay(b.checkIn.date) && b.duration >= 0
              && (b.checkOut.None? ==> b.duration == 0)
              && (b.checkIn.recordType == CheckOut ==> b.checkOut.None?)
              && (b.checkOut.Some? ==> b.checkIn.recordType == CheckIn && b.checkOut.value.recordType == CheckOut
                                       && TruncateToDay(b.checkOut.value.date) == b.date)
              && exists g :: g in groups && b.checkIn in g.members
  {
    if groups != [] {
      var g := groups[0];
      var sorted := SortByDate(g.members);
      DayBlocksShape(g.key, sorted);
      GroupBlocksShape(groups[1..]);
      forall b | b in GroupBlocks(groups)
        ensures b.date == TruncateToDay(b.checkIn.date)
        ensures b.checkOut.Some? ==> TruncateToDay(b.checkOut.value.date) == b.date
        ensures exists g :: g in groups && b.checkIn in g.members
      {
        if b in DayBlocks(g.key, sorted) {
          assert b.checkIn in multiset(sorted);
          assert b.checkIn in g.members;
          if b.checkOut.Some? {
            assert b.checkOut.value in multiset(sorted);
            assert b.checkOut.value in g.members;
          }
        } else {
          assert b in GroupBlocks(groups[1..]);
          var g' :| g' in groups[1..] && b.checkIn in g'.members;
        }
      }
    }
  }

  /** What `createBlocks` returns: the blocks come latest day first; each
      block's date is the day of its entry (and of its exit, when it has
      one); each block's entry is one of the input records; durations are
      never negative. */
  lemma AllBlocksShape(records: seq<TimeRecord>)
    ensures forall a, b :: 0 <= a < b < |AllBlocks(records)| ==> AllBlocks(records)[a].date >= AllBlocks(records)[b].date
    ensures forall b :: b in AllBlocks(records) ==>
              b.date == TruncateToDay(b.checkIn.date) && b.duration >= 0
              && (b.checkOut.None? ==> b.duration == 0)
              && (b.checkIn.recordType == CheckOut ==> b.checkOut.None?)
              && (b.checkOut.Some? ==> b.checkIn.recordType == CheckIn && b.checkOut.value.recordType == CheckOut
                                       && TruncateToDay(b.checkOut.value.date) == b.date)
              && b.checkIn in records
  {
    var sorted := SortByDate(records);
    var groups := GroupBy(sorted, DayKey);
    var all := GroupBlocks(groups);
    GroupBlocksShape(groups);
    GroupByShape(sorted, DayKey);
    var r := AllBlocks(records);
    SortByIsSorted(all, NegatedBlockDate);
    assert multiset(r) == multiset(all);
    forall b | b in r
      ensures b.date == TruncateToDay(b.checkIn.date) && b.duration >= 0
      ensures b.checkOut.None? ==> b.duration == 0
      ensures b.checkIn.recordType == CheckOut ==> b.checkOut.None?
      ensures b.checkOut.Some? ==> b.checkIn.recordType == CheckIn && b.checkOut.value.recordType == CheckOut
                                   && TruncateToDay(b.checkOut.value.date) == b.date
      ensures b.checkIn in records
    {
      assert b in multiset(r);
      assert b in all;
      var g :| g in groups && b.checkIn in g.members;
      assert b.checkIn in sorted;
      assert b.checkIn in multiset(sorted);
    }
  }
}
