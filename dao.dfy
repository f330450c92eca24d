// The two database tables behind the repository: `time_records`, reached
// through `TimeRecordDao`, and the single-row `overtime_balance`, reached
// through `OvertimeBalanceDao`. Each table is a class whose field the
// statements change in place; the SQL of each query is a function on it.

module Dao {
  import opened Records
  import opened Seqs

  // ---------------------------------------------------------------------
  // time_records

  /** No two rows share a primary key. */
  ghost predicate UniqueIds(rows: seq<TimeRecord>)
  {
    forall i, j :: 0 <= i < |rows| && 0 <= j < |rows| && i != j ==> rows[i].id != rows[j].id
  }

  /** `SELECT * FROM time_records WHERE id = :recordId`. */
  function Lookup(rows: seq<TimeRecord>, id: int): (r: Option<TimeRecord>)
    ensures r.Some? ==> r.value in rows && r.value.id == id
    ensures r.None? <==> forall i :: 0 <= i < |rows| ==> rows[i].id != id
  {
    if rows == [] then None
    else if rows[0].id == id then Some(rows[0])
    else Lookup(rows[1..], id)
  }

  /** The row whose key matches, when keys are unique. */
  lemma LookupUnique(rows: seq<TimeRecord>, k: int)
    requires UniqueIds(rows) && 0 <= k < |rows|
    ensures Lookup(rows, rows[k].id) == Some(rows[k])
  {
    var r := Lookup(rows, rows[k].id);
    assert r.Some?;
    var j :| 0 <= j < |rows| && rows[j] == r.value;
    assert rows[j].id == rows[k].id;
  }

  /** The table without the row keyed `id`. */
  function WithoutId(rows: seq<TimeRecord>, id: int): (r: seq<TimeRecord>)
    ensures forall x :: x in r <==> x in rows && x.id != id
  {
    Filter(rows, (x: TimeRecord) => x.id != id)
  }

  /** A row of the table, as `@Update` writes it: the row with the same key
      replaced, every other row kept. */
  function Replace(rows: seq<TimeRecord>, record: TimeRecord): (r: seq<TimeRecord>)
    ensures |r| == |rows|
    ensures forall i :: 0 <= i < |rows| ==> r[i] == if rows[i].id == record.id then record else rows[i]
  {
    seq(|rows|, i requires 0 <= i < |rows| => if rows[i].id == record.id then record else rows[i])
  }

  /** `date >= :start AND date < :end`. */
  function RowsInRange(rows: seq<TimeRecord>, start: int, end: int): (r: seq<TimeRecord>)
    ensures forall x :: x in r <==> x in rows && start <= x.date < end
  {
    Filter(rows, (x: TimeRecord) => start <= x.date < end)
  }

  /** `UPDATE time_records SET exported = 1 WHERE date >= :weekStart AND date < :weekEnd`. */
  function MarkExported(rows: seq<TimeRecord>, start: int, end: int): (r: seq<TimeRecord>)
    ensures |r| == |rows|
    ensures forall i :: 0 <= i < |rows| ==>
      r[i] == if start <= rows[i].date < end then rows[i].(exported := true) else rows[i]
  {
    seq(|rows|, i requires 0 <= i < |rows| =>
      if start <= rows[i].date < end then rows[i].(exported := true) else rows[i])
  }

  /** Marking the same range twice is the same as marking it once. */
  lemma MarkExportedIdempotent(rows: seq<TimeRecord>, start: int, end: int)
    ensures MarkExported(MarkExported(rows, start, end), start, end) == MarkExported(rows, start, end)
  {
    var once := MarkExported(rows, start, end);
    var twice := MarkExported(once, start, end);
    forall i | 0 <= i < |rows| ensures twice[i] == once[i] {
      assert once[i].date == rows[i].date;
    }
  }

  /** Marking changes no key, date, type or note, and leaves rows outside
      the range untouched; rows inside it all end up exported. */
  lemma MarkExportedKeeps(rows: seq<TimeRecord>, start: int, end: int, i: int)
    requires 0 <= i < |rows|
    ensures var r := MarkExported(rows, start, end)[i];
      r.(exported := rows[i].exported) == rows[i] &&
      (r.exported <==> rows[i].exported || start <= rows[i].date < end)
  {
  }

  /** A record with the latest date, as `ORDER BY date DESC LIMIT 1` picks
      one. SQL leaves the choice among equal dates open; taking the first
      row in table order is this model's choice, and the contract promises
      only some row with the latest date. */
  function LatestRow(rows: seq<TimeRecord>): (r: Option<TimeRecord>)
    ensures r.None? <==> rows == []
    ensures r.Some? ==> r.value in rows && forall x :: x in rows ==> x.date <= r.value.date
  {
    if rows == [] then None
    else
      var rest := LatestRow(rows[1..]);
      assert forall x :: x in rows ==> x == rows[0] || x in rows[1..];
      if rest.None? || rest.value.date <= rows[0].date then Some(rows[0]) else rest
  }

  /** The newest-first order of `getAllRecords`. */
  function DescendingDate(r: TimeRecord): int
  {
    -r.date
  }

  /** The table of time records: its rows, and the largest key the
      auto-increment counter has handed out. */
  class TimeRecordDao {
    var rows: seq<TimeRecord>
    var lastId: int

    /** Keys are unique and never 0 (0 asks for a generated key), and the
        counter is past every key in use. */
    ghost predicate Valid()
      reads this
    {
      UniqueIds(rows) && 0 <= lastId &&
      forall i :: 0 <= i < |rows| ==> rows[i].id != 0 && rows[i].id <= lastId
    }

    constructor()
      ensures Valid() && rows == [] && lastId == 0
    {
      rows := [];
      lastId := 0;
    }

    /** `@Insert(onConflict = REPLACE)`: a record with key 0 gets the next
        generated key; one with a key replaces any row with that key. */
    method Insert(record: TimeRecord) returns (id: int)
      requires Valid()
      modifies this
      ensures Valid()
      ensures id == if record.id == 0 then old(lastId) + 1 else record.id
      ensures rows == WithoutId(old(rows), id) + [record.(id := id)]
      ensures lastId == if id > old(lastId) then id else old(lastId)
    {
      if record.id == 0 {
        id := lastId + 1;
      } else {
        id := record.id;
      }
      InsertKeepsValid(rows, lastId, record.(id := id));
      rows := WithoutId(rows, id) + [record.(id := id)];
      if id > lastId {
        lastId := id;
      }
    }

    /** `@Update`: the row with the record's key takes its values; without
        such a row nothing changes. */
    method Update(record: TimeRecord)
      requires Valid()
      modifies this
      ensures Valid()
      ensures rows == Replace(old(rows), record) && lastId == old(lastId)
    {
      ReplaceKeepsValid(rows, lastId, record);
      rows := Replace(rows, record);
    }

    /** `@Delete`: removes the row with the record's key. */
    method Delete(record: TimeRecord)
      requires Valid()
      modifies this
      ensures Valid()
      ensures rows == WithoutId(old(rows), record.id) && lastId == old(lastId)
    {
      WithoutIdKeepsValid(rows, lastId, record.id);
      rows := WithoutId(rows, record.id);
    }

    /** `getAllRecords`: every row, newest first. */
    method GetAllRecords() returns (r: seq<TimeRecord>)
      ensures r == SortBy(rows, DescendingDate)
    {
      r := SortBy(rows, DescendingDate);
    }

    /** `getLastRecord`: a row of the latest date, or none for an empty table. */
    method GetLastRecord() returns (r: Option<TimeRecord>)
      ensures r == LatestRow(rows)
    {
      r := LatestRow(rows);
    }

    /** `getDayRecords(startDay, endDay)`: the rows of the half-open range,
        oldest first. */
    method GetDayRecords(startDay: int, endDay: int) returns (r: seq<TimeRecord>)
      ensures r == SortByDate(RowsInRange(rows, startDay, endDay))
    {
      r := SortByDate(RowsInRange(rows, startDay, endDay));
    }

    /** `getRecordById`. */
    method GetRecordById(recordId: int) returns (r: Option<TimeRecord>)
      ensures r == Lookup(rows, recordId)
    {
      r := Lookup(rows, recordId);
    }

    /** `markWeekAsExported(weekStart, weekEnd)`. */
    method MarkWeekAsExported(weekStart: int, weekEnd: int)
      requires Valid()
      modifies this
      ensures Valid()
      ensures rows == MarkExported(old(rows), weekStart, weekEnd) && lastId == old(lastId)
    {
      rows := MarkExported(rows, weekStart, weekEnd);
    }
  }

  /** Removing a key keeps the table well formed. */
  lemma WithoutIdKeepsValid(rows: seq<TimeRecord>, lastId: int, id: int)
    requires UniqueIds(rows) && forall i :: 0 <= i < |rows| ==> rows[i].id != 0 && rows[i].id <= lastId
    ensures UniqueIds(WithoutId(rows, id))
    ensures forall i :: 0 <= i < |WithoutId(rows, id)| ==> WithoutId(rows, id)[i].id != 0 && WithoutId(rows, id)[i].id <= lastId
  {
    FilterUnique(rows, (x: TimeRecord) => x.id != id);
    var r := WithoutId(rows, id);
    forall i | 0 <= i < |r| ensures r[i].id != 0 && r[i].id <= lastId {
      assert r[i] in rows;
    }
  }

  /** Filtering a table with unique keys keeps the keys unique. */
  lemma {:induction false} FilterUnique(rows: seq<TimeRecord>, p: TimeRecord -> bool)
    requires UniqueIds(rows)
    ensures UniqueIds(Filter(rows, p))
  {
    if rows != [] {
      var tail := rows[1..];
      assert UniqueIds(tail) by {
        forall i, j | 0 <= i < |tail| && 0 <= j < |tail| && i != j ensures tail[i].id != tail[j].id {
          assert tail[i] == rows[i + 1] && tail[j] == rows[j + 1];
        }
      }
      FilterUnique(tail, p);
      if p(rows[0]) {
        var r := Filter(rows, p);
        var ft := Filter(tail, p);
        assert r == [rows[0]] + ft;
        forall i | 0 <= i < |ft| ensures ft[i].id != rows[0].id {
          assert ft[i] in tail;
          var j :| 0 <= j < |tail| && tail[j] == ft[i];
          assert rows[j + 1] == ft[i];
        }
        forall i, j | 0 <= i < |r| && 0 <= j < |r| && i != j ensures r[i].id != r[j].id {
          if i == 0 {
            assert r[j] == ft[j - 1];
          } else if j == 0 {
            assert r[i] == ft[i - 1];
          } else {
            assert r[i] == ft[i - 1] && r[j] == ft[j - 1];
          }
        }
      }
    }
  }

  /** Inserting after removing the key keeps the table well formed. */
  lemma InsertKeepsValid(rows: seq<TimeRecord>, lastId: int, record: TimeRecord)
    requires UniqueIds(rows) && 0 <= lastId
    requires forall i :: 0 <= i < |rows| ==> rows[i].id != 0 && rows[i].id <= lastId
    requires record.id != 0
    ensures var r := WithoutId(rows, record.id) + [record];
      var top := if record.id > lastId then record.id else lastId;
      UniqueIds(r) && forall i :: 0 <= i < |r| ==> r[i].id != 0 && r[i].id <= top
  {
    WithoutIdKeepsValid(rows, lastId, record.id);
    var w := WithoutId(rows, record.id);
    var r := w + [record];
    forall i | 0 <= i < |w| ensures w[i].id != record.id {
      assert w[i] in w;
    }
    forall i, j | 0 <= i < |r| && 0 <= j < |r| && i != j ensures r[i].id != r[j].id {
      if i < |w| && j < |w| {
        assert r[i] == w[i] && r[j] == w[j];
      }
    }
  }

  /** Replacing a row's values keeps the table well formed. */
  lemma ReplaceKeepsValid(rows: seq<TimeRecord>, lastId: int, record: TimeRecord)
    requires UniqueIds(rows) && forall i :: 0 <= i < |rows| ==> rows[i].id != 0 && rows[i].id <= lastId
    ensures UniqueIds(Replace(rows, record))
    ensures forall i :: 0 <= i < |rows| ==> Replace(rows, record)[i].id == rows[i].id
  {
  }

  /** After an insert the new key finds the stored record and every other
      key finds what it found before. */
  lemma LookupAfterInsert(rows: seq<TimeRecord>, record: TimeRecord, other: int)
    requires UniqueIds(rows)
    ensures Lookup(WithoutId(rows, record.id) + [record], record.id) == Some(record)
    ensures other != record.id ==> Lookup(WithoutId(rows, record.id) + [record], other) == Lookup(rows, other)
  {
    var w := WithoutId(rows, record.id);
    LookupAppend(w, [record], record.id);
    if other != record.id {
      LookupAppend(w, [record], other);
      LookupWithout(rows, record.id, other);
    }
  }

  /** Looking up in a concatenation looks in the first part first. */
  lemma {:induction false} LookupAppend(a: seq<TimeRecord>, b: seq<TimeRecord>, id: int)
    ensures Lookup(a + b, id) == if Lookup(a, id).Some? then Lookup(a, id) else Lookup(b, id)
  {
    if a != [] {
      assert (a + b)[1..] == a[1..] + b;
      LookupAppend(a[1..], b, id);
    } else {
      assert a + b == b;
    }
  }

  /** Removing one key does not affect looking up another, when keys are
      unique. */
  lemma LookupWithout(rows: seq<TimeRecord>, id: int, other: int)
    requires UniqueIds(rows) && other != id
    ensures Lookup(WithoutId(rows, id), other) == Lookup(rows, other)
  {
    var w := WithoutId(rows, id);
    FilterUnique(rows, (x: TimeRecord) => x.id != id);
    match Lookup(rows, other)
    case None =>
      forall i | 0 <= i < |w| ensures w[i].id != other {
        assert w[i] in rows;
      }
    case Some(x) =>
      var k :| 0 <= k < |rows| && rows[k] == x;
      assert x in w;
      var j :| 0 <= j < |w| && w[j] == x;
      LookupUnique(w, j);
  }

  /** After an update the key finds the new values (when it was present)
      and every other key finds what it found before. */
  lemma LookupAfterReplace(rows: seq<TimeRecord>, record: TimeRecord, other: int)
    requires UniqueIds(rows)
    ensures Lookup(Replace(rows, record), record.id) ==
      if Lookup(rows, record.id).Some? then Some(record) else None
    ensures other != record.id ==> Lookup(Replace(rows, record), other) == Lookup(rows, other)
  {
    LookupReplace(rows, record, record.id);
    LookupReplace(rows, record, other);
  }

  /** Lookup through `Replace`, element by element. */
  lemma {:induction false} LookupReplace(rows: seq<TimeRecord>, record: TimeRecord, id: int)
    ensures Lookup(Replace(rows, record), id) ==
      if id != record.id then Lookup(rows, id)
      else if Lookup(rows, id).Some? then Some(record) else None
  {
    if rows != [] {
      assert Replace(rows, record)[1..] == Replace(rows[1..], record);
      LookupReplace(rows[1..], record, id);
    }
  }

  /** The range query returns exactly the rows of the range, oldest first. */
  lemma DayRecordsExact(rows: seq<TimeRecord>, startDay: int, endDay: int)
    ensures var r := SortByDate(RowsInRange(rows, startDay, endDay));
      (forall x :: x in r <==> x in rows && startDay <= x.date < endDay) &&
      SortedBy(r, DateKey)
  {
    var inRange := RowsInRange(rows, startDay, endDay);
    SortByDateSorted(inRange);
    assert forall x :: x in SortByDate(inRange) <==> x in multiset(inRange);
  }

  // ---------------------------------------------------------------------
  // overtime_balance

  /** A row of `overtime_balance`; the application only ever uses id 1. */
  datatype OvertimeBalance = OvertimeBalance(id: int, totalMinutes: int)

  /** `UPDATE overtime_balance SET totalMinutes = totalMinutes + :k WHERE id = 1`. */
  function AddedToBalance(table: map<int, int>, minutesToAdd: int): (r: map<int, int>)
    ensures r.Keys == table.Keys
    ensures 1 in table ==> r[1] == table[1] + minutesToAdd
    ensures forall id :: id in table && id != 1 ==> r[id] == table[id]
  {
    if 1 in table then table[1 := table[1] + minutesToAdd] else table
  }

  /** Two additions are one addition of the sum. */
  lemma AddedToBalanceCompose(table: map<int, int>, a: int, b: int)
    ensures AddedToBalance(AddedToBalance(table, a), b) == AddedToBalance(table, a + b)
  {
    if 1 in table {
      assert AddedToBalance(AddedToBalance(table, a), b) == table[1 := table[1] + a + b];
    }
  }

  /** The balance table: `totalMinutes` by id. */
  class OvertimeBalanceDao {
    var table: map<int, int>

    constructor()
      ensures table == map[]
    {
      table := map[];
    }

    /** `getBalance`: row 1, if present. */
    method GetBalance() returns (r: Option<OvertimeBalance>)
      ensures r.Some? <==> 1 in table
      ensures r.Some? ==> r.value == OvertimeBalance(1, table[1])
    {
      if 1 in table {
        r := Some(OvertimeBalance(1, table[1]));
      } else {
        r := None;
      }
    }

    /** `insertOrUpdateBalance` with REPLACE. */
    method InsertOrUpdateBalance(balance: OvertimeBalance)
      modifies this
      ensures table == old(table)[balance.id := balance.totalMinutes]
    {
      table := table[balance.id := balance.totalMinutes];
    }

    /** `addToBalance`: a no-op when row 1 is absent. */
    method AddToBalance(minutesToAdd: int)
      modifies this
      ensures table == AddedToBalance(old(table), minutesToAdd)
    {
      if 1 in table {
        table := table[1 := table[1] + minutesToAdd];
      }
    }
  }
}
