/**
 * The `attendance` table as a sequence of rows, and what `markAttendance`,
 * the attendance half of `deleteSubject` and `getAttendance` do to it or
 * read from it.
 */
module AttendanceTable {

  import opened Seqs
  import opened Records

  const PRESENT := "present"

  /** `db.attendance.where({ subjectId, date }).first()`: the first row with that key, if any. */
  function FindByKey(rows: seq<Attendance>, subjectId: string, date: string): (r: Option<Attendance>)
    ensures r.Some? ==> r.value in rows && HasKey(r.value, subjectId, date)
    ensures r.None? ==> forall a :: a in rows ==> !HasKey(a, subjectId, date)
  {
    if rows == [] then None
    else if HasKey(rows[0], subjectId, date) then Some(rows[0])
    else FindByKey(rows[1..], subjectId, date)
  }

  /** In a table with no row for a key, the row appended for it is the one found. */
  lemma {:induction false} FindAppended(rows: seq<Attendance>, subjectId: string, date: string, row: Attendance)
    requires forall a :: a in rows ==> !HasKey(a, subjectId, date)
    requires HasKey(row, subjectId, date)
    ensures FindByKey(rows + [row], subjectId, date) == Some(row)
  {
    if rows != [] {
      assert (rows + [row])[1..] == rows[1..] + [row];
      FindAppended(rows[1..], subjectId, date, row);
    }
  }

  /** `db.attendance.delete(id)`: drops the row whose primary key is `id`. */
  function DeleteById(rows: seq<Attendance>, id: string): (r: seq<Attendance>)
    ensures forall a :: a in r <==> a in rows && a.id != id
  {
    Filter(rows, (a: Attendance) => a.id != id)
  }

  /**
   * `db.attendance.update(id, { status })`: sets the status of the row whose
   * primary key is `id`. Every row keeps its place, its id and its key.
   */
  function UpdateStatus(rows: seq<Attendance>, id: string, status: string): (r: seq<Attendance>)
    ensures |r| == |rows|
    ensures forall i :: 0 <= i < |r| ==> r[i].id == rows[i].id && Key(r[i]) == Key(rows[i])
    ensures forall i :: 0 <= i < |r| && rows[i].id == id ==> r[i].status == status
    ensures forall i :: 0 <= i < |r| && rows[i].id != id ==> r[i] == rows[i]
  {
    seq(|rows|, i requires 0 <= i < |rows| =>
      if rows[i].id == id then rows[i].(status := status) else rows[i])
  }

  /**
   * The write half of `markAttendance`, once the lookup has returned
   * `existing`: delete or update the row found, or add one when none was.
   * A `null` status never brings in a row that was not there.
   */
  function MarkWrite(rows: seq<Attendance>, existing: Option<Attendance>, subjectId: string, date: string,
                     status: Option<string>, newId: string): (r: seq<Attendance>)
    ensures |r| <= |rows| + 1
    ensures status.None? ==> forall a :: a in r ==> a in rows
  {
    match existing
    case Some(e) =>
      if status.None? then DeleteById(rows, e.id)
      else UpdateStatus(rows, e.id, status.value)
    case None =>
      if status.Some? then rows + [Attendance(newId, subjectId, date, status.value)]
      else rows
  }

  /**
   * `markAttendance(subjectId, date, status)` on the table `rows`, where
   * `None` stands for `status === null` and `newId` for the `uuid()` a new
   * row would get: the lookup, then the write. After a status is given, a
   * row with the key holds it; after `null`, no row was added or changed.
   */
  function MarkAttendance(rows: seq<Attendance>, subjectId: string, date: string,
                          status: Option<string>, newId: string): (r: seq<Attendance>)
    ensures |r| <= |rows| + 1
    ensures status.None? ==> forall a :: a in r ==> a in rows
    ensures status.Some? ==> exists a :: a in r && HasKey(a, subjectId, date) && a.status == status.value
  {
    var existing := FindByKey(rows, subjectId, date);
    var r := MarkWrite(rows, existing, subjectId, date, status, newId);
    if existing.Some? && status.Some? then
      var e := existing.value;
      UpdatedRowPresent(rows, e, status.value);
      r
    else
      assert status.Some? ==> r[|rows|] in r;
      r
  }

  /** The row an update hits is in the updated table, with the new status. */
  lemma UpdatedRowPresent(rows: seq<Attendance>, e: Attendance, status: string)
    requires e in rows
    ensures e.(status := status) in UpdateStatus(rows, e.id, status)
  {
    var i :| 0 <= i < |rows| && rows[i] == e;
    assert UpdateStatus(rows, e.id, status)[i] == e.(status := status);
  }

  /** Existing row, `status === null`: that row is deleted and every other row stays. */
  lemma MarkDeletesRow(rows: seq<Attendance>, subjectId: string, date: string, newId: string, e: Attendance)
    requires UniqueAttendanceIds(rows) && UniqueKeys(rows)
    requires e in rows && HasKey(e, subjectId, date)
    ensures var r := MarkAttendance(rows, subjectId, date, None, newId);
            && (forall a :: a in r <==> a in rows && a != e)
            && (forall a :: a in r ==> !HasKey(a, subjectId, date))
  {
    var found := FindByKey(rows, subjectId, date).value;
    DistinctByAgree(rows, Key, found, e);
    forall a | a in rows && a.id == e.id ensures a == e {
      DistinctByAgree(rows, AttendanceId, a, e);
    }
    forall a | a in rows && HasKey(a, subjectId, date) ensures a == e {
      DistinctByAgree(rows, Key, a, e);
    }
  }

  /** Existing row, a status: only that row changes, and only its status. */
  lemma MarkUpdatesStatus(rows: seq<Attendance>, subjectId: string, date: string, status: string,
                          newId: string, e: Attendance)
    requires UniqueAttendanceIds(rows) && UniqueKeys(rows)
    requires e in rows && HasKey(e, subjectId, date)
    ensures var r := MarkAttendance(rows, subjectId, date, Some(status), newId);
            && |r| == |rows|
            && forall i :: 0 <= i < |rows| ==> r[i] == if rows[i] == e then e.(status := status) else rows[i]
  {
    var found := FindByKey(rows, subjectId, date).value;
    DistinctByAgree(rows, Key, found, e);
    forall i | 0 <= i < |rows| && rows[i].id == e.id ensures rows[i] == e {
      DistinctByAgree(rows, AttendanceId, rows[i], e);
    }
  }

  /** No row for the key: a status adds exactly one row, and `null` changes nothing. */
  lemma MarkWithoutRow(rows: seq<Attendance>, subjectId: string, date: string,
                       status: Option<string>, newId: string)
    requires forall a :: a in rows ==> !HasKey(a, subjectId, date)
    ensures status.Some? ==> MarkAttendance(rows, subjectId, date, status, newId)
                             == rows + [Attendance(newId, subjectId, date, status.value)]
    ensures status.None? ==> MarkAttendance(rows, subjectId, date, status, newId) == rows
  {
  }

  /** `markAttendance` never creates a second row for a `(subjectId, date)` pair. */
  lemma MarkKeepsUniqueKeys(rows: seq<Attendance>, subjectId: string, date: string,
                            status: Option<string>, newId: string)
    requires UniqueKeys(rows)
    ensures UniqueKeys(MarkAttendance(rows, subjectId, date, status, newId))
  {
    match FindByKey(rows, subjectId, date)
    case Some(existing) =>
      if status.None? {
        FilterKeepsDistinct(rows, (a: Attendance) => a.id != existing.id, Key);
      } else {
        UpdateKeepsKeysAndIds(rows, existing.id, status.value);
      }
    case None =>
      if status.Some? {
        DistinctByAppend(rows, Attendance(newId, subjectId, date, status.value), Key);
      }
  }

  /** With a fresh `newId`, `markAttendance` keeps `id` a primary key, even over duplicate keys. */
  lemma MarkKeepsUniqueIds(rows: seq<Attendance>, subjectId: string, date: string,
                           status: Option<string>, newId: string)
    requires UniqueAttendanceIds(rows) && newId !in AttendanceIds(rows)
    ensures UniqueAttendanceIds(MarkAttendance(rows, subjectId, date, status, newId))
  {
    match FindByKey(rows, subjectId, date)
    case Some(existing) =>
      if status.None? {
        FilterKeepsDistinct(rows, (a: Attendance) => a.id != existing.id, AttendanceId);
      } else {
        UpdateKeepsKeysAndIds(rows, existing.id, status.value);
      }
    case None =>
      if status.Some? {
        assert forall a :: a in rows ==> a.id in AttendanceIds(rows);
        DistinctByAppend(rows, Attendance(newId, subjectId, date, status.value), AttendanceId);
      }
  }

  lemma UpdateKeepsKeysAndIds(rows: seq<Attendance>, id: string, status: string)
    ensures UniqueKeys(rows) ==> UniqueKeys(UpdateStatus(rows, id, status))
    ensures UniqueAttendanceIds(rows) ==> UniqueAttendanceIds(UpdateStatus(rows, id, status))
  {
    var r := UpdateStatus(rows, id, status);
    assert forall i :: 0 <= i < |r| ==> Key(r[i]) == Key(rows[i]) && r[i].id == rows[i].id;
  }

  /** Updating a status to the value it already has changes nothing. */
  lemma UpdateSameStatus(rows: seq<Attendance>, id: string, status: string)
    requires forall a :: a in rows && a.id == id ==> a.status == status
    ensures UpdateStatus(rows, id, status) == rows
  {
    var r := UpdateStatus(rows, id, status);
    forall i | 0 <= i < |rows| ensures r[i] == rows[i] {
      assert rows[i] in rows;
    }
  }

  /**
   * Marking the same `(subjectId, date, status)` twice leaves the table as
   * marking it once does; the second call never needs a new id.
   */
  lemma MarkIdempotent(rows: seq<Attendance>, subjectId: string, date: string,
                       status: Option<string>, newId: string, otherId: string)
    requires UniqueKeys(rows) && newId !in AttendanceIds(rows)
    ensures var once := MarkAttendance(rows, subjectId, date, status, newId);
            MarkAttendance(once, subjectId, date, status, otherId) == once
  {
    var once := MarkAttendance(rows, subjectId, date, status, newId);
    MarkKeepsUniqueKeys(rows, subjectId, date, status, newId);
    match FindByKey(rows, subjectId, date)
    case Some(e) =>
      if status.None? {
        forall a | a in once ensures !HasKey(a, subjectId, date) {
          if HasKey(a, subjectId, date) {
            DistinctByAgree(rows, Key, a, e);
          }
        }
      } else {
        UpdateTwice(rows, once, subjectId, date, status.value, otherId, e);
      }
    case None =>
      if status.Some? {
        var row := Attendance(newId, subjectId, date, status.value);
        FindAppended(rows, subjectId, date, row);
        assert forall b :: b in rows ==> b.id in AttendanceIds(rows);
        UpdateSameStatus(once, newId, status.value);
      }
  }

  /** A second mark with the status the found row was just updated to changes nothing. */
  lemma UpdateTwice(rows: seq<Attendance>, once: seq<Attendance>, subjectId: string, date: string,
                    st: string, otherId: string, e: Attendance)
    requires e in rows && HasKey(e, subjectId, date)
    requires once == UpdateStatus(rows, e.id, st) && UniqueKeys(once)
    ensures MarkAttendance(once, subjectId, date, Some(st), otherId) == once
  {
    var e2 := FindByKey(once, subjectId, date);
    UpdatedRowPresent(rows, e, st);
    if e2.Some? {
      DistinctByAgree(once, Key, e2.value, e.(status := st));
    }
    forall a | a in once && a.id == e.id ensures a.status == st {
      var i :| 0 <= i < |once| && once[i] == a;
    }
    UpdateSameStatus(once, e.id, st);
  }

  /** `db.attendance.where('subjectId').equals(subjectId).toArray()`: the subject's rows. */
  function RowsOfSubject(rows: seq<Attendance>, subjectId: string): (r: seq<Attendance>)
    ensures |r| <= |rows|
    ensures forall a :: a in r <==> a in rows && a.subjectId == subjectId
  {
    Filter(rows, (a: Attendance) => a.subjectId == subjectId)
  }

  /** `db.attendance.where('subjectId').equals(subjectId).delete()`: every other row stays. */
  function DeleteRowsOfSubject(rows: seq<Attendance>, subjectId: string): (r: seq<Attendance>)
    ensures |r| <= |rows|
    ensures forall a :: a in r <==> a in rows && a.subjectId != subjectId
  {
    Filter(rows, (a: Attendance) => a.subjectId != subjectId)
  }

  predicate IsPresent(a: Attendance)
  {
    a.status == PRESENT
  }

  /** The value `getAttendance` resolves to. */
  datatype Summary = Summary(present: nat, total: nat)

  /**
   * `getAttendance(subjectId)`: no rows gives `{present: 0, total: 0}`;
   * otherwise how many of the subject's rows say `'present'`, out of how many.
   */
  function GetAttendance(rows: seq<Attendance>, subjectId: string): (r: Summary)
    ensures r.present <= r.total
    ensures r.total == 0 <==> forall a :: a in rows ==> a.subjectId != subjectId
  {
    var records := RowsOfSubject(rows, subjectId);
    if |records| == 0 then Summary(0, 0)
    else
      assert records[0] in records;
      Summary(|Filter(records, IsPresent)|, |records|)
  }

  /** Reference counts, one row at a time: the subject's rows, and those of them marked present. */
  function CountRows(rows: seq<Attendance>, subjectId: string): nat
  {
    if rows == [] then 0
    else (if rows[0].subjectId == subjectId then 1 else 0) + CountRows(rows[1..], subjectId)
  }

  function CountPresent(rows: seq<Attendance>, subjectId: string): nat
  {
    if rows == [] then 0
    else (if rows[0].subjectId == subjectId && rows[0].status == PRESENT then 1 else 0)
         + CountPresent(rows[1..], subjectId)
  }

  /** `getAttendance` counts exactly the rows the reference counts do. */
  lemma {:induction false} GetAttendanceCounts(rows: seq<Attendance>, subjectId: string)
    ensures GetAttendance(rows, subjectId) == Summary(CountPresent(rows, subjectId), CountRows(rows, subjectId))
  {
    FilterCounts(rows, subjectId);
  }

  lemma {:induction false} FilterCounts(rows: seq<Attendance>, subjectId: string)
    ensures |RowsOfSubject(rows, subjectId)| == CountRows(rows, subjectId)
    ensures |Filter(RowsOfSubject(rows, subjectId), IsPresent)| == CountPresent(rows, subjectId)
  {
    if rows != [] {
      FilterCounts(rows[1..], subjectId);
    }
  }

  /**
   * Deleting a subject's rows leaves none behind, keeps every row of every
   * other subject in its order, and so leaves their summaries as they were.
   */
  lemma DeleteRowsCascade(rows: seq<Attendance>, subjectId: string)
    ensures var r := DeleteRowsOfSubject(rows, subjectId);
            && (forall a :: a in r <==> a in rows && a.subjectId != subjectId)
            && RowsOfSubject(r, subjectId) == []
            && GetAttendance(r, subjectId) == Summary(0, 0)
            && (forall other :: other != subjectId ==> RowsOfSubject(r, other) == RowsOfSubject(rows, other))
            && (forall other :: other != subjectId ==> GetAttendance(r, other) == GetAttendance(rows, other))
  {
    var r := DeleteRowsOfSubject(rows, subjectId);
    FilterAllOrNone(r, (a: Attendance) => a.subjectId == subjectId);
    forall other | other != subjectId
      ensures RowsOfSubject(r, other) == RowsOfSubject(rows, other)
    {
      FilterFilter(rows, (a: Attendance) => a.subjectId != subjectId, (a: Attendance) => a.subjectId == other);
    }
  }

  /** A first `'present'` mark for a date adds one to both counts of the subject's summary. */
  lemma FirstPresentMarkCounts(rows: seq<Attendance>, subjectId: string, date: string, newId: string)
    requires forall a :: a in rows ==> !HasKey(a, subjectId, date)
    ensures var after := GetAttendance(MarkAttendance(rows, subjectId, date, Some(PRESENT), newId), subjectId);
            var before := GetAttendance(rows, subjectId);
            after == Summary(before.present + 1, before.total + 1)
  {
    var row := Attendance(newId, subjectId, date, PRESENT);
    FilterAppend(rows, row, (a: Attendance) => a.subjectId == subjectId);
    FilterAppend(RowsOfSubject(rows, subjectId), row, IsPresent);
  }

  /**
   * Two `markAttendance` calls for a new `(subjectId, date)` whose lookups
   * both run before either write: each sees no row, each adds one, and the
   * key ends up with two rows. Nothing in the schema forbids it.
   */
  lemma InterleavedMarksDuplicateKey(rows: seq<Attendance>, subjectId: string, date: string,
                                     status1: string, status2: string, id1: string, id2: string)
    requires forall a :: a in rows ==> !HasKey(a, subjectId, date)
    ensures var seen := FindByKey(rows, subjectId, date);
            var first := MarkWrite(rows, seen, subjectId, date, Some(status1), id1);
            var second := MarkWrite(first, seen, subjectId, date, Some(status2), id2);
            && first == MarkAttendance(rows, subjectId, date, Some(status1), id1)
            && |second| == |rows| + 2
            && !UniqueKeys(second)
  {
    var first := rows + [Attendance(id1, subjectId, date, status1)];
    var second := first + [Attendance(id2, subjectId, date, status2)];
    assert Key(second[|rows|]) == Key(second[|rows| + 1]);
  }
}
