/**
 * The database handle `db` with its two tables, and the exported operations
 * that write to them. Each method is one step over both tables: for
 * `deleteSubject` the source's transaction makes it one; for
 * `markAttendance` the model assumes no other call runs between the lookup
 * and the write, which the source does not enforce.
 */
module Store {

  import opened Seqs
  import opened Records
  import Subjects = SubjectsTable
  import AttendanceTable

  class AttendanceDB {
    var subjects: seq<Subject>
    var attendance: seq<Attendance>

    /** What the database engine guarantees: `id` is the primary key of both tables. */
    ghost predicate Valid()
      reads this
    {
      UniqueSubjectIds(subjects) && UniqueAttendanceIds(attendance)
    }

    constructor ()
      ensures Valid() && subjects == [] && attendance == []
    {
      subjects := [];
      attendance := [];
    }

    /**
     * `addSubject(name)`: stores and returns `{ id, name, createdAt }`, with
     * `id` standing for `uuid()` and `now` for `Date.now()`. The name is
     * stored as given, untrimmed.
     */
    method AddSubject(name: string, id: string, now: int) returns (subject: Subject)
      requires Valid() && id !in SubjectIds(subjects)
      modifies this
      ensures Valid()
      ensures subject == Subject(id, name, now)
      ensures subjects == old(subjects) + [subject]
      ensures attendance == old(attendance)
    {
      subject := Subject(id, name, now);
      assert forall s :: s in subjects ==> s.id in SubjectIds(subjects);
      DistinctByAppend(subjects, subject, SubjectId);
      subjects := subjects + [subject];
    }

    /**
     * `deleteSubject(subjectId)`: in one transaction, deletes the subject and
     * every attendance row that refers to it.
     */
    method DeleteSubject(subjectId: string)
      requires Valid()
      modifies this
      ensures Valid()
      ensures subjects == Subjects.DeleteById(old(subjects), subjectId)
      ensures attendance == AttendanceTable.DeleteRowsOfSubject(old(attendance), subjectId)
      ensures subjectId !in SubjectIds(subjects)
      ensures forall a :: a in attendance ==> a.subjectId != subjectId
      ensures UniqueKeys(old(attendance)) ==> UniqueKeys(attendance)
    {
      FilterKeepsDistinct(subjects, (s: Subject) => s.id != subjectId, SubjectId);
      FilterKeepsDistinct(attendance, (a: Attendance) => a.subjectId != subjectId, AttendanceId);
      if UniqueKeys(attendance) {
        FilterKeepsDistinct(attendance, (a: Attendance) => a.subjectId != subjectId, Key);
      }
      subjects := Subjects.DeleteById(subjects, subjectId);
      attendance := AttendanceTable.DeleteRowsOfSubject(attendance, subjectId);
    }

    /** `renameSubject(id, newName)`: renames to `newName.trim()` unless that is `""`. */
    method RenameSubject(id: string, newName: string)
      requires Valid()
      modifies this
      ensures Valid()
      ensures subjects == Subjects.RenameSubject(old(subjects), id, newName)
      ensures attendance == old(attendance)
    {
      Subjects.RenameOutcomes(subjects, id, newName);
      subjects := Subjects.RenameSubject(subjects, id, newName);
    }

    /**
     * `markAttendance(subjectId, date, status)`: looks the `(subjectId, date)`
     * row up, then deletes it (`None`), updates its status, or adds a row
     * with id `newId`, which stands for `uuid()`.
     */
    method MarkAttendance(subjectId: string, date: string, status: Option<string>, newId: string)
      requires Valid() && newId !in AttendanceIds(attendance)
      modifies this
      ensures Valid()
      ensures attendance == AttendanceTable.MarkAttendance(old(attendance), subjectId, date, status, newId)
      ensures subjects == old(subjects)
      ensures UniqueKeys(old(attendance)) ==> UniqueKeys(attendance)
    {
      if UniqueKeys(attendance) {
        AttendanceTable.MarkKeepsUniqueKeys(attendance, subjectId, date, status, newId);
      }
      AttendanceTable.MarkKeepsUniqueIds(attendance, subjectId, date, status, newId);
      var existing := AttendanceTable.FindByKey(attendance, subjectId, date);
      if existing.Some? {
        if status.None? {
          attendance := AttendanceTable.DeleteById(attendance, existing.value.id);
        } else {
          attendance := AttendanceTable.UpdateStatus(attendance, existing.value.id, status.value);
        }
      } else if status.Some? {
        attendance := attendance + [Attendance(newId, subjectId, date, status.value)];
      }
    }
  }

  /**
   * No attendance row refers to a missing subject after `deleteSubject`, if
   * none did before: the cascade leaves no orphans behind.
   */
  lemma DeleteSubjectKeepsNoOrphans(subjects: seq<Subject>, rows: seq<Attendance>, subjectId: string)
    requires NoOrphans(subjects, rows)
    ensures NoOrphans(Subjects.DeleteById(subjects, subjectId),
                      AttendanceTable.DeleteRowsOfSubject(rows, subjectId))
  {
    var subjects' := Subjects.DeleteById(subjects, subjectId);
    forall a | a in AttendanceTable.DeleteRowsOfSubject(rows, subjectId)
      ensures a.subjectId in SubjectIds(subjects')
    {
      var s :| s in subjects && s.id == a.subjectId;
      assert s in subjects';
    }
  }

  /**
   * Marking attendance for an existing subject keeps every row attached to a
   * subject. The source does not check that the subject exists.
   */
  lemma MarkKeepsNoOrphans(subjects: seq<Subject>, rows: seq<Attendance>, subjectId: string, date: string,
                           status: Option<string>, newId: string)
    requires NoOrphans(subjects, rows) && subjectId in SubjectIds(subjects)
    ensures NoOrphans(subjects, AttendanceTable.MarkAttendance(rows, subjectId, date, status, newId))
  {
    var r := AttendanceTable.MarkAttendance(rows, subjectId, date, status, newId);
    forall a | a in r ensures a.subjectId in SubjectIds(subjects) {
      match AttendanceTable.FindByKey(rows, subjectId, date)
      case Some(e) =>
        if status.Some? {
          var i :| 0 <= i < |r| && r[i] == a;
          assert rows[i] in rows;
        }
      case None =>
    }
  }

  /** Renaming a subject keeps every row attached to a subject: ids never change. */
  lemma RenameKeepsNoOrphans(subjects: seq<Subject>, rows: seq<Attendance>, id: string, newName: string)
    requires NoOrphans(subjects, rows)
    ensures NoOrphans(Subjects.RenameSubject(subjects, id, newName), rows)
  {
    Subjects.RenameOutcomes(subjects, id, newName);
  }
}
