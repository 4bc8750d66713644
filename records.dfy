/** The two record shapes of the attendance database and the invariants over their tables. */
module Records {

  import opened Seqs

  datatype Option<T> = None | Some(value: T)

  /** A row of the `subjects` table. */
  datatype Subject = Subject(id: string, name: string, createdAt: int)

  /** A row of the `attendance` table: one status string per subject and date. */
  datatype Attendance = Attendance(id: string, subjectId: string, date: string, status: string)

  /** The key of the compound index `[subjectId+date]`. */
  function Key(a: Attendance): (string, string)
  {
    (a.subjectId, a.date)
  }

  predicate HasKey(a: Attendance, subjectId: string, date: string)
  {
    a.subjectId == subjectId && a.date == date
  }

  function SubjectIds(subjects: seq<Subject>): set<string>
  {
    set s | s in subjects :: s.id
  }

  function AttendanceIds(rows: seq<Attendance>): set<string>
  {
    set a | a in rows :: a.id
  }

  function SubjectId(s: Subject): string
  {
    s.id
  }

  function AttendanceId(a: Attendance): string
  {
    a.id
  }

  /** `id` is the primary key of `subjects`: no two rows share one. */
  ghost predicate UniqueSubjectIds(subjects: seq<Subject>)
  {
    DistinctBy(subjects, SubjectId)
  }

  /** `id` is the primary key of `attendance`: no two rows share one. */
  ghost predicate UniqueAttendanceIds(rows: seq<Attendance>)
  {
    DistinctBy(rows, AttendanceId)
  }

  /** At most one attendance row per `(subjectId, date)`; the source declares no unique index for it. */
  ghost predicate UniqueKeys(rows: seq<Attendance>)
  {
    DistinctBy(rows, Key)
  }

  /** Every attendance row belongs to a subject that exists. */
  ghost predicate NoOrphans(subjects: seq<Subject>, rows: seq<Attendance>)
  {
    forall a :: a in rows ==> a.subjectId in SubjectIds(subjects)
  }
}
