/**
 * The `subjects` table as a sequence of rows, and what the subject half of
 * `deleteSubject`, `renameSubject` and `getAllSubjects` do to it or read
 * from it.
 */
module SubjectsTable {

  import opened Seqs
  import opened Records
  import opened JsStrings
  import opened KeyOrder

  /** `db.subjects.delete(id)`: drops the subject whose primary key is `id`. */
  function DeleteById(subjects: seq<Subject>, id: string): (r: seq<Subject>)
    ensures forall s :: s in r <==> s in subjects && s.id != id
  {
    Filter(subjects, (s: Subject) => s.id != id)
  }

  /**
   * `db.subjects.update(id, { name })`: sets the name of the subject whose
   * primary key is `id`. Every subject keeps its place, id and creation time.
   */
  function UpdateName(subjects: seq<Subject>, id: string, name: string): (r: seq<Subject>)
    ensures |r| == |subjects|
    ensures forall i :: 0 <= i < |r| ==> r[i].id == subjects[i].id && r[i].createdAt == subjects[i].createdAt
    ensures forall i :: 0 <= i < |r| ==> r[i].name == if subjects[i].id == id then name else subjects[i].name
  {
    seq(|subjects|, i requires 0 <= i < |subjects| =>
      if subjects[i].id == id then subjects[i].(name := name) else subjects[i])
  }

  /**
   * `renameSubject(id, newName)`: nothing when `newName` trims to `""`, else
   * the trimmed name. Either way only names change, and a name that changes
   * becomes a non-empty trimmed `newName`.
   */
  function RenameSubject(subjects: seq<Subject>, id: string, newName: string): (r: seq<Subject>)
    ensures |r| == |subjects|
    ensures forall i :: 0 <= i < |r| ==> r[i].id == subjects[i].id && r[i].createdAt == subjects[i].createdAt
    ensures forall i :: 0 <= i < |r| && r[i].name != subjects[i].name ==>
              r[i].id == id && r[i].name == Trim(newName) && Trim(newName) != []
  {
    if Trim(newName) == [] then subjects
    else UpdateName(subjects, id, Trim(newName))
  }

  /**
   * A white-space-only name changes nothing; any other name replaces the
   * name of subject `id`, and only that, by its trimmed form. Ids and
   * creation times never change, and neither does a table without `id`.
   */
  lemma RenameOutcomes(subjects: seq<Subject>, id: string, newName: string)
    ensures var r := RenameSubject(subjects, id, newName);
            && (AllWhiteSpace(newName) ==> r == subjects)
            && (id !in SubjectIds(subjects) ==> r == subjects)
            && (!AllWhiteSpace(newName) ==>
                 && |r| == |subjects|
                 && forall i :: 0 <= i < |subjects| ==>
                      r[i] == if subjects[i].id == id then subjects[i].(name := Trim(newName)) else subjects[i])
            && SubjectIds(r) == SubjectIds(subjects)
            && (UniqueSubjectIds(subjects) ==> UniqueSubjectIds(r))
  {
    var r := RenameSubject(subjects, id, newName);
    TrimEmptyIffAllWhiteSpace(newName);
    if !AllWhiteSpace(newName) {
      assert forall i :: 0 <= i < |r| ==> r[i].id == subjects[i].id;
      forall x | x in SubjectIds(r) ensures x in SubjectIds(subjects) {
        var s :| s in r && s.id == x;
        var i :| 0 <= i < |r| && r[i] == s;
        assert subjects[i] in subjects;
      }
      forall x | x in SubjectIds(subjects) ensures x in SubjectIds(r) {
        var s :| s in subjects && s.id == x;
        var i :| 0 <= i < |subjects| && subjects[i] == s;
        assert r[i] in r;
      }
      if id !in SubjectIds(subjects) {
        forall i | 0 <= i < |subjects| ensures r[i] == subjects[i] {
          assert subjects[i] in subjects;
        }
      }
    }
  }

  /** Every subject with key `id` in the updated table carries the new name. */
  lemma UpdatedNameIsNew(subjects: seq<Subject>, id: string, name: string, s: Subject)
    requires s in UpdateName(subjects, id, name) && s.id == id
    ensures s.name == name
  {
    var r := UpdateName(subjects, id, name);
    var i :| 0 <= i < |r| && r[i] == s;
  }

  /** A renamed subject's name never starts or ends with white space, and is not empty. */
  lemma RenamedNameIsTrimmed(subjects: seq<Subject>, id: string, newName: string, s: Subject)
    requires !AllWhiteSpace(newName)
    requires s in RenameSubject(subjects, id, newName) && s.id == id
    ensures s.name == Trim(newName) && s.name != []
    ensures !IsWhiteSpace(s.name[0]) && !IsWhiteSpace(s.name[|s.name| - 1])
  {
    TrimEmptyIffAllWhiteSpace(newName);
    UpdatedNameIsNew(subjects, id, Trim(newName), s);
  }

  /**
   * The order of the `createdAt` index: by creation time, and, as IndexedDB
   * orders entries with equal keys, by primary key among equal times.
   */
  predicate CreatedNoLater(a: Subject, b: Subject)
  {
    a.createdAt < b.createdAt || (a.createdAt == b.createdAt && StrLessEq(a.id, b.id))
  }

  ghost predicate SortedByCreatedAt(s: seq<Subject>)
  {
    forall i, j :: 0 <= i < j < |s| ==> CreatedNoLater(s[i], s[j])
  }

  lemma CreatedNoLaterTransitive(a: Subject, b: Subject, c: Subject)
    requires CreatedNoLater(a, b) && CreatedNoLater(b, c)
    ensures CreatedNoLater(a, c)
  {
    if a.createdAt == b.createdAt == c.createdAt && StrLess(c.id, a.id) {
      if a.id == b.id {
      } else {
        StrLessTotal(a.id, b.id);
        if StrLess(a.id, b.id) {
          StrLessTransitive(c.id, a.id, b.id);
        }
      }
    }
  }

  lemma CreatedNoLaterTotal(a: Subject, b: Subject)
    ensures CreatedNoLater(a, b) || CreatedNoLater(b, a)
  {
    if StrLess(a.id, b.id) {
      StrLessAsymmetric(a.id, b.id);
    }
  }

  /** A subject no later than the head of a sorted list is no later than any of it. */
  lemma NoLaterThanAll(x: Subject, s: seq<Subject>)
    requires SortedByCreatedAt(s) && s != [] && CreatedNoLater(x, s[0])
    ensures forall j :: 0 <= j < |s| ==> CreatedNoLater(x, s[j])
  {
    forall j | 0 < j < |s| ensures CreatedNoLater(x, s[j]) {
      CreatedNoLaterTransitive(x, s[0], s[j]);
    }
  }

  /** Putting in front of a sorted list a subject no later than any of it keeps it sorted. */
  lemma ConsSorted(y: Subject, rest: seq<Subject>)
    requires SortedByCreatedAt(rest)
    requires forall z :: z in multiset(rest) ==> CreatedNoLater(y, z)
    ensures SortedByCreatedAt([y] + rest)
  {
    var r := [y] + rest;
    forall i, j | 0 <= i < j < |r| ensures CreatedNoLater(r[i], r[j]) {
      assert r[j] == rest[j - 1] && rest[j - 1] in multiset(rest);
      if i > 0 {
        assert r[i] == rest[i - 1];
      }
    }
  }

  /** Every subject of the tail of a sorted list comes no earlier than its head. */
  lemma HeadNoLaterThanTail(s: seq<Subject>, x: Subject, rest: seq<Subject>)
    requires SortedByCreatedAt(s) && s != [] && !CreatedNoLater(x, s[0])
    requires multiset(rest) == multiset(s[1..]) + multiset{x}
    ensures forall y :: y in multiset(rest) ==> CreatedNoLater(s[0], y)
  {
    CreatedNoLaterTotal(x, s[0]);
    forall y | y in multiset(rest) ensures CreatedNoLater(s[0], y) {
      if y != x {
        assert y in multiset(s[1..]);
        var j :| 0 <= j < |s[1..]| && s[1..][j] == y;
        assert s[j + 1] == y;
      }
    }
  }

  /** Puts `x` into the sorted `s` before the first subject it is no later than. */
  function Insert(x: Subject, s: seq<Subject>): (r: seq<Subject>)
    requires SortedByCreatedAt(s)
    ensures multiset(r) == multiset(s) + multiset{x}
    ensures SortedByCreatedAt(r)
  {
    if s == [] then [x]
    else if CreatedNoLater(x, s[0]) then
      NoLaterThanAll(x, s);
      ConsSorted(x, s);
      [x] + s
    else
      assert SortedByCreatedAt(s[1..]);
      var rest := Insert(x, s[1..]);
      assert s == [s[0]] + s[1..];
      HeadNoLaterThanTail(s, x, rest);
      ConsSorted(s[0], rest);
      [s[0]] + rest
  }

  /**
   * `getAllSubjects()`: every subject, in the order of the `createdAt`
   * index. The sorting is the database's, not the module's.
   */
  function GetAllSubjects(subjects: seq<Subject>): (r: seq<Subject>)
    ensures multiset(r) == multiset(subjects)
    ensures SortedByCreatedAt(r)
  {
    if subjects == [] then []
    else
      assert subjects == [subjects[0]] + subjects[1..];
      Insert(subjects[0], GetAllSubjects(subjects[1..]))
  }
}
