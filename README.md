# Attendance store model

A Dafny model of the attendance data-access module `src/lib/db.ts`. The module
keeps two IndexedDB tables through Dexie:

- `subjects`: rows `{ id, name, createdAt }`;
- `attendance`: rows `{ id, subjectId, date, status }`, with one `status` string per row.

It exports seven operations over these tables: `addSubject`, `deleteSubject`,
`renameSubject`, `getAllSubjects`, `markAttendance`, `getAttendanceForMonth`
and `getAttendance`.

Layout:

- `records.dfy` (`Records`): the two row types, `Option`, and the table invariants. These are primary-key uniqueness, at most one row per `(subjectId, date)`, and no orphaned rows.
- `seqs.dfy` (`Seqs`): `Filter` (the model of `Array.prototype.filter` and of Dexie's `where(...).equals(...)` scans) and distinctness.
- `js_strings.dfy` (`JsStrings`): `String.prototype.trim` with ECMAScript's white-space set, `String(n)` for integers, and `padStart`.
- `key_order.dfy` (`KeyOrder`): IndexedDB's string order and compound-key order, and Dexie's `between` range.
- `attendance_table.dfy` (`AttendanceTable`): `markAttendance`, the attendance half of `deleteSubject`, and `getAttendance`, as functions on the table.
- `subjects_table.dfy` (`SubjectsTable`): the subject half of `deleteSubject`, `renameSubject`, and `getAllSubjects`.
- `month_query.dfy` (`MonthQuery`): `getAttendanceForMonth`.
- `store.dfy` (`Store`): the class `AttendanceDB`, which holds both tables as fields. Its methods are the four writing operations. Each `ensures` ties the new tables to the table functions above. Each method is one step: `deleteSubject` is one because it runs in a transaction, while `markAttendance`'s lookup and write are assumed not to interleave with another call (see "## Left out").

The three read-only queries are functions of the table contents. The database
engine is not modelled: a table is a sequence of rows. Primary-key uniqueness
is the class invariant `Valid()`, because the engine guarantees it.
`(subjectId, date)` uniqueness is not declared as a unique index in the
source. It is therefore a separate predicate (`UniqueKeys`), and the model
proves that `markAttendance` preserves it.

Inputs that are not deterministic become parameters:

- `uuid()` (`crypto.randomUUID()`) becomes a caller-supplied id that is required to be unused;
- `Date.now()` becomes a caller-supplied `now`;
- `status: string | null` becomes `Option<string>`.

Notes on the code's behaviour, which the model follows:

- Each row stores one `status` string. There are no present/absent counts and no migration from them.
- `getAllSubjects` orders by `createdAt` ascending, not newest first.
- `markAttendance` does not check that the subject exists.
- The month query ends at the fixed string bound `-31`, and leaves that bound out. It does not use the month's true last day (see "## Findings").
- There is no lookup of a single subject by id, and no operation that clears one subject's attendance while keeping the subject.

## Model

| member | source | states |
|---|---|---|
| `Store.AttendanceDB.AddSubject` | src/lib/db.ts:28-32 | exactly one subject `{id, name, now}` is appended with the untrimmed name and a fresh id; that record is returned; the attendance table is unchanged; ids stay unique |
| `Store.AttendanceDB.DeleteSubject` | src/lib/db.ts:34-40 | in one step the subject table loses subject `subjectId` and the attendance table loses every row of it; nothing else changes; ids stay unique, and so does `(subjectId, date)` if it was |
| `Store.AttendanceDB.RenameSubject` | src/lib/db.ts:42-48 | the subject table becomes `RenameSubject` of the old one; attendance is unchanged |
| `Store.AttendanceDB.MarkAttendance` | src/lib/db.ts:52-60 | the lookup and the conditional delete, update or add give `AttendanceTable.MarkAttendance` of the old table; subjects are unchanged; ids and `(subjectId, date)` uniqueness are preserved |
| `Store.DeleteSubjectKeepsNoOrphans` | src/lib/db.ts:34-40 | if every row belonged to an existing subject before the cascade delete, that still holds after it |
| `Store.MarkKeepsNoOrphans` | src/lib/db.ts:52-60 | marking a subject that exists keeps every row attached to an existing subject |
| `Store.RenameKeepsNoOrphans` | src/lib/db.ts:42-48 | renaming a subject keeps every row attached to an existing subject, since subject ids never change |
| `AttendanceTable.MarkAttendance` | src/lib/db.ts:52-60 | lookup then write: at most one row is added; with a status, some row with the key then holds that status; with `null`, every remaining row was already there |
| `AttendanceTable.MarkWrite` | src/lib/db.ts:54-59 | the write after the lookup adds at most one row, and with `null` adds none |
| `AttendanceTable.DeleteById` | src/lib/db.ts:55 | the rows left are exactly those whose id differs from the one deleted |
| `AttendanceTable.UpdateStatus` | src/lib/db.ts:56 | every row keeps its place, id and `(subjectId, date)`; the row with the id gets the new status; every other row is unchanged |
| `AttendanceTable.RowsOfSubject` | src/lib/db.ts:72 | the rows returned are exactly the subject's rows |
| `AttendanceTable.DeleteRowsOfSubject` | src/lib/db.ts:38 | the rows left are exactly those of other subjects |
| `AttendanceTable.InterleavedMarksDuplicateKey` | src/lib/db.ts:52-60 | if two calls for a new `(subjectId, date)` both look the key up before either writes, both add a row, and the key then has two rows |
| `AttendanceTable.FindByKey` | src/lib/db.ts:53 | the lookup returns a row of the table with that `(subjectId, date)`, or nothing exactly when no such row exists |
| `AttendanceTable.MarkDeletesRow` | src/lib/db.ts:54-55 | existing row and `null`: the result holds every row except that one, and no row with that key remains |
| `AttendanceTable.MarkUpdatesStatus` | src/lib/db.ts:54-56 | existing row and a status: same length, and only that row differs, in its `status` alone |
| `AttendanceTable.MarkWithoutRow` | src/lib/db.ts:57-59 | no row and a status: exactly the row `{newId, subjectId, date, status}` is appended; no row and `null`: nothing changes |
| `AttendanceTable.MarkKeepsUniqueKeys` | src/lib/db.ts:53-58 | with at most one row per `(subjectId, date)` before, there is at most one after |
| `AttendanceTable.MarkKeepsUniqueIds` | src/lib/db.ts:55-58 | with a fresh id for a new row, row ids stay unique, even if keys are duplicated |
| `AttendanceTable.MarkIdempotent` | src/lib/db.ts:53-59 | marking the same `(subjectId, date, status)` a second time leaves the table exactly as after the first time |
| `AttendanceTable.GetAttendance` | src/lib/db.ts:71-76 | `present <= total`; `total` is 0 exactly when the subject has no rows, and then the result is `{0, 0}` |
| `AttendanceTable.GetAttendanceCounts` | src/lib/db.ts:71-76 | `total` is the number of the subject's rows and `present` the number of those with status `'present'`, by an independent row-by-row count |
| `AttendanceTable.DeleteRowsCascade` | src/lib/db.ts:38 | after the delete no row of the subject is left, and its summary is `{0, 0}`; every other subject's rows, their order and their summaries are unchanged |
| `AttendanceTable.FirstPresentMarkCounts` | src/lib/db.ts:57-58 | a first `'present'` mark for a date adds one to both `present` and `total` |
| `SubjectsTable.DeleteById` | src/lib/db.ts:36 | the subjects left are exactly those whose id differs from the one deleted |
| `SubjectsTable.UpdateName` | src/lib/db.ts:45-47 | every subject keeps its place, id and `createdAt`; the subject with the id gets the new name; the others keep theirs |
| `SubjectsTable.RenameSubject` | src/lib/db.ts:42-48 | ids, creation times and order are kept; a name that changes belongs to subject `id` and becomes the non-empty `trim(newName)` |
| `SubjectsTable.RenameOutcomes` | src/lib/db.ts:42-48 | a white-space-only name, or an id not in the table, changes nothing; otherwise only the name of subject `id` changes, to `trim(newName)`; ids and creation times are kept |
| `SubjectsTable.RenamedNameIsTrimmed` | src/lib/db.ts:43-46 | a renamed subject's name is non-empty and neither starts nor ends with white space |
| `SubjectsTable.GetAllSubjects` | src/lib/db.ts:50 | the result is a permutation of the subjects, sorted by `createdAt` ascending, with ties ordered by id as the index orders them |
| `SubjectsTable.Insert` | src/lib/db.ts:50 | inserting into a sorted list keeps it sorted and adds exactly that subject |
| `JsStrings.Trim` | src/lib/db.ts:43-46 | the result is a slice of the input; everything cut off is white space; the result is empty or begins and ends with a character that is not white space |
| `JsStrings.TrimEmptyIffAllWhiteSpace` | src/lib/db.ts:43 | `trim()` gives `""` exactly when the whole name is white space |
| `JsStrings.NumberToString` | src/lib/db.ts:63-64 | `String(n)` spells `n` in decimal, with a leading `-` when `n` is negative |
| `JsStrings.DecimalRoundTrip` | src/lib/db.ts:63-64 | reading back the decimal digits of `n` gives `n` |
| `JsStrings.PadStart` | src/lib/db.ts:63-64 | the result has length `max(width, |s|)`, ends with `s`, and is filled on the left with the pad character |
| `JsStrings.PadStartValue` | src/lib/db.ts:63-64 | padding a month's digits with `'0'` keeps the number they spell |
| `KeyOrder.InKeyRange` | src/lib/db.ts:65-68 | a key in the range is the lower bound or after it, and before the upper bound, or equal to it when that is included |
| `KeyOrder.PairLessTotal` | src/lib/db.ts:65-68 | two compound keys are equal or ordered one way or the other |
| `KeyOrder.OneSubjectRange` | src/lib/db.ts:65-68 | a compound key lies in the range `[sid, lo]`..`[sid, hi]` exactly when its subject is `sid` and its date is in the string range |
| `KeyOrder.BetweenHasPrefix` | src/lib/db.ts:63-67 | a string between two bounds that share a prefix has that prefix too |
| `KeyOrder.StrLessTotal` | src/lib/db.ts:66-67 | two different keys are always ordered one way or the other |
| `KeyOrder.StrLessTransitive` | src/lib/db.ts:66-67 | the string order of index keys is transitive |
| `MonthQuery.MonthPrefix` | src/lib/db.ts:63-64 | it ends with `-`; for a nonnegative year and a month below 100 it is the year's digits, `-`, two digits whose value is the month, and `-` |
| `MonthQuery.MonthStart` | src/lib/db.ts:63 | the month's prefix followed by two digits whose value is 1 |
| `MonthQuery.MonthEnd` | src/lib/db.ts:64 | the month's prefix followed by two digits whose value is 31, whatever the month's length |
| `MonthQuery.RowsBetween` | src/lib/db.ts:65-68 | a row is selected exactly when it is the subject's and its date is at or after the lower bound and before the upper one, or equal to the upper one when that is included |
| `MonthQuery.GetAttendanceForMonth` | src/lib/db.ts:62-69 | the query as written: every row returned is a row of the subject dated with the month's `Y-MM-` prefix |
| `MonthQuery.GetAttendanceForWholeMonth` | src/lib/db.ts:62-69 | the corrected query, with the upper bound included: every row returned is a row of the subject dated with the month's `Y-MM-` prefix |
| `MonthQuery.BoundsOrdered` | src/lib/db.ts:63-64 | the start bound sorts before the end bound, so the range is never inverted |
| `MonthQuery.MonthQueryMembership` | src/lib/db.ts:62-69 | a row is returned exactly when its subject matches and its date is at or after `Y-MM-01` and strictly before `Y-MM-31` |
| `MonthQuery.MonthQueryDatesInMonth` | src/lib/db.ts:62-69 | every returned date starts with `Y-MM-` |
| `MonthQuery.MonthQueryDays` | src/lib/db.ts:62-69 | for a subject's date `Y-MM-DD`, the row is returned exactly when DD is 01 to 30 |
| `MonthQuery.MonthQueryExcludesOtherMonths` | src/lib/db.ts:62-69 | for nonnegative years and months, no row dated in another month, such as the next one, is ever returned |
| `MonthQuery.MonthPrefixInjective` | src/lib/db.ts:63-64 | for nonnegative values, if the `Y-MM-` prefix of one `(year, month)` starts that of another, the two pairs are equal |
| `MonthQuery.The31stIsDropped` | src/lib/db.ts:64-67 | a row dated `Y-MM-31` is never returned by the query as written |
| `MonthQuery.JanuaryThe31stIsDropped` | src/lib/db.ts:62-69 | concretely, a row dated `2024-01-31` is not returned for January 2024 |
| `MonthQuery.WholeMonthDays` | src/lib/db.ts:62-69 | with the upper bound included, the row for `Y-MM-DD` is returned exactly when DD is 01 to 31 |

## Left out

- The Dexie/IndexedDB engine (`src/lib/db.ts:1`, `16-24`): schema declaration, index upkeep, persistence and async I/O. A table is a sequence of rows in insertion order.
- Result order of the index scans. `where('subjectId').equals(...)` and the `[subjectId+date]` range return rows in index order, but the model returns them in table order. Only which rows are returned is stated.
- `FindByKey`: among several rows with the same `(subjectId, date)`, Dexie's `first()` picks the one with the smallest primary key. The model picks the first in table order. The difference matters only when `UniqueKeys` does not hold.
- Storage errors and transaction rollback. No operation fails in the model. `deleteSubject`'s transaction is one method.
- Store.AttendanceDB.MarkAttendance: `markAttendance` runs no transaction. Its lookup and its write are separate database requests, and the `[subjectId+date]` index is not unique. The method makes them one step, so `UniqueKeys` preservation (its last `ensures`, and `AttendanceTable.MarkKeepsUniqueKeys`) and `AttendanceTable.MarkIdempotent` hold only for calls that do not interleave. They are not guarantees of the program under concurrent calls. `AttendanceTable.InterleavedMarksDuplicateKey` shows how two overlapping calls on a new key leave it with two rows. Other interleavings of concurrent calls are not modelled.
- `crypto.randomUUID()` and `Date.now()`, which become parameters. A fresh id is a precondition, since `add` with an existing id would be rejected by the engine.
- `JsStrings.NumberToString`: year and month are integers. Non-integral numbers, `NaN`, and exponent notation for magnitudes of 10^21 and more are not modelled.
- `KeyOrder.StrLess`: strings are compared by Unicode code point, while IndexedDB compares UTF-16 code units. The two orders differ only between characters above U+FFFF and those in U+E000 to U+FFFF.
- `MonthQuery.MonthQueryExcludesOtherMonths`: stated for nonnegative years and months only, since a `-` in a negative number breaks the `Y-MM-` shape.
- A `status` that is `undefined` instead of `null` is not modelled. The TypeScript type rules it out.

## Findings

| source | as written | input that shows it | evidently intended | confidence | as-written member | corrected member |
|---|---|---|---|---|---|---|
| src/lib/db.ts:64-67 | the month range ends at `[subjectId, "Y-MM-31"]`, and Dexie's `between` leaves its upper bound out by default | a row dated `2024-01-31` is not returned by `getAttendanceForMonth(subjectId, 2024, 1)` | every day of the month, including the 31st, is returned (`between(lower, upper, true, true)`) | medium, not executed | `MonthQuery.JanuaryThe31stIsDropped` | `MonthQuery.WholeMonthDays` |
