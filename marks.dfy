/** The marks table of a subject: its rows (a name, a maximum and whether the row counts
    towards the grade), the marks students hold on those rows, and the log entries that
    teachers' changes leave behind. */
module Marks {
  import opened Common
  import opened Database
  import opened Middleware

  /** A handler's refusal: the status and the text it sends. */
  datatype Error = Error(status: int, message: string)

  /** The `typeof` tests a row body must pass: a string name, a number max, a boolean count. */
  predicate WellTyped(name: Option<Json>, max: Option<Json>, count: Option<Json>) {
    name.Some? && name.value.JStr? && max.Some? && max.value.JNum? && count.Some? && count.value.JBool?
  }

  /** Validation of a row body, shared by adding and editing a row: the types are checked
      first, then a falsy name or max is refused. */
  function RowBodyError(name: Option<Json>, max: Option<Json>, count: Option<Json>): (e: Option<string>)
    ensures e.None? <==> WellTyped(name, max, count) && Truthy(name) && Truthy(max)
    ensures !WellTyped(name, max, count) <==> e == Some("Invalid data types")
    ensures e.Some? ==> e.value in {"Invalid data types", "Missing required fields"}
  {
    if !(name.Some? && name.value.JStr?) || !(max.Some? && max.value.JNum?) || !(count.Some? && count.value.JBool?) then
      Some("Invalid data types")
    else if !Truthy(name) || !Truthy(max) then
      Some("Missing required fields")
    else
      None
  }

  /** A maximum of 0 is refused as missing, since 0 is falsy. */
  lemma ZeroMaxRefused(name: string, count: bool)
    ensures RowBodyError(Some(JStr(name)), Some(JNum(0)), Some(JBool(count))) == Some("Missing required fields")
  {
  }

  /** Nothing bounds the maximum from below: any non-zero maximum, negative ones
      included, is accepted with a non-empty name. */
  lemma NegativeMaxAccepted(name: string, max: int, count: bool)
    requires name != "" && max < 0
    ensures RowBodyError(Some(JStr(name)), Some(JNum(max)), Some(JBool(count))).None?
  {
  }

  function AddDetails(row: MarksRow): string {
    row.name + " added to marks table (max: " + IntToString(row.max) + ", count: " + BoolToString(row.count) + ")"
  }

  /** The text of an edit log entry. The handler builds a description of the changed
      fields with `concat` but discards the result, so only this base text remains. */
  function EditDetails(before: MarksRow): string {
    before.name + " row edited from marks table "
  }

  /** Adds a row to the marks table of `subject`. `isAdmin` is what `access` recorded. */
  method AddMarksTableRow(db: Db, actor: UserId, isAdmin: bool, school: SchoolId, subject: SubjectId,
                          name: Option<Json>, max: Option<Json>, count: Option<Json>)
    returns (r: Reply<(RowId, MarksRow)>)
    requires db.RowsValid() && Admitted(db.schoolMembers, actor, school, isAdmin)
    modifies db`rows, db`nextRowId, db`logs
    ensures db.RowsValid()
    ensures r.Ok? <==> TeachesOrAdmin(isAdmin, db.subjectMembers, actor, school, subject) &&
                       RowBodyError(name, max, count).None? && subject in db.subjects
    ensures !TeachesOrAdmin(isAdmin, db.subjectMembers, actor, school, subject) ==> r == Fail(403, "Forbidden")
    ensures TeachesOrAdmin(isAdmin, db.subjectMembers, actor, school, subject) && RowBodyError(name, max, count).Some? ==>
      r == Fail(400, RowBodyError(name, max, count).value)
    ensures (TeachesOrAdmin(isAdmin, db.subjectMembers, actor, school, subject) && RowBodyError(name, max, count).None? &&
             subject !in db.subjects) ==> r == Fail(500, StoreError)
    ensures r.Fail? ==> db.rows == old(db.rows) && db.logs == old(db.logs)
    ensures r.Ok? ==> (
      r.status == 201 && r.value.0 !in old(db.rows) &&
      r.value.1 == MarksRow(subject, name.value.s, max.value.n, count.value.b) &&
      db.rows == old(db.rows)[r.value.0 := r.value.1] &&
      db.logs == old(db.logs) + [Log(school, actor, subject, None, MarkTableAdd, AddDetails(r.value.1))])
  {
    if !TeachesOrAdmin(isAdmin, db.subjectMembers, actor, school, subject) {
      return Fail(403, "Forbidden");
    }
    var e := RowBodyError(name, max, count);
    if e.Some? {
      return Fail(400, e.value);
    }
    if subject !in db.subjects {
      // the row's foreign key to the subject is violated
      return Fail(500, StoreError);
    }
    var id := db.nextRowId;
    var row := MarksRow(subject, name.value.s, max.value.n, count.value.b);
    db.rows := db.rows[id := row];
    db.nextRowId := id + 1;
    db.logs := db.logs + [Log(school, actor, subject, None, MarkTableAdd, AddDetails(row))];
    r := Ok(201, (id, row));
  }

  /** Replaces the name, max and count of a row of `subject`. */
  method EditMarksTableRow(db: Db, actor: UserId, isAdmin: bool, school: SchoolId, subject: SubjectId, rowId: RowId,
                           name: Option<Json>, max: Option<Json>, count: Option<Json>)
    returns (r: Reply<MarksRow>)
    requires db.RowsValid() && Admitted(db.schoolMembers, actor, school, isAdmin)
    modifies db`rows, db`logs
    ensures db.RowsValid()
    ensures r.Ok? <==> TeachesOrAdmin(isAdmin, db.subjectMembers, actor, school, subject) &&
                       rowId in old(db.rows) && old(db.rows)[rowId].subject == subject && RowBodyError(name, max, count).None?
    ensures !TeachesOrAdmin(isAdmin, db.subjectMembers, actor, school, subject) ==> r == Fail(403, "Forbidden")
    ensures (TeachesOrAdmin(isAdmin, db.subjectMembers, actor, school, subject) &&
             (rowId !in old(db.rows) || old(db.rows)[rowId].subject != subject)) ==> r == Fail(404, "Row not found")
    ensures (TeachesOrAdmin(isAdmin, db.subjectMembers, actor, school, subject) &&
             rowId in old(db.rows) && old(db.rows)[rowId].subject == subject && RowBodyError(name, max, count).Some?) ==>
      r == Fail(400, RowBodyError(name, max, count).value)
    ensures r.Fail? ==> db.rows == old(db.rows) && db.logs == old(db.logs)
    ensures r.Ok? ==> (
      r.status == 200 &&
      r.value == old(db.rows)[rowId].(name := name.value.s, max := max.value.n, count := count.value.b) &&
      db.rows == old(db.rows)[rowId := r.value] &&
      db.logs == old(db.logs) + [Log(school, actor, subject, None, MarkTableEdit, EditDetails(old(db.rows)[rowId]))])
  {
    if !TeachesOrAdmin(isAdmin, db.subjectMembers, actor, school, subject) {
      return Fail(403, "Forbidden");
    }
    if rowId !in db.rows || db.rows[rowId].subject != subject {
      return Fail(404, "Row not found");
    }
    var row := db.rows[rowId];
    var e := RowBodyError(name, max, count);
    if e.Some? {
      return Fail(400, e.value);
    }
    var edited := row.(name := name.value.s, max := max.value.n, count := count.value.b);
    db.rows := db.rows[rowId := edited];
    db.logs := db.logs + [Log(school, actor, subject, None, MarkTableEdit, EditDetails(row))];
    r := Ok(200, edited);
  }

  /** One submitted mark: the row it is for and its value. */
  datatype MarkInput = MarkInput(rowId: int, value: int)

  /** The `marks` field of the body: falsy, present but not an array, or a list of marks. */
  datatype MarksBody = NoMarks | NotAnArray | Entries(marks: seq<MarkInput>)

  function RowIds(ms: seq<MarkInput>): (r: seq<int>)
    ensures |r| == |ms| && forall k :: 0 <= k < |ms| ==> r[k] == ms[k].rowId
  {
    seq(|ms|, k requires 0 <= k < |ms| => ms[k].rowId)
  }

  /** How many entries of `s` equal `x` (the length of the `filter` in the handler). */
  function Occurrences(s: seq<int>, x: int): nat {
    |set j | 0 <= j < |s| && s[j] == x|
  }

  /** A list has no repeats exactly when every entry occurs once. */
  lemma {:induction false} NoDupOccurrences(s: seq<int>)
    ensures NoDup(s) <==> forall k :: 0 <= k < |s| ==> Occurrences(s, s[k]) <= 1
  {
    if NoDup(s) {
      forall k | 0 <= k < |s| ensures Occurrences(s, s[k]) <= 1 {
        assert (set j | 0 <= j < |s| && s[j] == s[k]) == {k};
      }
    } else {
      var i, j :| 0 <= i < j < |s| && s[i] == s[j];
      SubsetCard({i, j}, set m | 0 <= m < |s| && s[m] == s[i]);
      assert Occurrences(s, s[i]) > 1;
    }
  }

  /** `rowId` names a row of the subject's table. */
  predicate InTable(rows: map<RowId, MarksRow>, subject: SubjectId, rowId: int) {
    rowId >= 1 && rowId as RowId in rows && rows[rowId as RowId].subject == subject
  }

  /** The checks the handler makes on the mark at index `k`, in their order. */
  function MarkCheck(ms: seq<MarkInput>, rows: map<RowId, MarksRow>, subject: SubjectId, k: nat): (e: Option<Error>)
    requires k < |ms|
    ensures e.None? <==> InTable(rows, subject, ms[k].rowId) && Occurrences(RowIds(ms), ms[k].rowId) <= 1 &&
                         ms[k].value <= rows[ms[k].rowId as RowId].max
  {
    var m := ms[k];
    if !InTable(rows, subject, m.rowId) then
      Some(Error(404, "Row id " + IntToString(m.rowId) + " not found"))
    else if Occurrences(RowIds(ms), m.rowId) > 1 then
      Some(Error(400, "Duplicate marks found"))
    else if m.value > rows[m.rowId as RowId].max then
      Some(Error(400, "Mark value " + IntToString(m.value) + " is greater than the max " +
                      IntToString(rows[m.rowId as RowId].max) + " of the row"))
    else
      None
  }

  /** The first failing check from index `from` on: the first bad mark decides the error. */
  function FirstError(ms: seq<MarkInput>, rows: map<RowId, MarksRow>, subject: SubjectId, from: nat): Option<Error>
    requires from <= |ms|
    decreases |ms| - from
  {
    if from == |ms| then None
    else if MarkCheck(ms, rows, subject, from).Some? then MarkCheck(ms, rows, subject, from)
    else FirstError(ms, rows, subject, from + 1)
  }

  /** The marks every row of which is in the subject's table, with a value no greater than
      the row's max. */
  predicate WithinTable(ms: seq<MarkInput>, rows: map<RowId, MarksRow>, subject: SubjectId) {
    forall k :: 0 <= k < |ms| ==> InTable(rows, subject, ms[k].rowId) && ms[k].value <= rows[ms[k].rowId as RowId].max
  }

  lemma {:induction false} FirstErrorNone(ms: seq<MarkInput>, rows: map<RowId, MarksRow>, subject: SubjectId, from: nat)
    requires from <= |ms|
    ensures FirstError(ms, rows, subject, from).None? <==> forall k :: from <= k < |ms| ==> MarkCheck(ms, rows, subject, k).None?
    decreases |ms| - from
  {
    if from < |ms| {
      FirstErrorNone(ms, rows, subject, from + 1);
    }
  }

  /** A submission passes validation exactly when every row is in the subject's table, no
      row is listed twice and no value exceeds its row's max; no lower bound is checked. */
  lemma MarksAccepted(ms: seq<MarkInput>, rows: map<RowId, MarksRow>, subject: SubjectId)
    ensures FirstError(ms, rows, subject, 0).None? <==> WithinTable(ms, rows, subject) && NoDup(RowIds(ms))
  {
    FirstErrorNone(ms, rows, subject, 0);
    NoDupOccurrences(RowIds(ms));
    var ids := RowIds(ms);
    forall k | 0 <= k < |ms|
      ensures MarkCheck(ms, rows, subject, k).None? <==>
        (InTable(rows, subject, ms[k].rowId) && ms[k].value <= rows[ms[k].rowId as RowId].max) && Occurrences(ids, ids[k]) <= 1
    {
      assert ids[k] == ms[k].rowId;
    }
  }

  /** The validation loop of the handler. */
  method ValidateMarks(ms: seq<MarkInput>, rows: map<RowId, MarksRow>, subject: SubjectId) returns (e: Option<Error>)
    ensures e == FirstError(ms, rows, subject, 0)
  {
    var ids := RowIds(ms);
    for i := 0 to |ms|
      invariant FirstError(ms, rows, subject, 0) == FirstError(ms, rows, subject, i)
    {
      var m := ms[i];
      if !(m.rowId >= 1 && m.rowId as RowId in rows && rows[m.rowId as RowId].subject == subject) {
        return Some(Error(404, "Row id " + IntToString(m.rowId) + " not found"));
      }
      var row := rows[m.rowId as RowId];
      if Occurrences(ids, m.rowId) > 1 {
        return Some(Error(400, "Duplicate marks found"));
      }
      if m.value > row.max {
        return Some(Error(400, "Mark value " + IntToString(m.value) + " is greater than the max " +
                               IntToString(row.max) + " of the row"));
      }
    }
    e := None;
  }

  /** A line of the change log: the row, the value before (0 when there was no mark) and after. */
  datatype Change = Change(rowName: string, oldValue: int, newValue: int)

  /** The student's stored mark on a row, reading a missing mark as 0. */
  function Stored(marks: map<(UserId, RowId), int>, student: UserId, rowId: RowId): int {
    if (student, rowId) in marks then marks[(student, rowId)] else 0
  }

  predicate AllRows(ms: seq<MarkInput>, rows: map<RowId, MarksRow>) {
    forall k :: 0 <= k < |ms| ==> ms[k].rowId >= 1 && ms[k].rowId as RowId in rows
  }

  /** What the diff loop records for one mark: a new non-zero mark, or a stored mark
      that changes. */
  function EntryFor(m: MarkInput, marks: map<(UserId, RowId), int>, student: UserId, rows: map<RowId, MarksRow>): seq<Change>
    requires m.rowId >= 1 && m.rowId as RowId in rows
  {
    var id := m.rowId as RowId;
    if (student, id) !in marks && m.value != 0 then [Change(rows[id].name, 0, m.value)]
    else if (student, id) in marks && marks[(student, id)] != m.value then [Change(rows[id].name, marks[(student, id)], m.value)]
    else []
  }

  /** The change of one mark as the log reports it. */
  function ChangeOf(m: MarkInput, marks: map<(UserId, RowId), int>, student: UserId, rows: map<RowId, MarksRow>): Change
    requires m.rowId >= 1 && m.rowId as RowId in rows
  {
    Change(rows[m.rowId as RowId].name, Stored(marks, student, m.rowId as RowId), m.value)
  }

  /** A mark has a diff entry exactly when its value differs from the stored one (0 when
      absent), and the entry reports that stored value. */
  lemma EntryRule(m: MarkInput, marks: map<(UserId, RowId), int>, student: UserId, rows: map<RowId, MarksRow>)
    requires m.rowId >= 1 && m.rowId as RowId in rows
    ensures EntryFor(m, marks, student, rows) ==
      if Stored(marks, student, m.rowId as RowId) != m.value then [ChangeOf(m, marks, student, rows)] else []
  {
  }

  /** The diff of a submission, in the order of the marks. */
  function Diff(ms: seq<MarkInput>, marks: map<(UserId, RowId), int>, student: UserId, rows: map<RowId, MarksRow>): seq<Change>
    requires AllRows(ms, rows)
  {
    if ms == [] then []
    else Diff(ms[..|ms| - 1], marks, student, rows) + EntryFor(ms[|ms| - 1], marks, student, rows)
  }

  /** Every diff entry is the real change of a listed mark, and every listed mark whose
      value changes has its entry. */
  lemma {:induction false} DiffExact(ms: seq<MarkInput>, marks: map<(UserId, RowId), int>, student: UserId, rows: map<RowId, MarksRow>)
    requires AllRows(ms, rows)
    ensures forall c :: c in Diff(ms, marks, student, rows) ==>
      c.oldValue != c.newValue && exists k :: 0 <= k < |ms| && c == ChangeOf(ms[k], marks, student, rows)
    ensures forall k :: 0 <= k < |ms| && Stored(marks, student, ms[k].rowId as RowId) != ms[k].value ==>
      ChangeOf(ms[k], marks, student, rows) in Diff(ms, marks, student, rows)
    ensures |Diff(ms, marks, student, rows)| <= |ms|
  {
    if ms != [] {
      var n := |ms| - 1;
      var init := ms[..n];
      assert forall k :: 0 <= k < n ==> init[k] == ms[k];
      DiffExact(init, marks, student, rows);
      EntryRule(ms[n], marks, student, rows);
      var d := Diff(ms, marks, student, rows);
      assert d == Diff(init, marks, student, rows) + EntryFor(ms[n], marks, student, rows);
      forall c | c in d
        ensures c.oldValue != c.newValue && exists k :: 0 <= k < |ms| && c == ChangeOf(ms[k], marks, student, rows)
      {
        if c !in Diff(init, marks, student, rows) {
          assert c == ChangeOf(ms[n], marks, student, rows);
        } else {
          var k :| 0 <= k < |init| && c == ChangeOf(init[k], marks, student, rows);
          assert c == ChangeOf(ms[k], marks, student, rows);
        }
      }
      forall k | 0 <= k < |ms| && Stored(marks, student, ms[k].rowId as RowId) != ms[k].value
        ensures ChangeOf(ms[k], marks, student, rows) in d
      {
        if k < n {
          assert ChangeOf(init[k], marks, student, rows) in Diff(init, marks, student, rows);
        }
      }
    }
  }

  /** The student's marks once the listed ones are replaced by the submitted values. */
  function Overwrite(marks: map<(UserId, RowId), int>, student: UserId, ms: seq<MarkInput>): map<(UserId, RowId), int>
    requires forall k :: 0 <= k < |ms| ==> ms[k].rowId >= 1
  {
    if ms == [] then marks
    else Overwrite(marks, student, ms[..|ms| - 1])[(student, ms[|ms| - 1].rowId as RowId) := ms[|ms| - 1].value]
  }

  /** When no row is listed twice, the student's marks on the listed rows become the
      submitted values. */
  lemma {:induction false} OverwriteListed(marks: map<(UserId, RowId), int>, student: UserId, ms: seq<MarkInput>)
    requires forall k :: 0 <= k < |ms| ==> ms[k].rowId >= 1
    requires NoDup(RowIds(ms))
    ensures forall k :: 0 <= k < |ms| ==>
      (student, ms[k].rowId as RowId) in Overwrite(marks, student, ms) &&
      Overwrite(marks, student, ms)[(student, ms[k].rowId as RowId)] == ms[k].value
  {
    if ms != [] {
      var n := |ms| - 1;
      var init := ms[..n];
      assert forall k :: 0 <= k < n ==> init[k] == ms[k];
      assert RowIds(init) == RowIds(ms)[..n];
      OverwriteListed(marks, student, init);
      forall k | 0 <= k < n ensures ms[k].rowId != ms[n].rowId {
        assert RowIds(ms)[k] == ms[k].rowId && RowIds(ms)[n] == ms[n].rowId;
      }
    }
  }

  /** Every other mark, the student's own on rows not listed included, is kept. */
  lemma {:induction false} OverwriteKeeps(marks: map<(UserId, RowId), int>, student: UserId, ms: seq<MarkInput>, p: (UserId, RowId))
    requires forall k :: 0 <= k < |ms| ==> ms[k].rowId >= 1
    requires p.0 != student || p.1 as int !in RowIds(ms)
    ensures p in Overwrite(marks, student, ms) <==> p in marks
    ensures p in marks ==> Overwrite(marks, student, ms)[p] == marks[p]
  {
    if ms != [] {
      var n := |ms| - 1;
      assert RowIds(ms[..n]) == RowIds(ms)[..n];
      assert RowIds(ms)[n] == ms[n].rowId;
      OverwriteKeeps(marks, student, ms[..n], p);
    }
  }

  function ChangeDetails(c: Change): string {
    "Mark changed from " + IntToString(c.oldValue) + " to " + IntToString(c.newValue) + " on row " + c.rowName
  }

  function ChangeLog(c: Change, school: SchoolId, actor: UserId, subject: SubjectId, student: UserId): Log {
    Log(school, actor, subject, Some(student), MarkChange, ChangeDetails(c))
  }

  /** One `MARK_CHANGE` log per diff entry, in order. */
  function ChangeLogs(cs: seq<Change>, school: SchoolId, actor: UserId, subject: SubjectId, student: UserId): seq<Log> {
    seq(|cs|, k requires 0 <= k < |cs| => ChangeLog(cs[k], school, actor, subject, student))
  }

  /** The diff loop of the handler. */
  method DiffMarks(ms: seq<MarkInput>, marks: map<(UserId, RowId), int>, student: UserId, rows: map<RowId, MarksRow>)
    returns (changes: seq<Change>)
    requires AllRows(ms, rows)
    ensures changes == Diff(ms, marks, student, rows)
  {
    changes := [];
    for i := 0 to |ms|
      invariant changes == Diff(ms[..i], marks, student, rows)
    {
      var m := ms[i];
      var id := m.rowId as RowId;
      var rowName := rows[id].name;
      if (student, id) !in marks && m.value != 0 {
        changes := changes + [Change(rowName, 0, m.value)];
      } else if (student, id) in marks && marks[(student, id)] != m.value {
        changes := changes + [Change(rowName, marks[(student, id)], m.value)];
      }
      assert ms[..i + 1][..i] == ms[..i];
    }
    assert ms[..|ms|] == ms;
  }

  /** The subject membership `studentId` names. */
  function StudentMember(db: Db, student: int, school: SchoolId, subject: SubjectId): Option<SubjectMember>
    reads db`subjectMembers
  {
    FirstSubjectMember(db.subjectMembers, student, school, subject)
  }

  /** The caller teaches the subject or administers the school, and `student` names a
      student membership of the subject: the guards before the body is read. */
  predicate MayMark(db: Db, actor: UserId, isAdmin: bool, school: SchoolId, subject: SubjectId, student: int)
    reads db`subjectMembers
  {
    TeachesOrAdmin(isAdmin, db.subjectMembers, actor, school, subject) &&
    StudentMember(db, student, school, subject).Some? &&
    StudentMember(db, student, school, subject).value.role == SubjectStudent
  }

  /** Replaces a student's marks on the listed rows, logging one change per changed mark. */
  method AddMarksToStudentTable(db: Db, actor: UserId, isAdmin: bool, school: SchoolId, subject: SubjectId,
                                student: int, body: MarksBody)
    returns (r: Reply<int>)
    requires Admitted(db.schoolMembers, actor, school, isAdmin)
    modifies db`marks, db`logs
    ensures !TeachesOrAdmin(isAdmin, db.subjectMembers, actor, school, subject) ==> r == Fail(403, "Forbidden")
    ensures (TeachesOrAdmin(isAdmin, db.subjectMembers, actor, school, subject) &&
             StudentMember(db, student, school, subject).None?) ==> r == Fail(404, "Student not found")
    ensures (TeachesOrAdmin(isAdmin, db.subjectMembers, actor, school, subject) &&
             StudentMember(db, student, school, subject).Some? &&
             StudentMember(db, student, school, subject).value.role != SubjectStudent) ==> r == Fail(403, "Forbidden")
    ensures MayMark(db, actor, isAdmin, school, subject, student) && body.NoMarks? ==>
      r == Fail(400, "Missing required fields")
    ensures MayMark(db, actor, isAdmin, school, subject, student) && body.NotAnArray? ==>
      r == Fail(400, "Invalid data types")
    ensures MayMark(db, actor, isAdmin, school, subject, student) && body.Entries? &&
            FirstError(body.marks, db.rows, subject, 0).Some? ==>
      r == Fail(FirstError(body.marks, db.rows, subject, 0).value.status, FirstError(body.marks, db.rows, subject, 0).value.message)
    ensures r.Ok? <==> (
      MayMark(db, actor, isAdmin, school, subject, student) &&
      body.Entries? && FirstError(body.marks, db.rows, subject, 0).None?)
    ensures r.Fail? ==> db.marks == old(db.marks) && db.logs == old(db.logs)
    ensures r.Ok? ==> (
      student >= 1 && AllRows(body.marks, db.rows) && NoDup(RowIds(body.marks)) && r == Ok(200, |body.marks|) &&
      db.marks == Overwrite(old(db.marks), student, body.marks) &&
      db.logs == old(db.logs) + ChangeLogs(Diff(body.marks, old(db.marks), student, db.rows), school, actor, subject, student))
  {
    if !TeachesOrAdmin(isAdmin, db.subjectMembers, actor, school, subject) {
      return Fail(403, "Forbidden");
    }
    var member := StudentMember(db, student, school, subject);
    if member.None? {
      return Fail(404, "Student not found");
    }
    if member.value.role != SubjectStudent {
      return Fail(403, "Forbidden");
    }
    if body.NoMarks? {
      return Fail(400, "Missing required fields");
    }
    if body.NotAnArray? {
      return Fail(400, "Invalid data types");
    }
    var ms := body.marks;
    var e := ValidateMarks(ms, db.rows, subject);
    if e.Some? {
      return Fail(e.value.status, e.value.message);
    }
    MarksAccepted(ms, db.rows, subject);
    ApplyMarks(db, actor, school, subject, member.value.user, ms);
    r := Ok(200, |ms|);
  }

  /** The writes of an accepted submission: the diff against the stored marks, the
      replacement of the listed marks and the change logs. */
  method ApplyMarks(db: Db, actor: UserId, school: SchoolId, subject: SubjectId, student: UserId, ms: seq<MarkInput>)
    requires AllRows(ms, db.rows)
    modifies db`marks, db`logs
    ensures db.marks == Overwrite(old(db.marks), student, ms)
    ensures db.logs == old(db.logs) + ChangeLogs(Diff(ms, old(db.marks), student, db.rows), school, actor, subject, student)
  {
    var changes := DiffMarks(ms, db.marks, student, db.rows);
    db.marks := Overwrite(db.marks, student, ms);
    WriteChangeLogs(db, changes, school, actor, subject, student);
  }

  /** `logs` is `before` followed by the logs of the first `i` changes. */
  predicate LoggedUpTo(logs: seq<Log>, before: seq<Log>, changes: seq<Change>, i: nat,
                       school: SchoolId, actor: UserId, subject: SubjectId, student: UserId)
    requires i <= |changes|
  {
    |logs| == |before| + i && logs[..|before|] == before &&
    forall k :: 0 <= k < i ==> logs[|before| + k] == ChangeLog(changes[k], school, actor, subject, student)
  }

  lemma LogStep(logs: seq<Log>, before: seq<Log>, changes: seq<Change>, i: nat,
                school: SchoolId, actor: UserId, subject: SubjectId, student: UserId)
    requires i < |changes| && LoggedUpTo(logs, before, changes, i, school, actor, subject, student)
    ensures LoggedUpTo(logs + [ChangeLog(changes[i], school, actor, subject, student)], before, changes, i + 1,
                       school, actor, subject, student)
  {
    var next := logs + [ChangeLog(changes[i], school, actor, subject, student)];
    assert next[..|before|] == logs[..|before|];
    forall k | 0 <= k < i + 1
      ensures next[|before| + k] == ChangeLog(changes[k], school, actor, subject, student)
    {
      if k < i { assert next[|before| + k] == logs[|before| + k]; }
    }
  }

  lemma LoggedAll(logs: seq<Log>, before: seq<Log>, changes: seq<Change>,
                  school: SchoolId, actor: UserId, subject: SubjectId, student: UserId)
    requires LoggedUpTo(logs, before, changes, |changes|, school, actor, subject, student)
    ensures logs == before + ChangeLogs(changes, school, actor, subject, student)
  {
    var want := before + ChangeLogs(changes, school, actor, subject, student);
    forall k | 0 <= k < |logs| ensures logs[k] == want[k] {
      if k < |before| { assert logs[k] == logs[..|before|][k]; }
    }
  }

  /** The log loop of the handler: one `MARK_CHANGE` entry per change, in order. */
  method WriteChangeLogs(db: Db, changes: seq<Change>, school: SchoolId, actor: UserId, subject: SubjectId, student: UserId)
    modifies db`logs
    ensures db.logs == old(db.logs) + ChangeLogs(changes, school, actor, subject, student)
  {
    ghost var before := db.logs;
    assert db.logs[..|before|] == before;
    for i := 0 to |changes|
      invariant LoggedUpTo(db.logs, before, changes, i, school, actor, subject, student)
    {
      LogStep(db.logs, before, changes, i, school, actor, subject, student);
      db.logs := db.logs + [ChangeLog(changes[i], school, actor, subject, student)];
    }
    LoggedAll(db.logs, before, changes, school, actor, subject, student);
  }
}
