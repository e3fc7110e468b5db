/** Attendance sessions of a subject, as the teachers' side of the school controller
    sees them: who of the subject's students attended a session and who did not. The
    device side, which records attendances, is in `Devices`. */
module Sessions {
  import opened Common
  import opened Database
  import opened Middleware

  /** The first attendance of `u` at `session`, in store order (the `find` of the handlers). */
  function FirstAttendance(atts: seq<Attendance>, session: int, u: int): (r: Option<Attendance>)
    ensures r.None? <==> forall k :: 0 <= k < |atts| ==> !(atts[k].session == session && atts[k].user == u)
    ensures r.Some? ==> r.value.session == session && r.value.user == u
    ensures r.Some? ==> exists i :: 0 <= i < |atts| && atts[i] == r.value &&
                                    forall k :: 0 <= k < i ==> !(atts[k].session == session && atts[k].user == u)
  {
    if atts == [] then None
    else if atts[0].session == session && atts[0].user == u then Some(atts[0])
    else
      var r := FirstAttendance(atts[1..], session, u);
      assert forall k :: 1 <= k < |atts| ==> atts[k] == atts[1..][k - 1];
      r
  }

  /** The student memberships of `subject`, in store order. The query filters on the
      subject and the role only. */
  function StudentsOf(ms: seq<SubjectMember>, subject: SubjectId): (r: seq<SubjectMember>)
    ensures forall m :: m in r <==> m in ms && m.subject == subject && m.role == SubjectStudent
    ensures |r| <= |ms|
  {
    if ms == [] then []
    else
      var rest := StudentsOf(ms[1..], subject);
      assert forall m :: m in ms <==> m == ms[0] || m in ms[1..];
      if ms[0].subject == subject && ms[0].role == SubjectStudent then [ms[0]] + rest else rest
  }

  /** One line of the attendance list: the student, the attendance if there is one, and
      whether the student attended. */
  datatype AttendanceLine = AttendanceLine(user: UserId, attendanceId: Option<AttendanceId>, attended: bool)

  function LineFor(m: SubjectMember, atts: seq<Attendance>, session: SessionId): AttendanceLine {
    var a := FirstAttendance(atts, session, m.user);
    AttendanceLine(m.user, if a.Some? then Some(a.value.id) else None, a.Some?)
  }

  /** The `map` over the students of the subject. */
  function AttendanceList(students: seq<SubjectMember>, atts: seq<Attendance>, session: SessionId): seq<AttendanceLine> {
    seq(|students|, k requires 0 <= k < |students| => LineFor(students[k], atts, session))
  }

  /** Every student of the list appears once per membership, in order, marked as attended
      exactly when an attendance of the student at the session exists, and then with the
      id of that attendance. */
  lemma AttendanceListExact(students: seq<SubjectMember>, atts: seq<Attendance>, session: SessionId, k: nat)
    requires k < |students|
    ensures |AttendanceList(students, atts, session)| == |students|
    ensures AttendanceList(students, atts, session)[k].user == students[k].user
    ensures AttendanceList(students, atts, session)[k].attended <==>
      exists a :: a in atts && a.session == session && a.user == students[k].user
    ensures AttendanceList(students, atts, session)[k].attended <==> AttendanceList(students, atts, session)[k].attendanceId.Some?
    ensures AttendanceList(students, atts, session)[k].attendanceId.Some? ==>
      exists a :: a in atts && a.id == AttendanceList(students, atts, session)[k].attendanceId.value &&
                  a.session == session && a.user == students[k].user
  {
    var line := AttendanceList(students, atts, session)[k];
    var u := students[k].user;
    if exists a :: a in atts && a.session == session && a.user == u {
      var a :| a in atts && a.session == session && a.user == u;
      var i :| 0 <= i < |atts| && atts[i] == a;
      assert FirstAttendance(atts, session, u).Some?;
    }
  }

  /** The session belongs to the subject. */
  predicate SessionOf(sessions: map<SessionId, Session>, session: SessionId, subject: SubjectId) {
    session in sessions && sessions[session].subject == subject
  }

  /** `getAttendanceSessionAttendersAndNonAttenders`: the subject's students with their
      attendance at the session. Open to the school's administrators and the subject's
      teachers. */
  method GetAttendersAndNonAttenders(db: Db, actor: UserId, isAdmin: bool, school: SchoolId, subject: SubjectId, session: SessionId)
    returns (r: Reply<seq<AttendanceLine>>)
    requires Admitted(db.schoolMembers, actor, school, isAdmin)
    ensures !TeachesOrAdmin(isAdmin, db.subjectMembers, actor, school, subject) ==> r == Fail(403, "Forbidden")
    ensures TeachesOrAdmin(isAdmin, db.subjectMembers, actor, school, subject) && !SessionOf(db.sessions, session, subject) ==>
      r == Fail(404, "Session not found")
    ensures r.Ok? <==> TeachesOrAdmin(isAdmin, db.subjectMembers, actor, school, subject) && SessionOf(db.sessions, session, subject)
    ensures r.Ok? ==> r == Ok(200, AttendanceList(StudentsOf(db.subjectMembers, subject), db.attendances, session))
  {
    if !TeachesOrAdmin(isAdmin, db.subjectMembers, actor, school, subject) {
      return Fail(403, "Forbidden");
    }
    if session !in db.sessions || db.sessions[session].subject != subject {
      return Fail(404, "Session not found");
    }
    var students := StudentsOf(db.subjectMembers, subject);
    r := Ok(200, AttendanceList(students, db.attendances, session));
  }
}
