/** The device controller: a fingerprint reader signs in with a credential of one
    school and then reads the school's students, the open sessions of a subject, the
    students still to attend a session and the fingerprints of a subject's members, and
    records attendances. `school` is always the school of the signed-in device. */
module Devices {
  import opened Common
  import opened Database
  import opened Sessions

  // ------------------------------------------------------ loginDeviceToCredential

  /** A credential as the device receives it: everything but the password hash. */
  datatype CredentialView = CredentialView(id: Id, credentialId: string, school: SchoolId)

  /** The first credential with the given public id, in store order. */
  function FindCredential(cs: seq<DeviceCredential>, credentialId: string): (r: Option<DeviceCredential>)
    ensures r.None? <==> forall k :: 0 <= k < |cs| ==> cs[k].credentialId != credentialId
    ensures r.Some? ==> r.value.credentialId == credentialId
    ensures r.Some? ==> exists i :: 0 <= i < |cs| && cs[i] == r.value && forall k :: 0 <= k < i ==> cs[k].credentialId != credentialId
  {
    if cs == [] then None
    else if cs[0].credentialId == credentialId then Some(cs[0])
    else
      var r := FindCredential(cs[1..], credentialId);
      assert forall k :: 1 <= k < |cs| ==> cs[k] == cs[1..][k - 1];
      r
  }

  /** Signs a device in. `matches(password, hash)` stands for the bcrypt comparison; the
      token the handler puts in the `Authorization` header is not modelled. */
  function LoginDevice(cs: seq<DeviceCredential>, id: string, password: string, matches: (string, string) -> bool)
    : (r: Reply<CredentialView>)
    ensures (id == "" || password == "") ==> r == Fail(400, "Missing required fields")
    ensures r.Ok? <==> id != "" && password != "" && FindCredential(cs, id).Some? &&
                       matches(password, FindCredential(cs, id).value.hashedPassword)
    ensures r.Ok? ==> (
      r.status == 200 &&
      exists c :: c in cs && c.credentialId == id && matches(password, c.hashedPassword) &&
                  r.value == CredentialView(c.id, c.credentialId, c.school))
  {
    if id == "" || password == "" then Fail(400, "Missing required fields")
    else
      var c := FindCredential(cs, id);
      if c.None? then Fail(400, "Incorrect id or password")
      else if !matches(password, c.value.hashedPassword) then Fail(400, "Incorrect id or password")
      else Ok(200, CredentialView(c.value.id, c.value.credentialId, c.value.school))
  }

  /** An unknown id and a wrong password get the same reply, so the reply does not tell
      which of the two was wrong. */
  lemma DeviceLoginUniformError(cs: seq<DeviceCredential>, id: string, password: string, matches: (string, string) -> bool)
    requires id != "" && password != ""
    ensures LoginDevice(cs, id, password, matches).Fail? ==>
      LoginDevice(cs, id, password, matches) == Fail(400, "Incorrect id or password")
  {
  }

  // ------------------------------------------------------------------ getStudents

  /** A user as the device receives it: without the password hash and the verification flag. */
  datatype UserView = UserView(id: UserId, fullName: string, email: string)

  function StudentView(u: User): UserView {
    UserView(u.id, u.fullName, u.email)
  }

  /** `getStudents`: the accounts of the school's students, in store order. */
  function Students(users: seq<User>, members: map<(UserId, SchoolId), Role>, school: SchoolId): (r: seq<UserView>)
    ensures |r| <= |users|
    ensures forall v :: v in r <==>
      exists u :: u in users && SchoolRoleOf(members, u.id, school) == Some(Student) && v == StudentView(u)
  {
    if users == [] then []
    else
      var rest := Students(users[1..], members, school);
      assert forall u :: u in users <==> u == users[0] || u in users[1..];
      if SchoolRoleOf(members, users[0].id, school) == Some(Student) then [StudentView(users[0])] + rest else rest
  }

  /** An account is listed exactly when its user is a student of the school: teachers,
      admins and members of other schools are not. */
  lemma StudentsListed(users: seq<User>, members: map<(UserId, SchoolId), Role>, school: SchoolId, u: User)
    requires u in users
    ensures (exists k :: 0 <= k < |Students(users, members, school)| && Students(users, members, school)[k].id == u.id) <==>
            SchoolRoleOf(members, u.id, school) == Some(Student)
  {
    var r := Students(users, members, school);
    if SchoolRoleOf(members, u.id, school) == Some(Student) {
      assert StudentView(u) in r;
      var k :| 0 <= k < |r| && r[k] == StudentView(u);
      assert 0 <= k < |Students(users, members, school)| && Students(users, members, school)[k].id == u.id;
    } else {
      forall k | 0 <= k < |r| ensures r[k].id != u.id {
        assert r[k] in r;
      }
    }
  }

  /** With distinct account ids no account is listed twice. */
  lemma {:induction false} StudentsOnce(users: seq<User>, members: map<(UserId, SchoolId), Role>, school: SchoolId)
    requires forall a, b :: 0 <= a < b < |users| ==> users[a].id != users[b].id
    ensures forall i, j :: 0 <= i < j < |Students(users, members, school)| ==>
      Students(users, members, school)[i].id != Students(users, members, school)[j].id
  {
    if users != [] {
      var rest := Students(users[1..], members, school);
      StudentsOnce(users[1..], members, school);
      if SchoolRoleOf(members, users[0].id, school) == Some(Student) {
        forall j | 0 <= j < |rest| ensures rest[j].id != users[0].id {
          assert rest[j] in rest;
          var u :| u in users[1..] && rest[j] == StudentView(u);
          var k :| 0 <= k < |users[1..]| && users[1..][k] == u;
          assert users[k + 1] == u;
        }
        var r := [StudentView(users[0])] + rest;
        assert Students(users, members, school) == r;
        forall i, j | 0 <= i < j < |r| ensures r[i].id != r[j].id {
          if i == 0 {
            assert r[j] == rest[j - 1];
          } else {
            assert r[i] == rest[i - 1] && r[j] == rest[j - 1];
          }
        }
      }
    }
  }

  // ----------------------------------------------------------- getSubjectSessions

  /** The subject exists and belongs to the device's school. */
  predicate SubjectOf(subjects: map<SubjectId, Subject>, subject: SubjectId, school: SchoolId) {
    subject in subjects && subjects[subject].school == school
  }

  /** A session has expired once its expiration instant lies before `now`. */
  predicate Expired(s: Session, now: int) {
    s.expiration < now
  }

  /** `getSubjectSessions`: the sessions of the subject whose expiration is `now` or later. */
  function OpenSessions(sessions: map<SessionId, Session>, subject: SubjectId, now: int): map<SessionId, Session> {
    map s | s in sessions && sessions[s].subject == subject && sessions[s].expiration >= now :: sessions[s]
  }

  method GetSubjectSessions(db: Db, school: SchoolId, subject: SubjectId, now: int) returns (r: Reply<map<SessionId, Session>>)
    ensures !SubjectOf(db.subjects, subject, school) ==> r == Fail(404, "Subject not found")
    ensures SubjectOf(db.subjects, subject, school) ==> r == Ok(200, OpenSessions(db.sessions, subject, now))
  {
    if subject !in db.subjects || db.subjects[subject].school != school {
      return Fail(404, "Subject not found");
    }
    r := Ok(200, OpenSessions(db.sessions, subject, now));
  }

  /** The listing and the attendance check share one boundary: a session is listed exactly
      when it belongs to the subject and an attendance would not be refused as expired; it is
      listed as stored; at its expiration instant it is both listed and still accepted. */
  lemma ExpiryBoundary(sessions: map<SessionId, Session>, subject: SubjectId, s: SessionId, now: int)
    ensures s in OpenSessions(sessions, subject, now) <==>
            s in sessions && sessions[s].subject == subject && !Expired(sessions[s], now)
    ensures s in OpenSessions(sessions, subject, now) ==> OpenSessions(sessions, subject, now)[s] == sessions[s]
    ensures s in sessions && sessions[s].subject == subject && now == sessions[s].expiration ==>
            s in OpenSessions(sessions, subject, now) && !Expired(sessions[s], now)
  {
  }

  // --------------------------------------------------------- getStudentsBySession

  /** The session exists and its subject is a subject of the device's school. */
  predicate SessionInSchool(db: Db, session: SessionId, school: SchoolId)
    reads db`sessions, db`subjects
  {
    session in db.sessions && SubjectOf(db.subjects, db.sessions[session].subject, school)
  }

  /** The memberships of the subject, in store order, whatever their role. */
  function MembersOf(ms: seq<SubjectMember>, subject: SubjectId): (r: seq<SubjectMember>)
    ensures forall m :: m in r <==> m in ms && m.subject == subject
  {
    if ms == [] then []
    else
      var rest := MembersOf(ms[1..], subject);
      assert forall m :: m in ms <==> m == ms[0] || m in ms[1..];
      if ms[0].subject == subject then [ms[0]] + rest else rest
  }

  predicate HoldsMembership(ms: seq<SubjectMember>, u: UserId) {
    exists m :: m in ms && m.user == u
  }

  /** The members of `ms` with no attendance at the session, in order. */
  function Absent(ms: seq<SubjectMember>, atts: seq<Attendance>, session: SessionId): seq<UserId> {
    if ms == [] then []
    else
      var init := Absent(ms[..|ms| - 1], atts, session);
      if FirstAttendance(atts, session, ms[|ms| - 1].user).None? then init + [ms[|ms| - 1].user] else init
  }

  /** A user is listed exactly when the user holds a membership of `ms` and has not
      attended the session. */
  lemma {:induction false} AbsentExact(ms: seq<SubjectMember>, atts: seq<Attendance>, session: SessionId)
    ensures forall u :: u in Absent(ms, atts, session) <==>
      HoldsMembership(ms, u) && forall a :: a in atts ==> !(a.session == session && a.user == u)
    ensures |Absent(ms, atts, session)| <= |ms|
  {
    if ms != [] {
      var init := ms[..|ms| - 1];
      var last := ms[|ms| - 1];
      AbsentExact(init, atts, session);
      assert ms == init + [last];
      forall u ensures HoldsMembership(ms, u) <==> HoldsMembership(init, u) || last.user == u {
        if HoldsMembership(ms, u) {
          var m :| m in ms && m.user == u;
          assert m in init || m == last;
        }
      }
    }
  }

  /** No user holds two of the memberships. */
  predicate DistinctUsers(ms: seq<SubjectMember>) {
    forall i, j :: 0 <= i < j < |ms| ==> ms[i].user != ms[j].user
  }

  /** With one membership per user and subject, and every membership of the subject in
      the subject's school, the subject's memberships belong to distinct users. */
  lemma {:induction false} MembersOfDistinct(ms: seq<SubjectMember>, subject: SubjectId, school: SchoolId)
    requires OneMembershipEach(ms)
    requires forall k :: 0 <= k < |ms| && ms[k].subject == subject ==> ms[k].school == school
    ensures DistinctUsers(MembersOf(ms, subject))
  {
    if ms != [] {
      var tail := ms[1..];
      assert forall k :: 0 <= k < |tail| ==> tail[k] == ms[k + 1];
      MembersOfDistinct(tail, subject, school);
      var rest := MembersOf(tail, subject);
      if ms[0].subject == subject {
        forall j | 0 <= j < |rest| ensures rest[j].user != ms[0].user {
          assert rest[j] in rest;
          var k :| 0 <= k < |tail| && tail[k] == rest[j];
          assert !IsMembership(ms[k + 1], ms[0].user, ms[0].school, ms[0].subject);
        }
        var r := [ms[0]] + rest;
        forall i, j | 0 <= i < j < |r| ensures r[i].user != r[j].user {
          if i == 0 {
            assert r[j] == rest[j - 1];
          } else {
            assert r[i] == rest[i - 1] && r[j] == rest[j - 1];
          }
        }
      }
    }
  }

  /** Memberships of distinct users give a list without repeats. */
  lemma {:induction false} AbsentOnce(ms: seq<SubjectMember>, atts: seq<Attendance>, session: SessionId)
    requires DistinctUsers(ms)
    ensures NoDup(Absent(ms, atts, session))
  {
    if ms != [] {
      var init := ms[..|ms| - 1];
      var last := ms[|ms| - 1];
      AbsentOnce(init, atts, session);
      AbsentExact(init, atts, session);
      var a := Absent(init, atts, session);
      if FirstAttendance(atts, session, last.user).None? {
        forall i | 0 <= i < |a| ensures a[i] != last.user {
          assert a[i] in a;
          var m :| m in init && m.user == a[i];
          var k :| 0 <= k < |init| && init[k] == m;
          assert ms[k] == m;
        }
        var r := a + [last.user];
        forall i, j | 0 <= i < j < |r| ensures r[i] != r[j] {
          if j < |a| {
            assert r[i] == a[i] && r[j] == a[j];
          } else {
            assert r[i] == a[i];
          }
        }
      }
    }
  }

  /** `getStudentsBySession`: the subject's members, of any role, that have not attended
      the session, in member order. */
  method GetStudentsBySession(db: Db, school: SchoolId, session: SessionId) returns (r: Reply<seq<UserId>>)
    ensures !SessionInSchool(db, session, school) ==> r == Fail(404, "Session not found")
    ensures SessionInSchool(db, session, school) ==>
      r == Ok(200, Absent(MembersOf(db.subjectMembers, db.sessions[session].subject), db.attendances, session))
  {
    if session !in db.sessions {
      return Fail(404, "Session not found");
    }
    var s := db.sessions[session];
    if s.subject !in db.subjects || db.subjects[s.subject].school != school {
      return Fail(404, "Session not found");
    }
    var members := MembersOf(db.subjectMembers, s.subject);
    var response: seq<UserId> := [];
    for i := 0 to |members|
      invariant response == Absent(members[..i], db.attendances, session)
    {
      assert members[..i + 1][..i] == members[..i];
      var attended := FirstAttendance(db.attendances, session, members[i].user);
      if attended.None? {
        response := response + [members[i].user];
      }
    }
    assert members[..|members|] == members;
    r := Ok(200, response);
  }

  // -------------------------------------------------------------- getFingerprints

  /** The user ids of the memberships, in order (the `memberIds` the handler collects). */
  function UserIds(ms: seq<SubjectMember>): (r: seq<UserId>)
    ensures |r| == |ms| && forall k :: 0 <= k < |ms| ==> r[k] == ms[k].user
  {
    if ms == [] then [] else UserIds(ms[..|ms| - 1]) + [ms[|ms| - 1].user]
  }

  /** The fingerprints of the listed users that belong to `school`, in store order. */
  function FingerprintsOf(fps: seq<Fingerprint>, ids: seq<UserId>, school: SchoolId): (r: seq<Fingerprint>)
    ensures forall f :: f in r <==> f in fps && f.user in ids && f.school == school
  {
    if fps == [] then []
    else
      var rest := FingerprintsOf(fps[1..], ids, school);
      assert forall f :: f in fps <==> f == fps[0] || f in fps[1..];
      if fps[0].user in ids && fps[0].school == school then [fps[0]] + rest else rest
  }

  /** `getFingerprints`: the fingerprints, recorded in the device's school, of the users
      that hold a membership of the subject. */
  method GetFingerprints(db: Db, school: SchoolId, subject: SubjectId) returns (r: Reply<seq<Fingerprint>>)
    ensures !SubjectOf(db.subjects, subject, school) ==> r == Fail(404, "Subject not found")
    ensures SubjectOf(db.subjects, subject, school) ==> r.Ok? && r.status == 200
    ensures r.Ok? ==> forall f :: f in r.value <==>
      f in db.fingerprints && f.school == school && exists m :: m in db.subjectMembers && m.subject == subject && m.user == f.user
  {
    if subject !in db.subjects {
      return Fail(404, "Subject not found");
    }
    if db.subjects[subject].school != school {
      return Fail(404, "Subject not found");
    }
    var members := MembersOf(db.subjectMembers, subject);
    var memberIds: seq<UserId> := [];
    for i := 0 to |members|
      invariant memberIds == UserIds(members[..i])
    {
      assert members[..i + 1][..i] == members[..i];
      memberIds := memberIds + [members[i].user];
    }
    assert members[..|members|] == members;
    var found := FingerprintsOf(db.fingerprints, memberIds, school);
    forall f | f in db.fingerprints
      ensures f.user in memberIds <==> exists m :: m in db.subjectMembers && m.subject == subject && m.user == f.user
    {
      if f.user in memberIds {
        var k :| 0 <= k < |memberIds| && memberIds[k] == f.user;
        assert members[k] in members;
      }
      if exists m :: m in db.subjectMembers && m.subject == subject && m.user == f.user {
        var m :| m in db.subjectMembers && m.subject == subject && m.user == f.user;
        var k :| 0 <= k < |members| && members[k] == m;
        assert memberIds[k] == f.user;
      }
    }
    r := Ok(200, found);
  }

  // ---------------------------------------------------------------- addAttendance

  /** The student already has an attendance at the session. */
  predicate HasAttendance(atts: seq<Attendance>, session: SessionId, u: UserId) {
    FirstAttendance(atts, session, u).Some?
  }

  /** Records that a student attended a session. `studentId` is the body field (`None`
      when absent) and `now` the current instant. The checks run in this order and the
      first to fail decides the reply: the session is the school's, a student id is
      given, the student belongs to the school (in any role), no attendance exists yet,
      and the session has not expired. */
  method AddAttendance(db: Db, school: SchoolId, session: SessionId, studentId: Option<int>, now: int)
    returns (r: Reply<Attendance>)
    requires db.AttendanceValid()
    modifies db`attendances, db`nextAttendanceId
    ensures db.AttendanceValid()
    ensures !SessionInSchool(db, session, school) ==> r == Fail(404, "Session not found")
    ensures SessionInSchool(db, session, school) && (studentId.None? || studentId.value == 0) ==>
      r == Fail(400, "Missing required fields")
    ensures (SessionInSchool(db, session, school) && studentId.Some? && studentId.value != 0 &&
             !(studentId.value >= 1 && (studentId.value as UserId, school) in db.schoolMembers)) ==>
      r == Fail(404, "Student not found")
    ensures (SessionInSchool(db, session, school) && studentId.Some? && studentId.value >= 1 &&
             (studentId.value as UserId, school) in db.schoolMembers &&
             HasAttendance(old(db.attendances), session, studentId.value as UserId)) ==>
      r == Fail(400, "Attendance already added")
    ensures (SessionInSchool(db, session, school) && studentId.Some? && studentId.value >= 1 &&
             (studentId.value as UserId, school) in db.schoolMembers &&
             !HasAttendance(old(db.attendances), session, studentId.value as UserId) &&
             Expired(db.sessions[session], now)) ==>
      r == Fail(400, "Session expired")
    ensures r.Ok? <==> (
      SessionInSchool(db, session, school) && studentId.Some? && studentId.value >= 1 &&
      (studentId.value as UserId, school) in db.schoolMembers &&
      !HasAttendance(old(db.attendances), session, studentId.value as UserId) && !Expired(db.sessions[session], now))
    ensures r.Fail? ==> db.attendances == old(db.attendances)
    ensures r.Ok? ==> (
      r.status == 200 && r.value.session == session && r.value.user == studentId.value &&
      db.attendances == old(db.attendances) + [r.value])
  {
    if session !in db.sessions || db.sessions[session].subject !in db.subjects ||
       db.subjects[db.sessions[session].subject].school != school {
      return Fail(404, "Session not found");
    }
    var s := db.sessions[session];
    if studentId.None? || studentId.value == 0 {
      return Fail(400, "Missing required fields");
    }
    if !(studentId.value >= 1 && (studentId.value as UserId, school) in db.schoolMembers) {
      return Fail(404, "Student not found");
    }
    var student: UserId := studentId.value as UserId;
    var existing := FirstAttendance(db.attendances, session, student);
    if existing.Some? {
      return Fail(400, "Attendance already added");
    }
    if s.expiration < now {
      return Fail(400, "Session expired");
    }
    var a := Attendance(db.nextAttendanceId, session, student);
    db.attendances := db.attendances + [a];
    db.nextAttendanceId := db.nextAttendanceId + 1;
    r := Ok(200, a);
  }

  /** A second attendance of the same student at the same session is refused. */
  method AttendTwice(db: Db, school: SchoolId, session: SessionId, studentId: Option<int>, now: int, later: int)
    returns (first: Reply<Attendance>, second: Reply<Attendance>)
    requires db.AttendanceValid()
    modifies db`attendances, db`nextAttendanceId
    ensures first.Ok? ==> second == Fail(400, "Attendance already added")
  {
    first := AddAttendance(db, school, session, studentId, now);
    if first.Ok? {
      assert db.attendances[|db.attendances| - 1] == first.value;
    }
    second := AddAttendance(db, school, session, studentId, later);
  }
}
