/** The store behind the handlers: one class whose fields are the tables the backend
    reads and writes. Tables whose rows the handlers read "in store order" are
    sequences; tables with a unique key are maps; the pure membership table of groups
    is a set of pairs. */
module Database {
  import opened Common
  import opened Hierarchy

  datatype User = User(id: UserId, fullName: string, email: string, hashedPassword: Option<string>, isEmailVerified: bool)

  datatype Subject = Subject(name: string, school: SchoolId)

  datatype SubjectMember = SubjectMember(user: UserId, subject: SubjectId, school: SchoolId, role: SubjectRole)

  datatype Invite = Invite(school: SchoolId, role: Role)

  datatype AdmissionStatus = Pending | Accepted | Rejected

  datatype Admission = Admission(user: UserId, token: string, school: SchoolId, role: Role, status: AdmissionStatus)

  datatype MarksRow = MarksRow(subject: SubjectId, name: string, max: int, count: bool)

  /** `expiration` is the session's expiration instant in milliseconds. */
  datatype Session = Session(subject: SubjectId, name: string, expiration: int)

  datatype Attendance = Attendance(id: AttendanceId, session: SessionId, user: UserId)

  datatype Fingerprint = Fingerprint(id: FingerprintId, user: UserId, school: SchoolId)

  datatype DeviceCredential = DeviceCredential(id: Id, credentialId: string, hashedPassword: string, school: SchoolId)

  /** `createdAt` and `resetAt` are instants in milliseconds. */
  datatype ResetToken = ResetToken(user: UserId, createdAt: int, resetAt: Option<int>)

  datatype LogAction = MarkTableAdd | MarkTableEdit | MarkChange

  datatype Log = Log(school: SchoolId, author: UserId, subject: SubjectId, user: Option<UserId>, action: LogAction, details: string)

  class Db {
    var users: seq<User>
    var nextUserId: UserId
    var activateTokens: map<string, UserId>
    var resetTokens: map<string, ResetToken>
    /** One row per (user, school): the user's role in that school. */
    var schoolMembers: map<(UserId, SchoolId), Role>
    var subjects: map<SubjectId, Subject>
    var subjectMembers: seq<SubjectMember>
    var groups: Groups
    var nextGroupId: GroupId
    /** Witness that the parent links of `groups` never form a cycle. */
    ghost var rank: map<GroupId, nat>
    var groupMembers: set<(UserId, GroupId)>
    var invites: map<string, Invite>
    var admissions: map<AdmissionId, Admission>
    var nextAdmissionId: AdmissionId
    var rows: map<RowId, MarksRow>
    var nextRowId: RowId
    /** One mark per (student, row). */
    var marks: map<(UserId, RowId), int>
    var sessions: map<SessionId, Session>
    var attendances: seq<Attendance>
    var nextAttendanceId: AttendanceId
    var fingerprints: seq<Fingerprint>
    var credentials: seq<DeviceCredential>
    var logs: seq<Log>

    /** The group table is a forest whose parent links all resolve, and fresh group
        ids are above every id in use. */
    ghost predicate GroupsValid()
      reads this`groups, this`rank, this`nextGroupId
    {
      Ranked(groups, rank) && Closed(groups) && forall g | g in groups :: g < nextGroupId
    }

    ghost predicate AdmissionsValid()
      reads this`admissions, this`nextAdmissionId
    {
      forall a | a in admissions :: a < nextAdmissionId
    }

    ghost predicate RowsValid()
      reads this`rows, this`nextRowId
    {
      forall r | r in rows :: r < nextRowId
    }

    /** Attendance ids are fresh, and a student attends a session at most once. */
    ghost predicate AttendanceValid()
      reads this`attendances, this`nextAttendanceId
    {
      (forall i | 0 <= i < |attendances| :: attendances[i].id < nextAttendanceId) &&
      (forall i, j | 0 <= i < j < |attendances| ::
        attendances[i].id != attendances[j].id &&
        (attendances[i].session, attendances[i].user) != (attendances[j].session, attendances[j].user))
    }

    /** User ids are fresh and distinct, and no two accounts share an email. */
    ghost predicate UsersValid()
      reads this`users, this`nextUserId
    {
      (forall i | 0 <= i < |users| :: users[i].id < nextUserId) &&
      (forall i, j | 0 <= i < j < |users| :: users[i].id != users[j].id && users[i].email != users[j].email)
    }

    ghost predicate Valid()
      reads this
    {
      GroupsValid() && AdmissionsValid() && RowsValid() && AttendanceValid() && UsersValid()
    }

    constructor ()
      ensures Valid()
      ensures users == [] && activateTokens == map[] && resetTokens == map[]
      ensures schoolMembers == map[] && subjects == map[] && subjectMembers == []
      ensures groups == map[] && groupMembers == {} && invites == map[] && admissions == map[]
      ensures rows == map[] && marks == map[] && sessions == map[] && attendances == []
      ensures fingerprints == [] && credentials == [] && logs == []
    {
      users, nextUserId, activateTokens, resetTokens := [], 1, map[], map[];
      schoolMembers, subjects, subjectMembers := map[], map[], [];
      groups, nextGroupId, rank, groupMembers := map[], 1, map[], {};
      invites, admissions, nextAdmissionId := map[], map[], 1;
      rows, nextRowId, marks := map[], 1, map[];
      sessions, attendances, nextAttendanceId := map[], [], 1;
      fingerprints, credentials, logs := [], [], [];
    }
  }

  /** The ids of the users that belong to `school`, in any role. */
  function SchoolMemberIds(members: map<(UserId, SchoolId), Role>, school: SchoolId): (r: set<int>)
    ensures forall u: UserId :: u in r <==> (u, school) in members
    ensures forall x :: x in r ==> x >= 1
  {
    set p | p in members.Keys && p.1 == school :: p.0 as int
  }

  /** The role of a user in a school, as the `schools` relation of a user projects it. */
  function SchoolRoleOf(members: map<(UserId, SchoolId), Role>, u: UserId, school: SchoolId): Option<Role> {
    if (u, school) in members then Some(members[(u, school)]) else None
  }

  predicate IsMembership(m: SubjectMember, u: int, school: SchoolId, subject: int) {
    m.user == u && m.school == school && m.subject == subject
  }

  /** No user holds two memberships of the same subject. */
  predicate OneMembershipEach(ms: seq<SubjectMember>) {
    forall i, j :: 0 <= i < j < |ms| ==> !IsMembership(ms[j], ms[i].user, ms[i].school, ms[i].subject)
  }

  /** The first subject membership of `u` in `subject` of `school`, as `findFirst` returns it. */
  function FirstSubjectMember(ms: seq<SubjectMember>, u: int, school: SchoolId, subject: int): (r: Option<SubjectMember>)
    ensures r.None? <==> forall k :: 0 <= k < |ms| ==> !IsMembership(ms[k], u, school, subject)
    ensures r.Some? ==> IsMembership(r.value, u, school, subject)
    ensures r.Some? ==> exists k :: 0 <= k < |ms| && ms[k] == r.value && forall j :: 0 <= j < k ==> !IsMembership(ms[j], u, school, subject)
  {
    if ms == [] then None
    else if IsMembership(ms[0], u, school, subject) then Some(ms[0])
    else
      var r := FirstSubjectMember(ms[1..], u, school, subject);
      assert forall k :: 1 <= k < |ms| ==> ms[k] == ms[1..][k - 1];
      r
  }
}
