/** How users enter and leave a school and its subjects: invitation tokens, the
    admission requests they lead to and their review, removal from a school with
    everything that hangs on the membership, assignment to a subject, and the role
    counts of the school page. */
module Membership {
  import opened Common
  import opened Hierarchy
  import opened Database
  import opened Middleware

  /** The text of the exception raised when a handler calls `toLowerCase` on a body field
      `field` that is not a string. */
  function NotAFunction(field: string): string {
    field + ".toLowerCase is not a function"
  }

  /** The role an invitation grants for the role word of the request, compared without
      regard to case. */
  function InviteRole(word: string): (r: Option<Role>)
    ensures r == Some(Student) <==> AsciiLower(word) == "student"
    ensures r == Some(Teacher) <==> AsciiLower(word) == "teacher"
    ensures r == Some(Admin) <==> AsciiLower(word) == "admin"
    ensures r.None? <==> AsciiLower(word) !in {"student", "teacher", "admin"}
  {
    var w := AsciiLower(word);
    if w == "student" then Some(Student)
    else if w == "teacher" then Some(Teacher)
    else if w == "admin" then Some(Admin)
    else None
  }

  /** No role word makes an invitation that grants the super administrator role. */
  lemma InviteNeverSuperAdmin(word: string)
    ensures InviteRole(word) != Some(SuperAdmin)
  {
  }

  // ----------------------------------------------------------------- inviteUser

  /** Creates an invitation to the school. `token` is the random token the handler
      generates. */
  method InviteUser(db: Db, actor: UserId, school: SchoolId, role: Option<Json>, token: string)
    returns (r: Reply<(string, Invite)>)
    requires IsSchoolAdmin(db.schoolMembers, actor, school)
    modifies db`invites
    ensures !Truthy(role) ==> r == Fail(400, "Missing required fields")
    ensures Truthy(role) && !role.value.JStr? ==> r == Fail(500, NotAFunction("role"))
    ensures (Truthy(role) && role.value.JStr? && InviteRole(role.value.s).None?) ==> r == Fail(400, "Invalid role name")
    ensures (Truthy(role) && role.value.JStr? && InviteRole(role.value.s).Some? && token in old(db.invites)) ==>
      r == Fail(500, StoreError)
    ensures r.Ok? <==> Truthy(role) && role.value.JStr? && InviteRole(role.value.s).Some? && token !in old(db.invites)
    ensures r.Fail? ==> db.invites == old(db.invites)
    ensures r.Ok? ==> (
      r == Ok(200, (token, Invite(school, InviteRole(role.value.s).value))) &&
      db.invites == old(db.invites)[token := r.value.1])
  {
    if !Truthy(role) {
      return Fail(400, "Missing required fields");
    }
    if !role.value.JStr? {
      return Fail(500, NotAFunction("role"));
    }
    var granted := InviteRole(role.value.s);
    if granted.None? {
      return Fail(400, "Invalid role name");
    }
    if token in db.invites {
      // the token column is unique
      return Fail(500, StoreError);
    }
    var invite := Invite(school, granted.value);
    db.invites := db.invites[token := invite];
    r := Ok(200, (token, invite));
  }

  // ----------------------------------------------------------- acceptInvitation

  /** The user has an admission request to the school still waiting for review. */
  predicate HasPending(admissions: map<AdmissionId, Admission>, u: UserId, school: SchoolId) {
    exists a | a in admissions :: admissions[a].user == u && admissions[a].school == school && admissions[a].status == Pending
  }

  /** At most one request per user and school waits for review. */
  ghost predicate PendingUnique(admissions: map<AdmissionId, Admission>) {
    forall a, b | a in admissions && b in admissions && a != b ::
      !(admissions[a].status == Pending && admissions[b].status == Pending &&
        admissions[a].user == admissions[b].user && admissions[a].school == admissions[b].school)
  }

  /** Turns an invitation into an admission request of the signed-in user. */
  method AcceptInvitation(db: Db, actor: UserId, token: string) returns (r: Reply<(AdmissionId, Admission)>)
    requires db.AdmissionsValid() && PendingUnique(db.admissions)
    modifies db`admissions, db`nextAdmissionId
    ensures db.AdmissionsValid() && PendingUnique(db.admissions)
    ensures token !in db.invites ==> r == Fail(404, "Invitation not found")
    ensures token in db.invites && (actor, db.invites[token].school) in db.schoolMembers ==>
      r == Fail(403, "You are already in this school")
    ensures (token in db.invites && (actor, db.invites[token].school) !in db.schoolMembers &&
             HasPending(old(db.admissions), actor, db.invites[token].school)) ==>
      r == Fail(403, "You already sent an admission request to this school")
    ensures r.Ok? <==>
      token in db.invites && (actor, db.invites[token].school) !in db.schoolMembers &&
      !HasPending(old(db.admissions), actor, db.invites[token].school)
    ensures r.Fail? ==> db.admissions == old(db.admissions)
    ensures r.Ok? ==> (
      r.status == 200 && r.value.0 !in old(db.admissions) &&
      r.value.1 == Admission(actor, token, db.invites[token].school, db.invites[token].role, Pending) &&
      db.admissions == old(db.admissions)[r.value.0 := r.value.1])
  {
    if token !in db.invites {
      return Fail(404, "Invitation not found");
    }
    var invite := db.invites[token];
    if (actor, invite.school) in db.schoolMembers {
      return Fail(403, "You are already in this school");
    }
    if HasPending(db.admissions, actor, invite.school) {
      return Fail(403, "You already sent an admission request to this school");
    }
    var id := db.nextAdmissionId;
    var admission := Admission(actor, token, invite.school, invite.role, Pending);
    db.admissions := db.admissions[id := admission];
    db.nextAdmissionId := id + 1;
    r := Ok(200, (id, admission));
  }

  /** Accepting the same invitation a second time is refused while the first request
      waits. */
  method AcceptTwice(db: Db, actor: UserId, token: string)
    returns (first: Reply<(AdmissionId, Admission)>, second: Reply<(AdmissionId, Admission)>)
    requires db.AdmissionsValid() && PendingUnique(db.admissions)
    modifies db`admissions, db`nextAdmissionId
    ensures first.Ok? ==> second == Fail(403, "You already sent an admission request to this school")
  {
    first := AcceptInvitation(db, actor, token);
    second := AcceptInvitation(db, actor, token);
  }

  // ------------------------------------------------------------ admissionReview

  /** The decision a review word stands for, compared without regard to case. */
  function Decision(word: string): (d: Option<AdmissionStatus>)
    ensures d == Some(Accepted) <==> AsciiLower(word) == "accept"
    ensures d == Some(Rejected) <==> AsciiLower(word) == "reject"
    ensures d != Some(Pending)
  {
    var w := AsciiLower(word);
    if w == "accept" then Some(Accepted) else if w == "reject" then Some(Rejected) else None
  }

  /** The admission exists and is a request to `school`. */
  predicate OwnedAdmission(admissions: map<AdmissionId, Admission>, id: AdmissionId, school: SchoolId) {
    id in admissions && admissions[id].school == school
  }

  /** Every check of a review passes: the admission is the school's, the word is a
      decision and the admission was not accepted before. */
  predicate ReviewAllowed(admissions: map<AdmissionId, Admission>, id: AdmissionId, school: SchoolId, status: Option<Json>) {
    OwnedAdmission(admissions, id, school) && Truthy(status) && status.value.JStr? &&
    Decision(status.value.s).Some? && admissions[id].status != Accepted
  }

  /** Accepts or rejects an admission request. Accepting adds the user to the school with
      the invitation's role; an accepted request cannot be reviewed again. The status is
      written before the membership: when the user already belongs to the school the
      insert fails after the status has changed. */
  method AdmissionReview(db: Db, actor: UserId, school: SchoolId, id: AdmissionId, status: Option<Json>)
    returns (r: Reply<Admission>)
    requires IsSchoolAdmin(db.schoolMembers, actor, school) && PendingUnique(db.admissions)
    modifies db`admissions, db`schoolMembers
    ensures PendingUnique(db.admissions)
    ensures !OwnedAdmission(old(db.admissions), id, school) ==> r == Fail(403, "Forbidden")
    ensures OwnedAdmission(old(db.admissions), id, school) && !Truthy(status) ==> r == Fail(400, "Missing required fields")
    ensures (OwnedAdmission(old(db.admissions), id, school) && Truthy(status) && !status.value.JStr?) ==>
      r == Fail(500, NotAFunction("status"))
    ensures (OwnedAdmission(old(db.admissions), id, school) && Truthy(status) && status.value.JStr? &&
             Decision(status.value.s).None?) ==> r == Fail(400, "Invalid status")
    ensures (OwnedAdmission(old(db.admissions), id, school) && Truthy(status) && status.value.JStr? &&
             Decision(status.value.s).Some? && old(db.admissions)[id].status == Accepted) ==>
      r == Fail(400, "User is already in this school")
    ensures !ReviewAllowed(old(db.admissions), id, school, status) ==>
      db.admissions == old(db.admissions) && db.schoolMembers == old(db.schoolMembers)
    ensures ReviewAllowed(old(db.admissions), id, school, status) ==> (
      var a := old(db.admissions)[id];
      var d := Decision(status.value.s).value;
      db.admissions == old(db.admissions)[id := a.(status := d)] &&
      (d == Rejected ==> r == Ok(200, a.(status := d)) && db.schoolMembers == old(db.schoolMembers)) &&
      (d == Accepted && (a.user, school) in old(db.schoolMembers) ==>
        r == Fail(500, StoreError) && db.schoolMembers == old(db.schoolMembers)) &&
      (d == Accepted && (a.user, school) !in old(db.schoolMembers) ==>
        r == Ok(200, a.(status := d)) && db.schoolMembers == old(db.schoolMembers)[(a.user, school) := a.role]))
  {
    if id !in db.admissions || db.admissions[id].school != school {
      return Fail(403, "Forbidden");
    }
    if !Truthy(status) {
      return Fail(400, "Missing required fields");
    }
    if !status.value.JStr? {
      return Fail(500, NotAFunction("status"));
    }
    var d := Decision(status.value.s);
    if d.None? {
      return Fail(400, "Invalid status");
    }
    var a := db.admissions[id];
    if a.status == Accepted {
      return Fail(400, "User is already in this school");
    }
    var updated := a.(status := d.value);
    db.admissions := db.admissions[id := updated];
    if d.value == Accepted {
      if (a.user, a.school) in db.schoolMembers {
        // the (user, school) membership is unique
        return Fail(500, StoreError);
      }
      db.schoolMembers := db.schoolMembers[(a.user, a.school) := a.role];
    }
    r := Ok(200, updated);
  }

  /** Once a review has accepted a request, any further review of it fails and changes
      nothing. */
  method ReviewAfterAccept(db: Db, actor: UserId, school: SchoolId, id: AdmissionId, status: Option<Json>, again: Option<Json>)
    returns (first: Reply<Admission>, second: Reply<Admission>, ghost afterFirst: map<AdmissionId, Admission>)
    requires IsSchoolAdmin(db.schoolMembers, actor, school) && PendingUnique(db.admissions)
    modifies db`admissions, db`schoolMembers
    ensures first.Ok? && first.value.status == Accepted ==> second.Fail? && db.admissions == afterFirst
  {
    first := AdmissionReview(db, actor, school, id, status);
    afterFirst := db.admissions;
    if IsSchoolAdmin(db.schoolMembers, actor, school) {
      second := AdmissionReview(db, actor, school, id, again);
    } else {
      second := Fail(403, "Forbidden");
    }
  }

  // ----------------------------------------------------------- removeFromSchool

  /** The groups of the school. */
  function SchoolGroups(gs: Groups, school: SchoolId): set<GroupId> {
    set g | g in gs && gs[g].school == school
  }

  /** The `groupIds` loop: the ids of the school's groups, each once. */
  method SchoolGroupIds(db: Db, school: SchoolId) returns (ids: seq<GroupId>)
    ensures Elems(ids) == SchoolGroups(db.groups, school) && NoDup(ids)
  {
    ids := [];
    var all := SchoolGroups(db.groups, school);
    var left := all;
    while left != {}
      invariant left <= all && Elems(ids) == all - left
      invariant NoDup(ids)
      decreases |left|
    {
      var g :| g in left;
      ElemsAppend(ids, g);
      NoDupSnoc(ids, g);
      ids := ids + [g];
      left := left - {g};
    }
  }

  /** The subject memberships left once those of `us` in `school` are deleted. */
  function DropMembers(ms: seq<SubjectMember>, us: set<UserId>, school: SchoolId): (r: seq<SubjectMember>)
    ensures forall m :: m in r <==> m in ms && !(m.user in us && m.school == school)
    ensures |r| <= |ms|
  {
    if ms == [] then []
    else
      var rest := DropMembers(ms[1..], us, school);
      assert forall m :: m in ms <==> m == ms[0] || m in ms[1..];
      if ms[0].user in us && ms[0].school == school then rest else [ms[0]] + rest
  }

  /** Removes the listed users from the school: their subject memberships in the school,
      their memberships of the school's groups and their school memberships go; replies
      with the number of school memberships deleted. */
  method RemoveFromSchool(db: Db, actor: UserId, school: SchoolId, userIds: Option<Json>) returns (r: Reply<int>)
    requires IsSchoolAdmin(db.schoolMembers, actor, school)
    modifies db`subjectMembers, db`groupMembers, db`schoolMembers
    ensures !Truthy(userIds) ==> r == Fail(400, "Missing required fields")
    ensures Truthy(userIds) && NumberArray(userIds).None? ==> r == Fail(400, "Invalid user ids")
    ensures (Truthy(userIds) && NumberArray(userIds).Some? &&
             !IdsListed(NumberArray(userIds).value, SchoolMemberIds(old(db.schoolMembers), school))) ==>
      r == Fail(404, "A user or some users provided are not in that school or not found")
    ensures r.Ok? <==> (Truthy(userIds) && NumberArray(userIds).Some? &&
      IdsListed(NumberArray(userIds).value, SchoolMemberIds(old(db.schoolMembers), school)))
    ensures r.Fail? ==> db.subjectMembers == old(db.subjectMembers) && db.groupMembers == old(db.groupMembers) &&
                        db.schoolMembers == old(db.schoolMembers)
    ensures r.Ok? ==> (
      var us := Elems(AsIds(NumberArray(userIds).value));
      r == Ok(200, |NumberArray(userIds).value|) &&
      db.subjectMembers == DropMembers(old(db.subjectMembers), us, school) &&
      db.groupMembers == set p | p in old(db.groupMembers) && !(p.0 in us && p.1 in SchoolGroups(db.groups, school)) &&
      db.schoolMembers == old(db.schoolMembers) - (set u | u in us :: (u, school)))
    ensures r.Ok? ==> forall u: UserId :: u in NumberArray(userIds).value ==>
      (u, school) !in db.schoolMembers &&
      (forall g :: g in SchoolGroups(db.groups, school) ==> (u, g) !in db.groupMembers) &&
      (forall m :: m in db.subjectMembers ==> !(m.user == u && m.school == school))
    ensures forall p :: p in old(db.schoolMembers) && p.1 != school ==> p in db.schoolMembers && db.schoolMembers[p] == old(db.schoolMembers)[p]
  {
    if !Truthy(userIds) {
      return Fail(400, "Missing required fields");
    }
    var ids := NumberArray(userIds);
    if ids.None? {
      return Fail(400, "Invalid user ids");
    }
    var members := SchoolMemberIds(db.schoolMembers, school);
    CountGuard(ids.value, members);
    if |Elems(ids.value) * members| != |ids.value| {
      return Fail(404, "A user or some users provided are not in that school or not found");
    }
    DropUsers(db, Elems(AsIds(ids.value)), school);
    r := Ok(200, |ids.value|);
  }

  /** The three deletions of `removeFromSchool` for the users `us`. */
  method DropUsers(db: Db, us: set<UserId>, school: SchoolId)
    modifies db`subjectMembers, db`groupMembers, db`schoolMembers
    ensures db.subjectMembers == DropMembers(old(db.subjectMembers), us, school)
    ensures db.groupMembers == set p | p in old(db.groupMembers) && !(p.0 in us && p.1 in SchoolGroups(db.groups, school))
    ensures db.schoolMembers == old(db.schoolMembers) - (set u | u in us :: (u, school))
  {
    db.subjectMembers := DropMembers(db.subjectMembers, us, school);
    var groupIds := SchoolGroupIds(db, school);
    db.groupMembers := set p | p in db.groupMembers && !(p.0 in us && p.1 in Elems(groupIds));
    db.schoolMembers := db.schoolMembers - (set u | u in us :: (u, school));
  }

  // ------------------------------------------------------------ assignToSubject

  /** The subject role a role word stands for, compared without regard to case. */
  function SubjectRoleWord(word: string): (r: Option<SubjectRole>)
    ensures r == Some(SubjectStudent) <==> AsciiLower(word) == "student"
    ensures r == Some(SubjectTeacher) <==> AsciiLower(word) == "teacher"
  {
    var w := AsciiLower(word);
    if w == "student" then Some(SubjectStudent) else if w == "teacher" then Some(SubjectTeacher) else None
  }

  /** The listed users that have no membership in the subject yet, in list order. */
  function Unassigned(ids: seq<UserId>, ms: seq<SubjectMember>, school: SchoolId, subject: SubjectId): seq<UserId> {
    if ids == [] then []
    else
      var rest := Unassigned(ids[1..], ms, school, subject);
      if FirstSubjectMember(ms, ids[0], school, subject).None? then [ids[0]] + rest else rest
  }

  /** A listed user is kept exactly when the user has no membership in the subject, and
      each is kept at its place in the list. */
  lemma {:induction false} UnassignedExact(ids: seq<UserId>, ms: seq<SubjectMember>, school: SchoolId, subject: SubjectId)
    ensures forall u :: u in Unassigned(ids, ms, school, subject) <==>
      u in ids && forall k :: 0 <= k < |ms| ==> !IsMembership(ms[k], u, school, subject)
    ensures |Unassigned(ids, ms, school, subject)| <= |ids|
    ensures NoDup(ids) ==> NoDup(Unassigned(ids, ms, school, subject))
  {
    if ids != [] {
      UnassignedExact(ids[1..], ms, school, subject);
      assert forall u :: u in ids <==> u == ids[0] || u in ids[1..];
      if NoDup(ids) {
        assert NoDup(ids[1..]) by {
          forall i, j | 0 <= i < j < |ids| - 1 ensures ids[1..][i] != ids[1..][j] {
            assert ids[1..][i] == ids[i + 1] && ids[1..][j] == ids[j + 1];
          }
        }
        assert ids[0] !in ids[1..] by {
          forall k | 0 <= k < |ids| - 1 ensures ids[1..][k] != ids[0] {
            assert ids[1..][k] == ids[k + 1];
          }
        }
        NoDupCons(ids[0], Unassigned(ids[1..], ms, school, subject));
      }
    }
  }

  lemma NoDupSnoc<T>(s: seq<T>, x: T)
    requires NoDup(s) && x !in Elems(s)
    ensures NoDup(s + [x])
  {
  }

  lemma NoDupCons<T>(x: T, s: seq<T>)
    requires NoDup(s) && x !in s
    ensures NoDup([x] + s)
  {
    forall i, j | 0 <= i < j < |s| + 1 ensures ([x] + s)[i] != ([x] + s)[j] {
      if i == 0 {
        assert ([x] + s)[j] == s[j - 1];
      } else {
        assert ([x] + s)[i] == s[i - 1] && ([x] + s)[j] == s[j - 1];
      }
    }
  }

  /** The memberships `createMany` inserts. */
  function NewMembers(us: seq<UserId>, subject: SubjectId, school: SchoolId, role: SubjectRole): seq<SubjectMember> {
    seq(|us|, k requires 0 <= k < |us| => SubjectMember(us[k], subject, school, role))
  }

  /** Assigning the unassigned users, each listed once, keeps one membership per user and
      subject. */
  lemma {:induction false} AssignKeepsOneEach(ms: seq<SubjectMember>, ids: seq<UserId>, school: SchoolId, subject: SubjectId, role: SubjectRole)
    requires OneMembershipEach(ms) && NoDup(ids)
    ensures OneMembershipEach(ms + NewMembers(Unassigned(ids, ms, school, subject), subject, school, role))
  {
    UnassignedExact(ids, ms, school, subject);
    var pending := Unassigned(ids, ms, school, subject);
    var add := NewMembers(pending, subject, school, role);
    var all := ms + add;
    forall i, j | 0 <= i < j < |all| ensures !IsMembership(all[j], all[i].user, all[i].school, all[i].subject) {
      if j >= |ms| {
        var m := all[j];
        assert m == add[j - |ms|];
        if i < |ms| {
          assert pending[j - |ms|] in pending;
          if IsMembership(m, all[i].user, all[i].school, all[i].subject) {
            assert IsMembership(ms[i], pending[j - |ms|], school, subject);
          }
        } else {
          assert all[i] == add[i - |ms|];
        }
      }
    }
  }

  /** Adds the listed school members to the subject with the given role, skipping those
      already in it; replies with the number of memberships created. */
  method AssignToSubject(db: Db, actor: UserId, school: SchoolId, subject: SubjectId, userIds: Option<Json>, as_: Option<Json>)
    returns (r: Reply<int>)
    requires IsSchoolAdmin(db.schoolMembers, actor, school)
    modifies db`subjectMembers
    ensures (subject !in db.subjects || db.subjects[subject].school != school) ==> r == Fail(403, "Forbidden")
    ensures (subject in db.subjects && db.subjects[subject].school == school && !(Truthy(userIds) && Truthy(as_))) ==>
      r == Fail(400, "Missing required fields")
    ensures (subject in db.subjects && db.subjects[subject].school == school && Truthy(userIds) && Truthy(as_) &&
             NumberArray(userIds).None?) ==> r == Fail(400, "Invalid user ids")
    ensures (subject in db.subjects && db.subjects[subject].school == school && Truthy(userIds) && Truthy(as_) &&
             NumberArray(userIds).Some? && !as_.value.JStr?) ==> r == Fail(500, NotAFunction("as"))
    ensures (subject in db.subjects && db.subjects[subject].school == school && Truthy(userIds) && Truthy(as_) &&
             NumberArray(userIds).Some? && as_.value.JStr? && SubjectRoleWord(as_.value.s).None?) ==>
      r == Fail(400, "Invalid user role")
    ensures (subject in db.subjects && db.subjects[subject].school == school && Truthy(userIds) && Truthy(as_) &&
             NumberArray(userIds).Some? && as_.value.JStr? && SubjectRoleWord(as_.value.s).Some? &&
             !IdsListed(NumberArray(userIds).value, SchoolMemberIds(db.schoolMembers, school))) ==>
      r == Fail(404, "User not found")
    ensures r.Ok? <==> (
      subject in db.subjects && db.subjects[subject].school == school && Truthy(userIds) && Truthy(as_) &&
      NumberArray(userIds).Some? && as_.value.JStr? && SubjectRoleWord(as_.value.s).Some? &&
      IdsListed(NumberArray(userIds).value, SchoolMemberIds(db.schoolMembers, school)))
    ensures r.Fail? ==> db.subjectMembers == old(db.subjectMembers)
    ensures r.Ok? ==> (
      var pending := Unassigned(AsIds(NumberArray(userIds).value), old(db.subjectMembers), school, subject);
      r == Ok(200, |pending|) &&
      db.subjectMembers == old(db.subjectMembers) + NewMembers(pending, subject, school, SubjectRoleWord(as_.value.s).value))
  {
    if subject !in db.subjects || db.subjects[subject].school != school {
      return Fail(403, "Forbidden");
    }
    if !Truthy(userIds) || !Truthy(as_) {
      return Fail(400, "Missing required fields");
    }
    var ids := NumberArray(userIds);
    if ids.None? {
      return Fail(400, "Invalid user ids");
    }
    if !as_.value.JStr? {
      return Fail(500, NotAFunction("as"));
    }
    var role := SubjectRoleWord(as_.value.s);
    if role.None? {
      return Fail(400, "Invalid user role");
    }
    var members := SchoolMemberIds(db.schoolMembers, school);
    CountGuard(ids.value, members);
    if |Elems(ids.value) * members| != |ids.value| {
      return Fail(404, "User not found");
    }
    var pending := Unassigned(AsIds(ids.value), db.subjectMembers, school, subject);
    db.subjectMembers := db.subjectMembers + NewMembers(pending, subject, school, role.value);
    r := Ok(200, |pending|);
  }

  // ------------------------------------------------------------------ getSchool

  /** The memberships of the school. */
  function SchoolKeys(members: SchoolMembers, school: SchoolId): set<(UserId, SchoolId)> {
    set p | p in members.Keys && p.1 == school
  }

  /** How many members of the school hold `role` (the role filters of the school page). */
  function RoleCount(members: SchoolMembers, school: SchoolId, role: Role): nat {
    |WithRole(members, school, role)|
  }

  /** The four role counts add up to the number of members of the school; in particular
      the students and teachers shown never exceed it. */
  lemma RoleCountsPartition(members: SchoolMembers, school: SchoolId)
    ensures RoleCount(members, school, SuperAdmin) + RoleCount(members, school, Admin) +
            RoleCount(members, school, Teacher) + RoleCount(members, school, Student) == |SchoolKeys(members, school)|
    ensures RoleCount(members, school, Student) + RoleCount(members, school, Teacher) <= |SchoolKeys(members, school)|
  {
    var sa, ad := WithRole(members, school, SuperAdmin), WithRole(members, school, Admin);
    var te, st := WithRole(members, school, Teacher), WithRole(members, school, Student);
    DisjointCard(sa, ad);
    DisjointCard(sa + ad, te);
    DisjointCard(sa + ad + te, st);
    assert SchoolKeys(members, school) == sa + ad + te + st by {
      forall p | p in SchoolKeys(members, school) ensures p in sa + ad + te + st {
        assert p in WithRole(members, school, members[p]);
      }
    }
  }

  /** The memberships of the school that hold `role`. */
  function WithRole(members: SchoolMembers, school: SchoolId, role: Role): set<(UserId, SchoolId)> {
    set p | p in members.Keys && p.1 == school && members[p] == role
  }

  lemma DisjointCard<T>(a: set<T>, b: set<T>)
    requires a * b == {}
    ensures |a + b| == |a| + |b|
  {
  }
}
