/** The two school guards that run before the school handlers: `access` admits any
    member of the school and records the member's role on the request; `admin` admits
    only the school's administrators. */
module Middleware {
  import opened Common
  import opened Database

  type SchoolMembers = map<(UserId, SchoolId), Role>

  predicate IsAdminRole(r: Role) {
    r == SuperAdmin || r == Admin
  }

  /** The user holds an administrator role in the school. */
  predicate IsSchoolAdmin(members: SchoolMembers, u: UserId, school: SchoolId) {
    (u, school) in members && IsAdminRole(members[(u, school)])
  }

  /** What a request carries once `access` has let it through: the user is a member,
      and `isAdmin` reflects the member's role. */
  predicate Admitted(members: SchoolMembers, u: UserId, school: SchoolId, isAdmin: bool) {
    (u, school) in members && isAdmin == IsAdminRole(members[(u, school)])
  }

  /** A guard either hands the request on or answers it. */
  datatype Gate = Next | Halt(status: int, message: string)

  /** The authenticated user attached to a request. */
  class RequestUser {
    const id: UserId
    var role: Option<Role>
    var isAdmin: bool

    constructor (id: UserId)
      ensures this.id == id && role.None? && !isAdmin
    {
      this.id := id;
      role := None;
      isAdmin := false;
    }
  }

  /** The `access` guard. `storeFails` stands for the membership lookup raising. */
  method Access(req: RequestUser, members: SchoolMembers, school: SchoolId, storeFails: bool) returns (gate: Gate)
    modifies req`role, req`isAdmin
    ensures storeFails ==> gate == Halt(500, "Internal Error") && req.role == old(req.role) && req.isAdmin == old(req.isAdmin)
    ensures !storeFails && (req.id, school) !in members ==>
      gate == Halt(404, "Not Found") && req.role == old(req.role) && req.isAdmin == old(req.isAdmin)
    ensures !storeFails && (req.id, school) in members ==>
      gate == Next && req.role == Some(members[(req.id, school)]) && Admitted(members, req.id, school, req.isAdmin)
  {
    if storeFails {
      return Halt(500, "Internal Error");
    }
    var member := SchoolRoleOf(members, req.id, school);
    if member.None? {
      return Halt(404, "Not Found");
    }
    req.role := Some(member.value);
    req.isAdmin := member.value == SuperAdmin || member.value == Admin;
    gate := Next;
  }

  /** The `admin` guard. `storeFails` stands for the lookup raising. */
  function AdminGate(members: SchoolMembers, u: UserId, school: SchoolId, storeFails: bool): (gate: Gate)
    ensures gate == Next <==> !storeFails && IsSchoolAdmin(members, u, school)
    ensures storeFails ==> gate == Halt(500, "Internal Error")
    ensures !storeFails && !IsSchoolAdmin(members, u, school) ==> gate == Halt(403, "Forbidden")
  {
    if storeFails then Halt(500, "Internal Error")
    else if (u, school) in members && members[(u, school)] in {SuperAdmin, Admin} then Next
    else Halt(403, "Forbidden")
  }

  /** Teachers, students and users outside the school are turned away with 403. */
  lemma AdminRejectsOthers(members: SchoolMembers, u: UserId, school: SchoolId)
    requires (u, school) !in members || members[(u, school)] in {Teacher, Student}
    ensures AdminGate(members, u, school, false) == Halt(403, "Forbidden")
  {
  }

  /** `admin` lets a user through exactly when `access` would let the same user through
      with `isAdmin` set. */
  method AdminAgreesWithAccess(members: SchoolMembers, u: UserId, school: SchoolId) returns (gate: Gate, isAdmin: bool)
    ensures (AdminGate(members, u, school, false) == Next) <==> (gate == Next && isAdmin)
  {
    var req := new RequestUser(u);
    gate := Access(req, members, school, false);
    isAdmin := req.isAdmin;
  }

  /** The check the subject handlers make: an administrator of the school, or a user
      whose (first) membership in the subject is as a teacher. */
  predicate TeachesOrAdmin(isAdmin: bool, ms: seq<SubjectMember>, u: UserId, school: SchoolId, subject: SubjectId) {
    var m := FirstSubjectMember(ms, u, school, subject);
    isAdmin || (m.Some? && m.value.role == SubjectTeacher)
  }
}
