/** The group handlers of the school controller: creating and editing groups,
    assigning users to a group (and to every group above it), removing them, and
    listing the members of a group's whole subtree. All of them sit behind the
    `admin` guard. */
module Groups {
  import opened Common
  import opened Hierarchy
  import opened Database
  import opened Middleware

  /** A listed member: the user and the user's role in the school, if any. */
  datatype MemberView = MemberView(id: UserId, role: Option<Role>)

  const SelfParentMessage: string := "A group cannot be its own parent"

  predicate OwnedBy(gs: Groups, g: GroupId, school: SchoolId) {
    g in gs && gs[g].school == school
  }

  function Ids(ms: seq<MemberView>): (r: seq<UserId>)
    ensures |r| == |ms| && forall k :: 0 <= k < |ms| ==> r[k] == ms[k].id
  {
    seq(|ms|, k requires 0 <= k < |ms| => ms[k].id)
  }

  /** Every listed member carries the user's role in the school. */
  ghost predicate RolesOf(ms: seq<MemberView>, members: SchoolMembers, school: SchoolId) {
    forall k | 0 <= k < |ms| :: ms[k].role == SchoolRoleOf(members, ms[k].id, school)
  }

  /** The users that are direct members of at least one group in `s`. */
  function MembersIn(gm: set<(UserId, GroupId)>, s: set<GroupId>): set<UserId> {
    set p | p in gm && p.1 in s :: p.0
  }

  lemma MembersInUnion(gm: set<(UserId, GroupId)>, a: set<GroupId>, b: set<GroupId>)
    ensures MembersIn(gm, a + b) == MembersIn(gm, a) + MembersIn(gm, b)
  {
    forall u | u in MembersIn(gm, a + b) ensures u in MembersIn(gm, a) + MembersIn(gm, b) {
      var p :| p in gm && p.1 in a + b && p.0 == u;
    }
  }

  /** The users that belong to `g` or to any group below it. */
  ghost function SubtreeMembers(gs: Groups, gm: set<(UserId, GroupId)>, g: GroupId, rank: map<GroupId, nat>): set<UserId>
    requires Ranked(gs, rank)
  {
    MembersIn(gm, {g} + Descendants(gs, g, rank))
  }

  /** Every listed user paired with every listed group. */
  function Pairs(us: seq<UserId>, as_: seq<GroupId>): set<(UserId, GroupId)> {
    set u, a | u in us && a in as_ :: (u, a)
  }

  /** The edit's renaming: an empty name keeps the current one. */
  function Renamed(gs: Groups, g: GroupId, name: string): Groups
    requires g in gs
  {
    if name == "" then gs else gs[g := gs[g].(name := name)]
  }

  // ---------------------------------------------------------------- createGroup

  /** Creates a group in the school. The parent is not checked to be in the same
      school; a parent id that names no group makes the insert fail. */
  method CreateGroup(db: Db, actor: UserId, school: SchoolId, name: string, parent: Option<GroupId>)
    returns (r: Reply<(GroupId, Group)>)
    requires db.GroupsValid() && IsSchoolAdmin(db.schoolMembers, actor, school)
    modifies db`groups, db`rank, db`nextGroupId
    ensures db.GroupsValid()
    ensures name == "" ==> r == Fail(400, "Missing required fields") && db.groups == old(db.groups)
    ensures name != "" && parent.Some? && parent.value !in old(db.groups) ==>
      r == Fail(500, StoreError) && db.groups == old(db.groups)
    ensures name != "" && (parent.None? || parent.value in old(db.groups)) ==>
      r.Ok? && r.status == 201 && r.value.0 !in old(db.groups) && r.value.1 == Group(name, school, parent) &&
      db.groups == old(db.groups)[r.value.0 := r.value.1]
  {
    if name == "" {
      return Fail(400, "Missing required fields");
    }
    if parent.Some? && parent.value !in db.groups {
      return Fail(500, StoreError);
    }
    var id := db.nextGroupId;
    var group := Group(name, school, parent);
    db.rank := db.rank[id := if parent.Some? then db.rank[parent.value] + 1 else 0];
    db.groups := db.groups[id := group];
    db.nextGroupId := db.nextGroupId + 1;
    r := Ok(201, (id, group));
  }

  // -------------------------------------------------------------- assignToGroup

  /** `getGroupParents`: the group followed by the groups reached through parent links. */
  method GroupParents(db: Db, g: GroupId) returns (ids: seq<GroupId>)
    requires db.GroupsValid() && g in db.groups
    ensures ids == Lineage(db.groups, g, db.rank)
  {
    ids := [g];
    var cur := db.groups[g].parent;
    while cur.Some? && cur.value in db.groups
      invariant ids + Ancestry(db.groups, cur, db.rank) == Lineage(db.groups, g, db.rank)
      decreases if cur.Some? && cur.value in db.groups then db.rank[cur.value] + 1 else 0
    {
      var next := db.groups[cur.value].parent;
      assert Ancestry(db.groups, cur, db.rank) == [cur.value] + Ancestry(db.groups, next, db.rank);
      ids := ids + [cur.value];
      cur := next;
    }
  }

  /** Adds every listed user to the group and to all of its ancestors, skipping
      memberships that already exist; replies with the number of memberships created. */
  method AssignToGroup(db: Db, actor: UserId, school: SchoolId, g: GroupId, userIds: Option<Json>)
    returns (r: Reply<int>)
    requires db.GroupsValid() && IsSchoolAdmin(db.schoolMembers, actor, school)
    modifies db`groupMembers
    ensures !OwnedBy(db.groups, g, school) ==> r == Fail(403, "Forbidden")
    ensures OwnedBy(db.groups, g, school) && !Truthy(userIds) ==> r == Fail(400, "Missing required fields")
    ensures OwnedBy(db.groups, g, school) && Truthy(userIds) && NumberArray(userIds).None? ==>
      r == Fail(400, "Invalid user ids")
    ensures (OwnedBy(db.groups, g, school) && Truthy(userIds) && NumberArray(userIds).Some? &&
             !IdsListed(NumberArray(userIds).value, SchoolMemberIds(db.schoolMembers, school))) ==>
      r == Fail(404, "User not found")
    ensures r.Fail? ==> db.groupMembers == old(db.groupMembers)
    ensures r.Ok? <==>
      OwnedBy(db.groups, g, school) && Truthy(userIds) && NumberArray(userIds).Some? &&
      IdsListed(NumberArray(userIds).value, SchoolMemberIds(db.schoolMembers, school))
    ensures r.Ok? ==>
      var ids := NumberArray(userIds).value;
      var added := Pairs(AsIds(ids), Lineage(db.groups, g, db.rank));
      db.groupMembers == old(db.groupMembers) + added &&
      r == Ok(200, |added - old(db.groupMembers)|)
  {
    if g !in db.groups || db.groups[g].school != school {
      return Fail(403, "Forbidden");
    }
    if !Truthy(userIds) {
      return Fail(400, "Missing required fields");
    }
    var ids := NumberArray(userIds);
    if ids.None? {
      return Fail(400, "Invalid user ids");
    }
    var members := SchoolMemberIds(db.schoolMembers, school);
    CountGuard(ids.value, members);
    if |Elems(ids.value) * members| != |ids.value| {
      return Fail(404, "User not found");
    }
    var lineage := GroupParents(db, g);
    var data := Pairs(AsIds(ids.value), lineage);
    var created := data - db.groupMembers;
    db.groupMembers := db.groupMembers + data;
    r := Ok(200, |created|);
  }

  /** Repeating an assignment that succeeded creates nothing and changes nothing. */
  method AssignTwice(db: Db, actor: UserId, school: SchoolId, g: GroupId, userIds: Option<Json>)
    returns (first: Reply<int>, second: Reply<int>, ghost afterFirst: set<(UserId, GroupId)>)
    requires db.GroupsValid() && IsSchoolAdmin(db.schoolMembers, actor, school)
    modifies db`groupMembers
    ensures first.Ok? ==> second == Ok(200, 0) && db.groupMembers == afterFirst
  {
    first := AssignToGroup(db, actor, school, g, userIds);
    afterFirst := db.groupMembers;
    second := AssignToGroup(db, actor, school, g, userIds);
  }

  // ---------------------------------------------------------- unAssignFromGroup

  /** Removes the listed users from this group only: memberships in the groups above
      and below it stay. Every listed user must be a direct member. */
  method UnAssignFromGroup(db: Db, actor: UserId, school: SchoolId, g: GroupId, userIds: Option<Json>)
    returns (r: Reply<int>)
    requires db.GroupsValid() && IsSchoolAdmin(db.schoolMembers, actor, school)
    modifies db`groupMembers
    ensures !OwnedBy(db.groups, g, school) ==> r == Fail(403, "Forbidden")
    ensures OwnedBy(db.groups, g, school) && !Truthy(userIds) ==> r == Fail(400, "Missing required fields")
    ensures OwnedBy(db.groups, g, school) && Truthy(userIds) && NumberArray(userIds).None? ==>
      r == Fail(400, "Invalid user ids")
    ensures (OwnedBy(db.groups, g, school) && Truthy(userIds) && NumberArray(userIds).Some? &&
             !IdsListed(NumberArray(userIds).value, SchoolMemberIds(db.schoolMembers, school))) ==>
      r == Fail(404, "User not found")
    ensures (OwnedBy(db.groups, g, school) && Truthy(userIds) && NumberArray(userIds).Some? &&
             IdsListed(NumberArray(userIds).value, SchoolMemberIds(db.schoolMembers, school)) &&
             !(Elems(NumberArray(userIds).value) <= MembersIn(old(db.groupMembers), {g}))) ==>
      r == Fail(400, "User is not in that group")
    ensures r.Fail? ==> db.groupMembers == old(db.groupMembers)
    ensures r.Ok? <==>
      OwnedBy(db.groups, g, school) && Truthy(userIds) && NumberArray(userIds).Some? &&
      IdsListed(NumberArray(userIds).value, SchoolMemberIds(db.schoolMembers, school)) &&
      Elems(NumberArray(userIds).value) <= MembersIn(old(db.groupMembers), {g})
    ensures r.Ok? ==>
      var ids := NumberArray(userIds).value;
      db.groupMembers == old(db.groupMembers) - Pairs(AsIds(ids), [g]) &&
      r == Ok(200, |ids|)
    ensures forall p :: p in old(db.groupMembers) && p.1 != g ==> p in db.groupMembers
  {
    if g !in db.groups || db.groups[g].school != school {
      return Fail(403, "Forbidden");
    }
    if !Truthy(userIds) {
      return Fail(400, "Missing required fields");
    }
    var ids := NumberArray(userIds);
    if ids.None? {
      return Fail(400, "Invalid user ids");
    }
    var members := SchoolMemberIds(db.schoolMembers, school);
    CountGuard(ids.value, members);
    if |Elems(ids.value) * members| != |ids.value| {
      return Fail(404, "User not found");
    }
    var direct: set<int> := MembersIn(db.groupMembers, {g});
    CountGuard(ids.value, direct);
    if |Elems(ids.value) * direct| != |ids.value| {
      return Fail(400, "User is not in that group");
    }
    db.groupMembers := db.groupMembers - Pairs(AsIds(ids.value), [g]);
    r := Ok(200, |ids.value|);
  }

  // ------------------------------------------------------------ getGroupMembers

  /** Appends the members of group `c` whose id is not listed yet (the `find` check). */
  method AddNewMembers(db: Db, school: SchoolId, c: GroupId, acc: seq<MemberView>) returns (out: seq<MemberView>)
    requires NoDup(Ids(acc)) && RolesOf(acc, db.schoolMembers, school)
    ensures NoDup(Ids(out)) && RolesOf(out, db.schoolMembers, school)
    ensures |acc| <= |out| && out[..|acc|] == acc
    ensures Elems(Ids(out)) == Elems(Ids(acc)) + MembersIn(db.groupMembers, {c})
  {
    out := acc;
    var all := MembersIn(db.groupMembers, {c});
    var pending := all;
    while pending != {}
      invariant pending <= all
      invariant NoDup(Ids(out)) && RolesOf(out, db.schoolMembers, school)
      invariant |acc| <= |out| && out[..|acc|] == acc
      invariant Elems(Ids(out)) == Elems(Ids(acc)) + (all - pending)
      decreases |pending|
    {
      var u :| u in pending;
      ghost var before := pending;
      pending := pending - {u};
      assert all - pending == (all - before) + {u};
      PushOrSkip(out, u, acc, db.schoolMembers, school);
      out := AddIfNew(out, u, db.schoolMembers, school);
    }
  }

  /** The `find` check: `u` is listed once, with its school role. */
  function AddIfNew(ms: seq<MemberView>, u: UserId, members: SchoolMembers, school: SchoolId): seq<MemberView> {
    if u in Ids(ms) then ms else ms + [MemberView(u, SchoolRoleOf(members, u, school))]
  }

  lemma PushOrSkip(ms: seq<MemberView>, u: UserId, acc: seq<MemberView>, members: SchoolMembers, school: SchoolId)
    requires NoDup(Ids(ms)) && RolesOf(ms, members, school)
    requires |acc| <= |ms| && ms[..|acc|] == acc
    ensures NoDup(Ids(AddIfNew(ms, u, members, school))) && RolesOf(AddIfNew(ms, u, members, school), members, school)
    ensures |acc| <= |AddIfNew(ms, u, members, school)| && AddIfNew(ms, u, members, school)[..|acc|] == acc
    ensures Elems(Ids(AddIfNew(ms, u, members, school))) == Elems(Ids(ms)) + {u}
  {
    if u !in Ids(ms) {
      Push(ms, MemberView(u, SchoolRoleOf(members, u, school)), acc, members, school);
    } else {
      assert u in Elems(Ids(ms));
    }
  }

  /** Appending a member not listed yet keeps the list free of repeats and its roles
      right, and keeps the prefix `acc`. */
  lemma Push(ms: seq<MemberView>, m: MemberView, acc: seq<MemberView>, members: SchoolMembers, school: SchoolId)
    requires NoDup(Ids(ms)) && RolesOf(ms, members, school)
    requires m.id !in Ids(ms) && m.role == SchoolRoleOf(members, m.id, school)
    requires |acc| <= |ms| && ms[..|acc|] == acc
    ensures NoDup(Ids(ms + [m])) && RolesOf(ms + [m], members, school)
    ensures Elems(Ids(ms + [m])) == Elems(Ids(ms)) + {m.id}
    ensures (ms + [m])[..|acc|] == acc
  {
    assert Ids(ms + [m]) == Ids(ms) + [m.id];
    ElemsAppend(Ids(ms), m.id);
    assert (ms + [m])[..|acc|] == ms[..|acc|];
  }

  /** The inner `getGroupMembers`: visits every child of `g`, adds its new members, then
      descends into it. The walk ends because each child's subtree is smaller. */
  method CollectBelow(db: Db, school: SchoolId, g: GroupId, acc: seq<MemberView>) returns (out: seq<MemberView>)
    requires db.GroupsValid() && g in db.groups
    requires NoDup(Ids(acc)) && RolesOf(acc, db.schoolMembers, school)
    ensures NoDup(Ids(out)) && RolesOf(out, db.schoolMembers, school)
    ensures |acc| <= |out| && out[..|acc|] == acc
    ensures Elems(Ids(out)) == Elems(Ids(acc)) + MembersIn(db.groupMembers, Descendants(db.groups, g, db.rank))
    decreases |Descendants(db.groups, g, db.rank)|
  {
    out := acc;
    var pending := Children(db.groups, g);
    ghost var covered: set<GroupId> := {};
    while pending != {}
      invariant Covers(db.groups, g, db.rank, pending, covered)
      invariant NoDup(Ids(out)) && RolesOf(out, db.schoolMembers, school)
      invariant |acc| <= |out| && out[..|acc|] == acc
      invariant Elems(Ids(out)) == Elems(Ids(acc)) + MembersIn(db.groupMembers, covered)
      decreases |pending|
    {
      var c :| c in pending;
      CoverStep(db.groups, g, db.rank, pending, covered, c);
      pending := pending - {c};
      ghost var before := out;
      out := AddNewMembers(db, school, c, out);
      out := CollectBelow(db, school, c, out);
      assert out[..|acc|] == acc by {
        assert out[..|before|] == before;
        assert before[..|acc|] == acc;
      }
      MembersInUnion(db.groupMembers, covered, {c});
      MembersInUnion(db.groupMembers, covered + {c}, Descendants(db.groups, c, db.rank));
      covered := covered + {c} + Descendants(db.groups, c, db.rank);
    }
    CoverDone(db.groups, g, db.rank, covered);
  }

  /** Lists the group's direct members, then the members of every group below it that
      are not listed yet. */
  method GetGroupMembers(db: Db, actor: UserId, school: SchoolId, g: GroupId) returns (r: Reply<seq<MemberView>>)
    requires db.GroupsValid() && IsSchoolAdmin(db.schoolMembers, actor, school)
    ensures g !in db.groups ==> r == Fail(404, "Group not found")
    ensures g in db.groups && db.groups[g].school != school ==> r == Fail(403, "Forbidden")
    ensures OwnedBy(db.groups, g, school) ==>
      r.Ok? && r.status == 200 &&
      NoDup(Ids(r.value)) &&
      Elems(Ids(r.value)) == SubtreeMembers(db.groups, db.groupMembers, g, db.rank) &&
      RolesOf(r.value, db.schoolMembers, school) &&
      var direct := MembersIn(db.groupMembers, {g});
      |direct| <= |r.value| && Elems(Ids(r.value[..|direct|])) == direct
  {
    if g !in db.groups {
      return Fail(404, "Group not found");
    }
    if db.groups[g].school != school {
      return Fail(403, "Forbidden");
    }
    var direct := MembersIn(db.groupMembers, {g});
    var members: seq<MemberView> := [];
    var pending := direct;
    while pending != {}
      invariant pending <= direct
      invariant NoDup(Ids(members)) && RolesOf(members, db.schoolMembers, school)
      invariant Elems(Ids(members)) == direct - pending
      invariant |members| + |pending| == |direct|
      decreases |pending|
    {
      var u :| u in pending;
      pending := pending - {u};
      var m := MemberView(u, SchoolRoleOf(db.schoolMembers, u, school));
      Push(members, m, [], db.schoolMembers, school);
      members := members + [m];
    }
    ghost var top := members;
    members := CollectBelow(db, school, g, members);
    assert members[..|top|] == top;
    MembersInUnion(db.groupMembers, {g}, Descendants(db.groups, g, db.rank));
    r := Ok(200, members);
  }

  // ------------------------------------------------------------------ editGroup

  /** The groups of `s` whose parent is `root`. */
  function WithParent(gs: Groups, s: set<GroupId>, root: GroupId): set<GroupId> {
    set x | x in s && x in gs && gs[x].parent == Some(root)
  }

  lemma WithParentUnion(gs: Groups, a: set<GroupId>, b: set<GroupId>, root: GroupId)
    ensures WithParent(gs, a + b, root) == WithParent(gs, a, root) + WithParent(gs, b, root)
  {
  }

  lemma WithParentStep(gs: Groups, covered: set<GroupId>, c: GroupId, below: set<GroupId>, root: GroupId)
    ensures WithParent(gs, covered + {c} + below, root) ==
      WithParent(gs, covered, root) + WithParent(gs, {c}, root) + WithParent(gs, below, root)
  {
    WithParentUnion(gs, covered, {c}, root);
    WithParentUnion(gs, covered + {c}, below, root);
  }

  /** `checkParentGroupChild`: walks the whole subtree below `g`, collecting the groups
      whose parent is `root` and noting whether `target` lies below `g`. */
  method WalkBelow(db: Db, root: GroupId, g: GroupId, target: GroupId, acc: seq<GroupId>, flag: bool)
    returns (childIds: seq<GroupId>, found: bool)
    requires db.GroupsValid() && g in db.groups
    ensures Elems(childIds) == Elems(acc) + WithParent(db.groups, Descendants(db.groups, g, db.rank), root)
    ensures found == (flag || target in Descendants(db.groups, g, db.rank))
    decreases |Descendants(db.groups, g, db.rank)|
  {
    childIds, found := acc, flag;
    var pending := Children(db.groups, g);
    ghost var covered: set<GroupId> := {};
    while pending != {}
      invariant Covers(db.groups, g, db.rank, pending, covered)
      invariant Elems(childIds) == Elems(acc) + WithParent(db.groups, covered, root)
      invariant found == (flag || target in covered)
      decreases |pending|
    {
      var c :| c in pending;
      CoverStep(db.groups, g, db.rank, pending, covered, c);
      pending := pending - {c};
      ghost var below := Descendants(db.groups, c, db.rank);
      ghost var listed := Elems(childIds);
      if db.groups[c].parent == Some(root) {
        ElemsAppend(childIds, c);
        childIds := childIds + [c];
      }
      assert Elems(childIds) == listed + WithParent(db.groups, {c}, root);
      if c == target {
        found := true;
      }
      childIds, found := WalkBelow(db, root, c, target, childIds, found);
      WithParentStep(db.groups, covered, c, below, root);
      covered := covered + {c} + below;
    }
    CoverDone(db.groups, g, db.rank, covered);
  }

  /** Renames and re-parents a group. When the new parent lies below the group, the
      group's direct children are detached first. Unlike the original handler, a group
      is refused as its own parent (see `Hierarchy.SelfParentingCycles`), so the groups
      stay a forest. */
  method EditGroup(db: Db, actor: UserId, school: SchoolId, g: GroupId, name: string, parent: Option<GroupId>)
    returns (r: Reply<Group>)
    requires db.GroupsValid() && IsSchoolAdmin(db.schoolMembers, actor, school)
    modifies db`groups, db`rank
    ensures db.GroupsValid()
    ensures !OwnedBy(old(db.groups), g, school) ==> r == Fail(403, "Forbidden") && db.groups == old(db.groups)
    ensures OwnedBy(old(db.groups), g, school) && parent == Some(g) ==>
      r == Fail(400, SelfParentMessage) && db.groups == old(db.groups)
    ensures OwnedBy(old(db.groups), g, school) && parent != Some(g) && parent.Some? && parent.value !in old(db.groups) ==>
      r == Fail(500, StoreError) && db.groups == old(db.groups)
    ensures OwnedBy(old(db.groups), g, school) && (parent.None? || (parent.value in old(db.groups) && parent.value != g)) ==>
      r.Ok? && r.status == 200 &&
      db.groups == Renamed(Reparented(old(db.groups), g, parent, old(db.rank)), g, name) &&
      r.value == db.groups[g]
  {
    if g !in db.groups || db.groups[g].school != school {
      return Fail(403, "Forbidden");
    }
    if parent == Some(g) {
      return Fail(400, SelfParentMessage);
    }
    ghost var gs0, rank0 := db.groups, db.rank;
    var current := db.groups[g];
    var detached := DetachIfBelow(db, g, parent);
    if parent.Some? && parent.value !in db.groups {
      return Fail(500, StoreError);
    }
    var edited := current.(name := if name != "" then name else current.name, parent := parent);
    ghost var rank1 := ReparentKeepsForest(gs0, g, parent, rank0);
    ghost var reparented := Reparented(gs0, g, parent, rank0);
    assert detached[g := current.(parent := parent)] == reparented;
    RenameKeepsForest(reparented, g, edited.name, rank1);
    assert detached[g := edited] == reparented[g := reparented[g].(name := edited.name)];
    db.groups := detached[g := edited];
    db.rank := rank1;
    r := Ok(200, edited);
  }

  /** The cycle check of the edit: when the new parent differs from the current one, walk
      the subtree; if the new parent lies in it, clear the parent of every group whose
      parent is `g`. */
  method DetachIfBelow(db: Db, g: GroupId, parent: Option<GroupId>) returns (detached: Groups)
    requires db.GroupsValid() && g in db.groups
    ensures detached ==
      if parent.Some? && parent != db.groups[g].parent && parent.value in Descendants(db.groups, g, db.rank)
      then Detach(db.groups, Children(db.groups, g)) else db.groups
    ensures g in detached && detached[g] == db.groups[g]
  {
    detached := db.groups;
    NotOwnAncestor(db.groups, g, db.rank);
    if parent.Some? && parent != db.groups[g].parent {
      var childIds, found := WalkBelow(db, g, g, parent.value, [], false);
      if found {
        assert Elems(childIds) == Children(db.groups, g) by {
          forall c | c in Children(db.groups, g) ensures c in Descendants(db.groups, g, db.rank) {
            ChildDescendants(db.groups, g, c, db.rank);
          }
          assert WithParent(db.groups, Descendants(db.groups, g, db.rank), g) == Children(db.groups, g);
        }
        detached := Detach(db.groups, Elems(childIds));
      }
    }
  }
}
