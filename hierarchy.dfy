/** The group tree of a school: each group points at an optional parent group. This
    module states what the group handlers walk (a group's chain of parents, the groups
    below a group) and what re-parenting a group does to the tree. */
module Hierarchy {
  import opened Common

  datatype Group = Group(name: string, school: SchoolId, parent: Option<GroupId>)

  type Groups = map<GroupId, Group>

  /** `rank` witnesses that following parent links always stops: every parent that
      exists ranks strictly below its child. */
  ghost predicate Ranked(gs: Groups, rank: map<GroupId, nat>) {
    gs.Keys <= rank.Keys &&
    forall g | g in gs && gs[g].parent.Some? && gs[g].parent.value in gs ::
      rank[gs[g].parent.value] < rank[g]
  }

  /** No chain of parent links returns to where it started. */
  ghost predicate Forest(gs: Groups) {
    exists rank :: Ranked(gs, rank)
  }

  /** Every parent link names an existing group (the store's foreign key). */
  ghost predicate Closed(gs: Groups) {
    forall g | g in gs && gs[g].parent.Some? :: gs[g].parent.value in gs
  }

  /** A group's direct children. */
  function Children(gs: Groups, g: GroupId): set<GroupId> {
    set c | c in gs && gs[c].parent == Some(g)
  }

  /** The groups met when walking parent links from `p`, stopping at a null link or at
      an id that names no group. */
  ghost function Ancestry(gs: Groups, p: Option<GroupId>, rank: map<GroupId, nat>): seq<GroupId>
    requires Ranked(gs, rank)
    decreases if p.Some? && p.value in gs then rank[p.value] + 1 else 0
  {
    if p.Some? && p.value in gs then [p.value] + Ancestry(gs, gs[p.value].parent, rank) else []
  }

  /** A group followed by all of its ancestors, nearest first. */
  ghost function Lineage(gs: Groups, g: GroupId, rank: map<GroupId, nat>): seq<GroupId>
    requires Ranked(gs, rank) && g in gs
  {
    [g] + Ancestry(gs, gs[g].parent, rank)
  }

  /** The groups that have `g` among their ancestors. */
  ghost function Descendants(gs: Groups, g: GroupId, rank: map<GroupId, nat>): set<GroupId>
    requires Ranked(gs, rank)
  {
    set x | x in gs && g in Ancestry(gs, gs[x].parent, rank)
  }

  /** Every group on the walk exists and ranks no higher than where the walk starts. */
  lemma {:induction false} AncestryRanks(gs: Groups, p: Option<GroupId>, rank: map<GroupId, nat>)
    requires Ranked(gs, rank)
    ensures forall a :: a in Ancestry(gs, p, rank) ==> a in gs && p.Some? && p.value in gs && rank[a] <= rank[p.value]
    decreases if p.Some? && p.value in gs then rank[p.value] + 1 else 0
  {
    if p.Some? && p.value in gs {
      AncestryRanks(gs, gs[p.value].parent, rank);
    }
  }

  /** The walk from a group's parent never meets the group again. */
  lemma NotOwnAncestor(gs: Groups, x: GroupId, rank: map<GroupId, nat>)
    requires Ranked(gs, rank) && x in gs
    ensures x !in Ancestry(gs, gs[x].parent, rank)
    ensures x !in Descendants(gs, x, rank)
  {
    AncestryRanks(gs, gs[x].parent, rank);
  }

  /** One step of the descendant relation: `x` is below `g` exactly when its parent
      is `g` or is itself below `g`. */
  lemma DescendantStep(gs: Groups, g: GroupId, x: GroupId, rank: map<GroupId, nat>)
    requires Ranked(gs, rank) && x in gs
    ensures x in Descendants(gs, g, rank) <==>
      gs[x].parent.Some? && gs[x].parent.value in gs &&
      (gs[x].parent.value == g || gs[x].parent.value in Descendants(gs, g, rank))
  {
  }

  /** A child and everything below it lie below the parent, so the child's subtree is
      strictly smaller than the parent's. */
  lemma {:induction false} ChildDescendants(gs: Groups, g: GroupId, c: GroupId, rank: map<GroupId, nat>)
    requires Ranked(gs, rank) && c in Children(gs, g) && g in gs
    ensures c in Descendants(gs, g, rank)
    ensures Descendants(gs, c, rank) <= Descendants(gs, g, rank)
    ensures |Descendants(gs, c, rank)| < |Descendants(gs, g, rank)|
  {
    forall x | x in Descendants(gs, c, rank) ensures x in Descendants(gs, g, rank) {
      BelowChild(gs, g, c, x, rank);
    }
    NotOwnAncestor(gs, c, rank);
    SubsetCard(Descendants(gs, c, rank) + {c}, Descendants(gs, g, rank));
  }

  lemma {:induction false} BelowChild(gs: Groups, g: GroupId, c: GroupId, x: GroupId, rank: map<GroupId, nat>)
    requires Ranked(gs, rank) && c in Children(gs, g) && g in gs
    requires x in Descendants(gs, c, rank)
    ensures x in Descendants(gs, g, rank)
    decreases rank[x]
  {
    DescendantStep(gs, c, x, rank);
    var q := gs[x].parent.value;
    if q != c {
      BelowChild(gs, g, c, q, rank);
    }
    DescendantStep(gs, g, c, rank);
    DescendantStep(gs, g, x, rank);
  }

  /** The state of a walk over the children of `g`: the children no longer `pending`
      have been visited along with their subtrees, and `covered` holds only groups
      below `g`. */
  ghost predicate Covers(gs: Groups, g: GroupId, rank: map<GroupId, nat>, pending: set<GroupId>, covered: set<GroupId>)
    requires Ranked(gs, rank)
  {
    pending <= Children(gs, g) &&
    covered <= Descendants(gs, g, rank) &&
    forall d :: d in Children(gs, g) - pending ==> d in covered && Descendants(gs, d, rank) <= covered
  }

  /** Visiting child `c` and its subtree keeps the walk's state, and `c`'s subtree is
      smaller than `g`'s. */
  lemma CoverStep(gs: Groups, g: GroupId, rank: map<GroupId, nat>, pending: set<GroupId>, covered: set<GroupId>, c: GroupId)
    requires Ranked(gs, rank) && g in gs && c in pending
    requires Covers(gs, g, rank, pending, covered)
    ensures Covers(gs, g, rank, pending - {c}, covered + {c} + Descendants(gs, c, rank))
    ensures c in gs && |Descendants(gs, c, rank)| < |Descendants(gs, g, rank)|
  {
    ChildDescendants(gs, g, c, rank);
  }

  /** A walk that has visited every child has covered exactly the groups below `g`. */
  lemma CoverDone(gs: Groups, g: GroupId, rank: map<GroupId, nat>, covered: set<GroupId>)
    requires Ranked(gs, rank) && Covers(gs, g, rank, {}, covered)
    ensures covered == Descendants(gs, g, rank)
  {
    forall x | x in Descendants(gs, g, rank) ensures x in covered {
      DescendantVia(gs, g, x, rank);
    }
  }

  /** Everything below `g` is a child of `g` or lies below one. */
  lemma {:induction false} DescendantVia(gs: Groups, g: GroupId, x: GroupId, rank: map<GroupId, nat>)
    requires Ranked(gs, rank) && x in Descendants(gs, g, rank)
    ensures exists c :: c in Children(gs, g) && (x == c || x in Descendants(gs, c, rank))
    decreases rank[x]
  {
    DescendantStep(gs, g, x, rank);
    var q := gs[x].parent.value;
    if q == g {
      assert x in Children(gs, g);
    } else {
      DescendantVia(gs, g, q, rank);
      var c :| c in Children(gs, g) && (q == c || q in Descendants(gs, c, rank));
      DescendantStep(gs, c, x, rank);
    }
  }

  /** The lineage is a chain of parent links from `g` up to a root: it starts at `g`,
      each entry's parent is the next entry, the last entry has no parent, and no
      group appears twice. */
  lemma {:induction false} LineageShape(gs: Groups, g: GroupId, rank: map<GroupId, nat>)
    requires Ranked(gs, rank) && Closed(gs) && g in gs
    ensures var l := Lineage(gs, g, rank);
      l[0] == g && Elems(l) <= gs.Keys &&
      (forall k :: 0 <= k < |l| - 1 ==> gs[l[k]].parent == Some(l[k + 1])) &&
      gs[l[|l| - 1]].parent.None? &&
      NoDup(l)
    decreases rank[g]
  {
    var l := Lineage(gs, g, rank);
    AncestryRanks(gs, gs[g].parent, rank);
    if gs[g].parent.Some? {
      var p := gs[g].parent.value;
      LineageShape(gs, p, rank);
      var m := Lineage(gs, p, rank);
      assert l == [g] + m;
      forall k | 0 <= k < |l| - 1 ensures gs[l[k]].parent == Some(l[k + 1]) {
        if k > 0 {
          assert l[k] == m[k - 1] && l[k + 1] == m[k];
        }
      }
      forall i, j | 0 <= i < j < |l| ensures l[i] != l[j] {
        if i == 0 {
          assert l[j] == m[j - 1];
          assert l[j] in Ancestry(gs, gs[g].parent, rank);
        } else {
          assert l[i] == m[i - 1] && l[j] == m[j - 1];
        }
      }
    }
  }

  /** The lineage of `g` holds exactly `g` and the groups `g` lies below. */
  lemma LineageIsAncestors(gs: Groups, g: GroupId, a: GroupId, rank: map<GroupId, nat>)
    requires Ranked(gs, rank) && g in gs
    ensures a in Lineage(gs, g, rank) <==> a == g || g in Descendants(gs, a, rank)
  {
  }

  /** The groups whose parent link is cleared: the direct children of `g`. */
  function Detach(gs: Groups, cs: set<GroupId>): (r: Groups)
    ensures r.Keys == gs.Keys
  {
    map x | x in gs :: if x in cs then gs[x].(parent := None) else gs[x]
  }

  /** The parent change that editing group `g` performs: when the new parent `p`
      differs from the current one and lies below `g`, every direct child of `g` loses
      its parent first; then `g` takes `p` as parent. */
  ghost function Reparented(gs: Groups, g: GroupId, p: Option<GroupId>, rank: map<GroupId, nat>): Groups
    requires Ranked(gs, rank) && g in gs
  {
    var detached :=
      if p.Some? && p != gs[g].parent && p.value in Descendants(gs, g, rank)
      then Detach(gs, Children(gs, g)) else gs;
    detached[g := detached[g].(parent := p)]
  }

  /** Only `g`'s parent link and those of `g`'s direct children can change, and the
      children's links change only to null. */
  lemma ReparentFrame(gs: Groups, g: GroupId, p: Option<GroupId>, rank: map<GroupId, nat>)
    requires Ranked(gs, rank) && g in gs
    ensures var r := Reparented(gs, g, p, rank);
      r.Keys == gs.Keys && r[g].parent == p && r[g].name == gs[g].name && r[g].school == gs[g].school &&
      forall x | x in gs && x != g ::
        r[x].name == gs[x].name && r[x].school == gs[x].school &&
        (r[x].parent == gs[x].parent || (x in Children(gs, g) && r[x].parent.None?))
  {
  }

  /** Starting from a tree, giving a group any parent other than itself (or none) leaves
      a tree; `rank'` is a witness for the result. */
  lemma ReparentKeepsForest(gs: Groups, g: GroupId, p: Option<GroupId>, rank: map<GroupId, nat>)
    returns (rank': map<GroupId, nat>)
    requires Ranked(gs, rank) && Closed(gs) && g in gs
    requires p.None? || (p.value in gs && p.value != g)
    ensures Ranked(Reparented(gs, g, p, rank), rank')
    ensures Closed(Reparented(gs, g, p, rank))
  {
    var r := Reparented(gs, g, p, rank);
    var desc := Descendants(gs, g, rank);
    if p.None? || p == gs[g].parent {
      rank' := rank;
    } else if p.value in desc {
      var q := p.value;
      rank' := rank[g := rank[q] + 1];
      forall x | x in r && r[x].parent.Some? && r[x].parent.value in r
        ensures rank'[r[x].parent.value] < rank'[x]
      {
        if x != g {
          assert x !in Children(gs, g);
        }
      }
    } else {
      var q := p.value;
      rank' := map x | x in rank :: if x == g || x in desc then rank[x] + rank[q] + 1 else rank[x];
      forall x | x in r && r[x].parent.Some? && r[x].parent.value in r
        ensures rank'[r[x].parent.value] < rank'[x]
      {
        if x != g {
          DescendantStep(gs, g, x, rank);
        }
      }
    }
  }

  /** Renaming a group touches no parent link. */
  lemma RenameKeepsForest(gs: Groups, g: GroupId, name: string, rank: map<GroupId, nat>)
    requires Ranked(gs, rank) && Closed(gs) && g in gs
    ensures Ranked(gs[g := gs[g].(name := name)], rank) && Closed(gs[g := gs[g].(name := name)])
  {
  }

  /** Giving a group itself as parent, as an edit that is not rejected would, leaves a
      group that is its own parent: no rank can witness the result, so every walk up the
      parent links from that group goes on forever. */
  lemma SelfParentingCycles(gs: Groups, g: GroupId, rank: map<GroupId, nat>)
    requires Ranked(gs, rank) && g in gs
    ensures Reparented(gs, g, Some(g), rank)[g].parent == Some(g)
    ensures !Forest(Reparented(gs, g, Some(g), rank))
  {
    var r := Reparented(gs, g, Some(g), rank);
    NotOwnAncestor(gs, g, rank);
    assert r.Keys == gs.Keys && r[g].parent == Some(g) by {
      ReparentFrame(gs, g, Some(g), rank);
    }
  }
}
