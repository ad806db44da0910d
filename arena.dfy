/**
 * The binary tree of both discretizer variants, stored as an arena: a
 * sequence of TreeNode records whose `left`, `right` and `parent` fields are
 * indices into the sequence. Node 0 is the root. Nodes are only ever
 * appended, and a node's children are appended after it, so every child
 * index is larger than its parent's; that is what makes each descent
 * terminate.
 *
 * The walks here are the code shared word for word by src/discretizer.c and
 * groupCodeTest.c: find_leftmost_leaf, find_rightmost_leaf, get_sibling and
 * the descent loop of find_group_id / query_and_update.
 */
module Arena {
  import opened DiscretizerTypes

  /** Links of node i stay in the arena; children come after it, the parent before it. */
  ghost predicate ChildLinks(nodes: seq<TreeNode>, i: int)
    requires 0 <= i < |nodes|
  {
    && (nodes[i].left.Some? ==> i < nodes[i].left.value < |nodes|)
    && (nodes[i].right.Some? ==> i < nodes[i].right.value < |nodes|)
    && (nodes[i].parent.Some? ==> nodes[i].parent.value < i)
  }

  /** Node i refers to a bucket slot of the table. */
  ghost predicate GroupLink(nodes: seq<TreeNode>, gs: seq<Group>, i: int)
    requires 0 <= i < |nodes|
  {
    nodes[i].group.Some? && nodes[i].group.value < |gs|
  }

  ghost predicate Descendable(nodes: seq<TreeNode>)
  {
    forall i :: 0 <= i < |nodes| ==> ChildLinks(nodes, i)
  }

  ghost predicate Navigable(nodes: seq<TreeNode>, gs: seq<Group>)
  {
    && Descendable(nodes)
    && forall i :: 0 <= i < |nodes| ==> GroupLink(nodes, gs, i)
  }

  /**
   * The shape node i has in every reachable state: it refers to a bucket
   * already handed out; it has either no child or two distinct children,
   * whose parent link comes back to it; it is a leaf exactly when its bucket
   * is active; every node but the root has a parent, which has it as a
   * child. As parents come earlier in the arena (ChildLinks), following
   * parent links from any node ends at the root.
   */
  ghost predicate NodeShape(nodes: seq<TreeNode>, gs: seq<Group>, used: int, i: int)
    requires 0 <= i < |nodes|
  {
    var nd := nodes[i];
    && ChildLinks(nodes, i)
    && GroupLink(nodes, gs, i)
    && nd.group.value < used
    && (nd.left.Some? ==> nodes[nd.left.value].parent == Some(i))
    && (nd.right.Some? ==> nodes[nd.right.value].parent == Some(i))
    && (nd.left.None? <==> nd.right.None?)
    && (nd.left.Some? ==> nd.left != nd.right)
    && (gs[nd.group.value].active <==> nd.left.None?)
    && (i > 0 ==> nd.parent.Some?)
    && (nd.parent.Some? ==>
          nodes[nd.parent.value].left == Some(i) || nodes[nd.parent.value].right == Some(i))
  }

  /**
   * The tree invariant: a root that refers to bucket 0, every node shaped as
   * above, bucket ids equal to their slots in the used part of the table,
   * and no two nodes sharing a bucket.
   */
  ghost predicate WellFormed(nodes: seq<TreeNode>, gs: seq<Group>, used: int)
  {
    && 1 <= |nodes|
    && 0 <= used <= |gs|
    && nodes[0].group == Some(0)
    && (forall k :: 0 <= k < used ==> gs[k].groupId == k)
    && (forall i :: 0 <= i < |nodes| ==> NodeShape(nodes, gs, used, i))
    && (forall i, j :: 0 <= i < j < |nodes| ==> nodes[i].group != nodes[j].group)
  }

  lemma WellFormedNavigable(nodes: seq<TreeNode>, gs: seq<Group>, used: int)
    requires WellFormed(nodes, gs, used)
    ensures Navigable(nodes, gs)
  {
    forall i | 0 <= i < |nodes|
      ensures ChildLinks(nodes, i) && GroupLink(nodes, gs, i)
    {
      assert NodeShape(nodes, gs, used, i);
    }
  }

  /**
   * A table whose used part holds as many active buckets as the table has
   * slots leaves the tree a lone root: every bucket is then active, so no
   * node has children, and so no node but the root can have a parent.
   */
  lemma FullTableLoneRoot(nodes: seq<TreeNode>, gs: seq<Group>, used: int)
    requires WellFormed(nodes, gs, used) && ActiveCount(gs[..used]) >= |gs|
    ensures |nodes| == 1 && nodes[0].left.None? && nodes[0].right.None?
  {
    assert used == |gs|;
    ActiveCountFull(gs[..used]);
    assert forall k :: 0 <= k < |gs| ==> gs[k] == gs[..used][k];
    assert NodeShape(nodes, gs, used, 0);
    if |nodes| > 1 {
      ParentIsInner(nodes, gs, used, 1);
      assert false;
    }
  }

  /** The parent of a node other than the root is an inner node, whose bucket is inactive. */
  lemma ParentIsInner(nodes: seq<TreeNode>, gs: seq<Group>, used: int, i: nat)
    requires WellFormed(nodes, gs, used) && 0 < i < |nodes|
    ensures nodes[i].parent.Some? && nodes[i].parent.value < i
    ensures var p := nodes[i].parent.value;
      nodes[p].group.Some? && nodes[p].group.value < used && !gs[nodes[p].group.value].active
  {
    assert NodeShape(nodes, gs, used, i);
    assert NodeShape(nodes, gs, used, nodes[i].parent.value);
  }

  /** The source's leaf test: the node's bucket is present and active. */
  predicate IsLeaf(nodes: seq<TreeNode>, gs: seq<Group>, i: nat)
  {
    && i < |nodes|
    && nodes[i].group.Some?
    && nodes[i].group.value < |gs|
    && gs[nodes[i].group.value].active
  }

  /** The child a descent for v follows: left when v is below the split value. */
  function Next(nd: TreeNode, v: int): Option<nat>
  {
    if v < nd.splitValue then nd.left else nd.right
  }

  /** The leaf a descent for v reaches from node i (None where C would stop on NULL). */
  ghost function Route(nodes: seq<TreeNode>, gs: seq<Group>, v: int, i: nat): Option<nat>
    decreases |nodes| - i
  {
    if i >= |nodes| then None
    else if IsLeaf(nodes, gs, i) then Some(i)
    else match Next(nodes[i], v)
      case None => None
      case Some(j) => if j <= i || j >= |nodes| then None else Route(nodes, gs, v, j)
  }

  /** What find_group_id answers: the id of the bucket the descent from the root reaches, or -1. */
  ghost function LookupId(nodes: seq<TreeNode>, gs: seq<Group>, v: int): int
  {
    match Route(nodes, gs, v, 0)
    case None => -1
    case Some(n) => if IsLeaf(nodes, gs, n) then gs[nodes[n].group.value].groupId else -1
  }

  /** In a well-formed tree every descent ends at a leaf at or below its start. */
  lemma {:induction false} RouteReachesLeaf(nodes: seq<TreeNode>, gs: seq<Group>, used: int, v: int, i: nat)
    requires WellFormed(nodes, gs, used) && i < |nodes|
    ensures Route(nodes, gs, v, i).Some?
    ensures i <= Route(nodes, gs, v, i).value < |nodes|
    ensures IsLeaf(nodes, gs, Route(nodes, gs, v, i).value)
    decreases |nodes| - i
  {
    if !IsLeaf(nodes, gs, i) {
      assert NodeShape(nodes, gs, used, i);
      RouteReachesLeaf(nodes, gs, used, v, Next(nodes[i], v).value);
    }
  }

  /** The lookup of a well-formed tree names an active bucket handed out so far. */
  lemma LookupLands(nodes: seq<TreeNode>, gs: seq<Group>, used: int, v: int)
    requires WellFormed(nodes, gs, used)
    ensures Route(nodes, gs, v, 0).Some? && IsLeaf(nodes, gs, Route(nodes, gs, v, 0).value)
    ensures LookupId(nodes, gs, v) == nodes[Route(nodes, gs, v, 0).value].group.value
    ensures 0 <= LookupId(nodes, gs, v) < used && gs[LookupId(nodes, gs, v)].active
  {
    RouteReachesLeaf(nodes, gs, used, v, 0);
    assert NodeShape(nodes, gs, used, Route(nodes, gs, v, 0).value);
  }

  /** Same ids and active flags in two tables: bucket statistics may differ. */
  ghost predicate SameFlags(a: seq<Group>, b: seq<Group>)
  {
    && |a| == |b|
    && forall k :: 0 <= k < |a| ==> a[k].groupId == b[k].groupId && a[k].active == b[k].active
  }

  /** Same sample counts in two tables. */
  ghost predicate SameCounts(a: seq<Group>, b: seq<Group>)
  {
    && |a| == |b|
    && forall k :: 0 <= k < |a| ==> a[k].count == b[k].count
  }

  /** Two different nodes of a well-formed tree refer to two different buckets. */
  lemma DistinctGroups(nodes: seq<TreeNode>, gs: seq<Group>, used: int, i: nat, j: nat)
    requires WellFormed(nodes, gs, used) && i < |nodes| && j < |nodes| && i != j
    ensures nodes[i].group.Some? && nodes[j].group.Some?
    ensures nodes[i].group.value != nodes[j].group.value
  {
    assert NodeShape(nodes, gs, used, i);
    assert NodeShape(nodes, gs, used, j);
    if i < j {
      assert nodes[i].group != nodes[j].group;
    } else {
      assert nodes[j].group != nodes[i].group;
    }
  }

  /** A node with its split value forgotten: what a boundary adjustment never changes. */
  function Links(nd: TreeNode): TreeNode
  {
    nd.(splitValue := 0)
  }

  ghost predicate SameShape(a: seq<TreeNode>, b: seq<TreeNode>)
  {
    && |a| == |b|
    && forall i :: 0 <= i < |a| ==> Links(a[i]) == Links(b[i])
  }

  /** The descent reads only split values and active flags, not bucket bounds or counts. */
  lemma {:induction false} RouteIgnoresStats(nodes: seq<TreeNode>, a: seq<Group>, b: seq<Group>, v: int, i: nat)
    requires SameFlags(a, b)
    ensures Route(nodes, a, v, i) == Route(nodes, b, v, i)
    decreases |nodes| - i
  {
    if i < |nodes| && !IsLeaf(nodes, a, i) {
      match Next(nodes[i], v)
      case None =>
      case Some(j) =>
        if i < j < |nodes| {
          RouteIgnoresStats(nodes, a, b, v, j);
        }
    }
  }

  /**
   * The descent loop of find_group_id and query_and_update: from the root,
   * stop at the first node whose bucket is active, else go left when v is
   * below the split value and right otherwise; NULL ends the walk.
   */
  method FindLeaf(nodes: seq<TreeNode>, gs: seq<Group>, v: int) returns (leaf: Option<nat>)
    requires |nodes| >= 1 && Navigable(nodes, gs)
    ensures leaf == Route(nodes, gs, v, 0)
    ensures leaf.Some? ==> IsLeaf(nodes, gs, leaf.value)
  {
    var current: Option<nat> := Some(0);
    while current.Some?
      invariant current.Some? ==> current.value < |nodes|
      invariant current.Some? ==> Route(nodes, gs, v, current.value) == Route(nodes, gs, v, 0)
      invariant current.None? ==> Route(nodes, gs, v, 0).None?
      decreases if current.Some? then |nodes| - current.value + 1 else 0
    {
      var i := current.value;
      if IsLeaf(nodes, gs, i) {
        return Some(i);
      }
      assert ChildLinks(nodes, i);
      current := Next(nodes[i], v);
    }
    return None;
  }

  /**
   * find_group_id on a well-formed tree: the id of the bucket the descent
   * for v reaches, which is a used, active bucket's slot.
   */
  method FindGroupId(nodes: seq<TreeNode>, gs: seq<Group>, used: int, v: int) returns (id: int)
    requires WellFormed(nodes, gs, used)
    ensures id == LookupId(nodes, gs, v)
    ensures 0 <= id < used && gs[id].active
  {
    WellFormedNavigable(nodes, gs, used);
    LookupLands(nodes, gs, used, v);
    var leaf := FindLeaf(nodes, gs, v);
    if leaf.None? {
      return -1;
    }
    id := gs[nodes[leaf.value].group.value].groupId;
  }

  /** The leaf find_leftmost_leaf reaches: always the left child when there is one. */
  ghost function LeftmostLeaf(nodes: seq<TreeNode>, i: nat): nat
    decreases |nodes| - i
  {
    if i >= |nodes| || (nodes[i].left.None? && nodes[i].right.None?) then i
    else
      var j := if nodes[i].left.Some? then nodes[i].left.value else nodes[i].right.value;
      if j <= i || j >= |nodes| then i else LeftmostLeaf(nodes, j)
  }

  /** The leaf find_rightmost_leaf reaches: always the right child when there is one. */
  ghost function RightmostLeaf(nodes: seq<TreeNode>, i: nat): nat
    decreases |nodes| - i
  {
    if i >= |nodes| || (nodes[i].left.None? && nodes[i].right.None?) then i
    else
      var j := if nodes[i].right.Some? then nodes[i].right.value else nodes[i].left.value;
      if j <= i || j >= |nodes| then i else RightmostLeaf(nodes, j)
  }

  /** find_leftmost_leaf: walk down, preferring the left child, until a node has no child. */
  method FindLeftmostLeaf(nodes: seq<TreeNode>, start: nat) returns (leaf: nat)
    requires start < |nodes| && Descendable(nodes)
    ensures leaf == LeftmostLeaf(nodes, start)
    ensures start <= leaf < |nodes|
    ensures nodes[leaf].left.None? && nodes[leaf].right.None?
  {
    leaf := start;
    while nodes[leaf].left.Some? || nodes[leaf].right.Some?
      invariant start <= leaf < |nodes|
      invariant LeftmostLeaf(nodes, leaf) == LeftmostLeaf(nodes, start)
      decreases |nodes| - leaf
    {
      assert ChildLinks(nodes, leaf);
      if nodes[leaf].left.Some? {
        leaf := nodes[leaf].left.value;
      } else {
        leaf := nodes[leaf].right.value;
      }
    }
  }

  /** find_rightmost_leaf: walk down, preferring the right child, until a node has no child. */
  method FindRightmostLeaf(nodes: seq<TreeNode>, start: nat) returns (leaf: nat)
    requires start < |nodes| && Descendable(nodes)
    ensures leaf == RightmostLeaf(nodes, start)
    ensures start <= leaf < |nodes|
    ensures nodes[leaf].left.None? && nodes[leaf].right.None?
  {
    leaf := start;
    while nodes[leaf].left.Some? || nodes[leaf].right.Some?
      invariant start <= leaf < |nodes|
      invariant RightmostLeaf(nodes, leaf) == RightmostLeaf(nodes, start)
      decreases |nodes| - leaf
    {
      assert ChildLinks(nodes, leaf);
      if nodes[leaf].right.Some? {
        leaf := nodes[leaf].right.value;
      } else {
        leaf := nodes[leaf].left.value;
      }
    }
  }

  /** In a well-formed tree a node without children is a leaf: its bucket is active. */
  lemma ChildlessIsLeaf(nodes: seq<TreeNode>, gs: seq<Group>, used: int, i: nat)
    requires WellFormed(nodes, gs, used) && i < |nodes|
    requires nodes[i].left.None? && nodes[i].right.None?
    ensures IsLeaf(nodes, gs, i)
  {
    assert NodeShape(nodes, gs, used, i);
  }

  /** get_sibling: the parent's other child, or None for the root. */
  function GetSibling(nodes: seq<TreeNode>, i: nat): (s: Option<nat>)
    ensures s.Some? ==> i < |nodes| && nodes[i].parent.Some? && nodes[i].parent.value < |nodes|
  {
    if i >= |nodes| || nodes[i].parent.None? || nodes[i].parent.value >= |nodes| then None
    else
      var p := nodes[nodes[i].parent.value];
      if p.left == Some(i) then p.right else p.left
  }

  /** In a well-formed tree every node with a parent has a sibling: another node with the same parent. */
  lemma SiblingIsOtherChild(nodes: seq<TreeNode>, gs: seq<Group>, used: int, i: nat)
    requires WellFormed(nodes, gs, used) && i < |nodes| && nodes[i].parent.Some?
    ensures GetSibling(nodes, i).Some?
    ensures GetSibling(nodes, i).value < |nodes|
    ensures GetSibling(nodes, i).value != i
    ensures nodes[GetSibling(nodes, i).value].parent == nodes[i].parent
  {
    assert NodeShape(nodes, gs, used, i);
    var p := nodes[i].parent.value;
    assert NodeShape(nodes, gs, used, p);
  }

  /**
   * The arena after split_group on leaf n with split point p: n gets the split
   * value and two new children appended at the end, which refer to the fresh
   * buckets ng and ng + 1 and link back to n.
   */
  function SplitNodes(nodes: seq<TreeNode>, n: nat, p: int, ng: nat): seq<TreeNode>
    requires n < |nodes|
  {
    var last := |nodes|;
    nodes[n := nodes[n].(splitValue := p, left := Some(last), right := Some(last + 1))]
      + [NewNode(0, ng).(parent := Some(n)), NewNode(0, ng + 1).(parent := Some(n))]
  }

  /**
   * The table after split_group on bucket g with split point p: g is
   * deactivated, ng becomes [g.min, p] and ng + 1 becomes [p, g.max], both
   * active and empty.
   */
  function SplitGroups(gs: seq<Group>, g: nat, ng: nat, p: int): seq<Group>
    requires g < |gs| && ng + 1 < |gs|
  {
    var old_ := gs[g];
    gs[g := old_.(active := false)]
      [ng := Group(ng, old_.min, p, 0, true)]
      [ng + 1 := Group(ng + 1, p, old_.max, 0, true)]
  }

  /** SplitGroups written in the order split_group performs its writes. */
  lemma SplitGroupsInOrder(gs: seq<Group>, g: nat, ng: nat, p: int)
    requires g < ng && ng + 1 < |gs|
    ensures SplitGroups(gs, g, ng, p)
         == gs[ng := Group(ng, gs[g].min, p, 0, true)][ng + 1 := Group(ng + 1, p, gs[g].max, 0, true)][g := gs[g].(active := false)]
  {
  }

  /** Splitting a leaf into two fresh buckets keeps the tree well formed. */
  lemma SplitKeepsWellFormed(nodes: seq<TreeNode>, gs: seq<Group>, used: int, n: nat, p: int)
    requires WellFormed(nodes, gs, used) && IsLeaf(nodes, gs, n) && used + 1 < |gs|
    ensures WellFormed(SplitNodes(nodes, n, p, used), SplitGroups(gs, nodes[n].group.value, used, p), used + 2)
  {
    var g := nodes[n].group.value;
    var nodes' := SplitNodes(nodes, n, p, used);
    var gs' := SplitGroups(gs, g, used, p);
    var last := |nodes|;
    var used' := used + 2;
    assert NodeShape(nodes, gs, used, n);
    forall k | 0 <= k < used'
      ensures gs'[k].groupId == k
    {
    }
    forall i | 0 <= i < |nodes'|
      ensures NodeShape(nodes', gs', used', i)
    {
      if i < last && i != n {
        assert NodeShape(nodes, gs, used, i);
        assert nodes'[i] == nodes[i];
        var nd := nodes[i];
        if nd.parent.Some? {
          assert nd.parent.value != n;
        }
        if nd.left.Some? {
          assert nodes'[nd.left.value].parent == nodes[nd.left.value].parent;
          assert nodes'[nd.right.value].parent == nodes[nd.right.value].parent;
        }
        assert nd.group.value != g;
      } else if i == n {
        var nd := nodes[n];
        if nd.parent.Some? {
          assert nodes'[nd.parent.value] == nodes[nd.parent.value];
        }
      }
    }
    forall i, j | 0 <= i < j < |nodes'|
      ensures nodes'[i].group != nodes'[j].group
    {
      if j < last {
        assert nodes'[i].group == nodes[i].group;
        assert nodes'[j].group == nodes[j].group;
      } else if i < last {
        assert NodeShape(nodes, gs, used, i);
      }
    }
  }

  /** Splitting adds exactly one active bucket to the used part of the table. */
  lemma SplitAddsOneActive(gs: seq<Group>, g: nat, used: nat, p: int)
    requires g < used && used + 1 < |gs| && gs[g].active
    ensures ActiveCount(SplitGroups(gs, g, used, p)[..used + 2]) == ActiveCount(gs[..used]) + 1
  {
    var old_ := gs[g];
    var before := gs[..used];
    var lowered := before[g := old_.(active := false)];
    var a := Group(used, old_.min, p, 0, true);
    var b := Group(used + 1, p, old_.max, 0, true);
    assert SplitGroups(gs, g, used, p)[..used + 2] == lowered + [a] + [b];
    ActiveCountUpdate(before, g, old_.(active := false));
    ActiveCountAppend(lowered, a);
    ActiveCountAppend(lowered + [a], b);
  }

  /** Rewriting one bucket's statistics keeps every id and flag. */
  lemma StatsUpdateKeepsFlags(gs: seq<Group>, i: nat, g: Group)
    requires i < |gs| && g.groupId == gs[i].groupId && g.active == gs[i].active
    ensures SameFlags(gs, gs[i := g])
  {
  }

  /** Two frame-preserving steps in a row preserve the frame. */
  lemma FramesCompose(n0: seq<TreeNode>, g0: seq<Group>, n1: seq<TreeNode>, g1: seq<Group>, n2: seq<TreeNode>, g2: seq<Group>)
    requires SameShape(n0, n1) && SameFlags(g0, g1) && SameCounts(g0, g1)
    requires SameShape(n1, n2) && SameFlags(g1, g2) && SameCounts(g1, g2)
    ensures SameShape(n0, n2) && SameFlags(g0, g2) && SameCounts(g0, g2)
  {
  }

  lemma FlagsCompose(a: seq<Group>, b: seq<Group>, c: seq<Group>)
    requires SameFlags(a, b) && SameFlags(b, c)
    ensures SameFlags(a, c)
  {
  }

  /**
   * The bound updates of adjust_boundary on the table: the edge bucket eg
   * and its sibling sg meet at p. For the left edge the edge's max and the
   * sibling's min become p; for the right edge the sibling's max and the
   * edge's min. Every other bucket, and every id, flag and count, is kept.
   */
  function MeetGroups(gs: seq<Group>, eg: nat, sg: nat, p: int, isLeftEdge: bool): (r: seq<Group>)
    requires eg < |gs| && sg < |gs| && eg != sg
    ensures SameFlags(gs, r) && SameCounts(gs, r)
    ensures isLeftEdge ==> r[eg] == gs[eg].(max := p) && r[sg] == gs[sg].(min := p)
    ensures !isLeftEdge ==> r[sg] == gs[sg].(max := p) && r[eg] == gs[eg].(min := p)
    ensures forall k :: 0 <= k < |gs| && k != eg && k != sg ==> r[k] == gs[k]
  {
    if isLeftEdge then gs[eg := gs[eg].(max := p)][sg := gs[sg].(min := p)]
    else gs[sg := gs[sg].(max := p)][eg := gs[eg].(min := p)]
  }

  /** adjust_boundary's bound updates performed in place, in the order the C code writes them. */
  method MeetAt(groups: array<Group>, eg: nat, sg: nat, p: int, isLeftEdge: bool)
    requires eg < groups.Length && sg < groups.Length && eg != sg
    modifies groups
    ensures groups[..] == MeetGroups(old(groups[..]), eg, sg, p, isLeftEdge)
  {
    if isLeftEdge {
      groups[eg] := groups[eg].(max := p);
      groups[sg] := groups[sg].(min := p);
    } else {
      groups[sg] := groups[sg].(max := p);
      groups[eg] := groups[eg].(min := p);
    }
  }

  /** Changing split values and bucket statistics, but no link and no flag, keeps the tree well formed. */
  lemma FrameKeepsWellFormed(nodes: seq<TreeNode>, gs: seq<Group>, used: int, nodes': seq<TreeNode>, gs': seq<Group>)
    requires WellFormed(nodes, gs, used)
    requires SameShape(nodes, nodes') && SameFlags(gs, gs')
    ensures WellFormed(nodes', gs', used)
    ensures 0 <= used ==> ActiveCount(gs'[..used]) == ActiveCount(gs[..used])
  {
    forall i | 0 <= i < |nodes'|
      ensures NodeShape(nodes', gs', used, i)
    {
      assert NodeShape(nodes, gs, used, i);
      assert Links(nodes[i]) == Links(nodes'[i]);
      var nd := nodes[i];
      if nd.left.Some? {
        assert Links(nodes[nd.left.value]) == Links(nodes'[nd.left.value]);
        assert Links(nodes[nd.right.value]) == Links(nodes'[nd.right.value]);
      }
      if nd.parent.Some? {
        assert Links(nodes[nd.parent.value]) == Links(nodes'[nd.parent.value]);
      }
    }
    forall i, j | 0 <= i < j < |nodes'|
      ensures nodes'[i].group != nodes'[j].group
    {
      assert Links(nodes[i]) == Links(nodes'[i]);
      assert Links(nodes[j]) == Links(nodes'[j]);
    }
    assert Links(nodes[0]) == Links(nodes'[0]);
    ActiveCountSameFlags(gs'[..used], gs[..used]);
  }
  /** A discretizer's state as a value: the tree, the bucket table and the two counters. */
  datatype Snapshot = Snapshot(nodes: seq<TreeNode>, groups: seq<Group>, groupCount: int, nextGroupId: int)

  /** Node n lies in the arena and refers to a slot of the table. */
  ghost predicate HasBucket(s: Snapshot, n: nat)
  {
    n < |s.nodes| && s.nodes[n].group.Some? && s.nodes[n].group.value < |s.groups|
  }

  /** The statistics update of query_and_update applied to the bucket of node n. */
  ghost function Recorded(s: Snapshot, n: nat, v: int): Snapshot
    requires HasBucket(s, n)
  {
    var g := s.nodes[n].group.value;
    s.(groups := s.groups[g := Observe(s.groups[g], v)])
  }

  /**
   * The writes of split_group on leaf n at split point p as a function of
   * the state: SplitNodes and SplitGroups with the next two free slots, one
   * more active bucket and two slots used.
   */
  ghost function SplitAt(s: Snapshot, n: nat, p: int): Snapshot
    requires HasBucket(s, n) && 0 <= s.nextGroupId && s.nextGroupId + 1 < |s.groups|
  {
    Snapshot(SplitNodes(s.nodes, n, p, s.nextGroupId),
             SplitGroups(s.groups, s.nodes[n].group.value, s.nextGroupId, p),
             s.groupCount + 1, s.nextGroupId + 2)
  }

  /**
   * The index of the leaf the descent for v reaches from the root (the root
   * itself where the descent reaches none).
   */
  ghost function LeafIndex(nodes: seq<TreeNode>, gs: seq<Group>, v: int): (n: nat)
    ensures |nodes| > 0 ==> n < |nodes|
  {
    match Route(nodes, gs, v, 0)
    case None => 0
    case Some(i) => if i < |nodes| then i else 0
  }

  /**
   * What the writes of adjust_boundary touch is there: the edge has a
   * bucket, a parent and a sibling, the sibling has a bucket of its own,
   * and all of them lie inside the arena and the table.
   */
  ghost predicate Movable(s: Snapshot, edge: nat)
  {
    && edge < |s.nodes|
    && s.nodes[edge].group.Some? && s.nodes[edge].group.value < |s.groups|
    && s.nodes[edge].parent.Some? && s.nodes[edge].parent.value < |s.nodes|
    && GetSibling(s.nodes, edge).Some? && GetSibling(s.nodes, edge).value < |s.nodes|
    && s.nodes[GetSibling(s.nodes, edge).value].group.Some?
    && s.nodes[GetSibling(s.nodes, edge).value].group.value < |s.groups|
    && s.nodes[GetSibling(s.nodes, edge).value].group.value != s.nodes[edge].group.value
  }

  /** The bucket slot of a movable edge. */
  ghost function EdgeSlot(s: Snapshot, edge: nat): nat
    requires Movable(s, edge)
  {
    s.nodes[edge].group.value
  }

  /** The bucket slot of a movable edge's sibling. */
  ghost function SiblingSlot(s: Snapshot, edge: nat): nat
    requires Movable(s, edge)
  {
    s.nodes[GetSibling(s.nodes, edge).value].group.value
  }

  /**
   * The state after the writes of adjust_boundary on a movable edge with
   * boundary p: the edge's parent takes split value p, and the edge's and
   * its sibling's buckets meet at p.
   */
  ghost function Moved(s: Snapshot, edge: nat, p: int, isLeftEdge: bool): Snapshot
    requires Movable(s, edge)
  {
    var pn := s.nodes[edge].parent.value;
    s.(nodes := s.nodes[pn := s.nodes[pn].(splitValue := p)],
       groups := MeetGroups(s.groups, EdgeSlot(s, edge), SiblingSlot(s, edge), p, isLeftEdge))
  }

  /** The writes of adjust_boundary change only split values and bucket bounds. */
  lemma MovedKeepsFrame(s: Snapshot, edge: nat, p: int, isLeftEdge: bool)
    requires Movable(s, edge)
    ensures var r := Moved(s, edge, p, isLeftEdge);
      SameShape(s.nodes, r.nodes) && SameFlags(s.groups, r.groups) && SameCounts(s.groups, r.groups)
  {
    var pn := s.nodes[edge].parent.value;
    assert Links(s.nodes[pn]) == Links(s.nodes[pn].(splitValue := p));
  }

  /** A split deactivates bucket g, opens two slots past the used ones, and keeps every other used bucket. */
  lemma SplitAtOutcome(t: Snapshot, n: nat, p: int, g: nat, r: Snapshot)
    requires HasBucket(t, n) && g == t.nodes[n].group.value && g < t.nextGroupId
    requires t.nextGroupId + 1 < |t.groups| && r == SplitAt(t, n, p)
    ensures r.groups[g] == t.groups[g].(active := false)
    ensures forall k :: 0 <= k < t.nextGroupId && k != g ==> r.groups[k] == t.groups[k]
    ensures r.groupCount == t.groupCount + 1 && r.nextGroupId == t.nextGroupId + 2
  {
  }

  /** In a well-formed tree every node with a parent is movable. */
  lemma WellFormedMovable(s: Snapshot, used: int, edge: nat)
    requires WellFormed(s.nodes, s.groups, used) && edge < |s.nodes| && s.nodes[edge].parent.Some?
    ensures Movable(s, edge)
  {
    var nodes, gs := s.nodes, s.groups;
    assert NodeShape(nodes, gs, used, edge);
    SiblingIsOtherChild(nodes, gs, used, edge);
    var sn := GetSibling(nodes, edge).value;
    assert NodeShape(nodes, gs, used, sn);
    DistinctGroups(nodes, gs, used, edge, sn);
  }

  /** Every used bucket that is active and has seen a sample has min <= max. */
  ghost predicate RangesOrdered(gs: seq<Group>, used: int)
  {
    forall k :: 0 <= k < used && k < |gs| ==> (gs[k].active && gs[k].count > 0 ==> gs[k].min <= gs[k].max)
  }

  /** Recording a sample in a used bucket keeps the ranges ordered. */
  lemma ObserveKeepsOrdered(gs: seq<Group>, used: int, g: nat, v: int)
    requires RangesOrdered(gs, used) && g < |gs|
    ensures RangesOrdered(gs[g := Observe(gs[g], v)], used)
  {
  }

  /** A split keeps the ranges ordered: its two fresh buckets are empty. */
  lemma SplitKeepsOrdered(gs: seq<Group>, g: nat, ng: nat, p: int)
    requires RangesOrdered(gs, ng) && g < |gs| && ng + 1 < |gs|
    ensures RangesOrdered(SplitGroups(gs, g, ng, p), ng + 2)
  {
  }
}
