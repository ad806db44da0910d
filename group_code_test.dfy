/**
 * groupCodeTest.c: the earlier, self-contained variant of the discretizer.
 * Its root bucket starts with the range given to init_discretizer and is
 * never widened; need_split applies the bare ratio test; the split point is
 * the integer geometric mean of the bounds (found by binary search), also
 * used for boundary adjustment; and at capacity each edge is adjusted once
 * per observation.
 */
module GroupCodeTest {
  import opened DiscretizerTypes
  import opened Arena
  import Final = Discretizer

  /** need_split of this variant: two samples and max >= 2 * min, whatever the sign of min. */
  function NeedSplit(g: Group): (b: bool)
    ensures b <==> g.count >= MIN_COUNT && !RatioHolds(g)
  {
    if g.count < 2 then false
    else g.max >= 2 * g.min
  }

  /**
   * Where the two need_split tests agree and differ: on a positive minimum
   * they agree, a bucket with min 0 and max 1 splits only here, and a
   * negative minimum splits only here.
   */
  lemma NeedSplitComparedWithFinal(g: Group)
    ensures g.min > 0 ==> (NeedSplit(g) <==> Final.NeedSplit(g))
    ensures g.min == 0 && g.max == 1 && g.count >= MIN_COUNT ==> NeedSplit(g) && !Final.NeedSplit(g)
    ensures g.min < 0 && g.count >= MIN_COUNT && g.max >= 2 * g.min ==> NeedSplit(g) && !Final.NeedSplit(g)
  {
  }

  /**
   * The binary search of calculate_split_point: the largest mid in
   * [lo, hi] whose square is at most target, or `best` when there is none.
   * (hi - lo) / 2 is never taken of a negative number here, so Dafny's
   * division agrees with C's.
   */
  function SearchSqrt(lo: int, hi: int, best: int, target: int): int
    decreases if lo <= hi then hi - lo + 1 else 0
  {
    if lo > hi then best
    else
      var mid := lo + (hi - lo) / 2;
      if mid * mid <= target then SearchSqrt(mid + 1, hi, mid, target)
      else SearchSqrt(lo, mid - 1, best, target)
  }

  lemma SquareMono(a: int, b: int)
    requires 0 <= a <= b
    ensures a * a <= b * b
  {
    assert a * a <= a * b;
    assert a * b <= b * b;
  }

  /**
   * The search finds the integer square root: started with a best guess
   * whose square fits and an upper end whose successor's square does not,
   * it returns r with r * r <= target < (r + 1) * (r + 1).
   */
  lemma {:induction false} SearchSqrtIsRoot(lo: int, hi: int, best: int, target: int)
    requires 0 <= best <= lo <= best + 1 && lo <= hi + 1
    requires best * best <= target < (hi + 1) * (hi + 1)
    ensures best <= SearchSqrt(lo, hi, best, target)
    ensures var r := SearchSqrt(lo, hi, best, target); r * r <= target < (r + 1) * (r + 1)
    decreases if lo <= hi then hi - lo + 1 else 0
  {
    if lo > hi {
      SquareMono(hi + 1, best + 1);
    } else {
      var mid := lo + (hi - lo) / 2;
      if mid * mid <= target {
        SearchSqrtIsRoot(mid + 1, hi, mid, target);
      } else {
        SearchSqrtIsRoot(lo, mid - 1, best, target);
      }
    }
  }

  /**
   * calculate_split_point of this variant: half the span when min is 0,
   * otherwise the integer geometric mean of min and max, clamped into
   * (min, max). Away from min == 0 the result is below max and strictly
   * inside once the span is 2 or more.
   */
  function SqrtSplitPoint(min: int, max: int): (p: int)
    ensures min != 0 ==> p < max
    ensures min != 0 && max - min >= 2 ==> min < p < max
    ensures min == 0 && max >= 0 ==> 0 <= 2 * p <= max < 2 * p + 2
  {
    if min == 0 then min + Half(max - min)
    else ClampInterior(min, max, SearchSqrt(min, max, min, min * max))
  }

  /**
   * On a positive range the split point is the integer geometric mean
   * (the largest p with p * p <= min * max), except that it is lifted to
   * min + 1 when that root is min itself and the span allows it.
   */
  lemma GeometricSplitPoint(min: int, max: int)
    requires 0 < min < max
    ensures var p := SqrtSplitPoint(min, max);
      && min <= p < max
      && min * max < (p + 1) * (p + 1)
      && (p * p <= min * max || p == min + 1)
  {
    var t := min * max;
    ProductBetweenSquares(min, max);
    SearchSqrtIsRoot(min, max, min, t);
    var s := SearchSqrt(min, max, min, t);
    if s >= max {
      SquareMono(max, s);
      assert false;
    }
    assert SqrtSplitPoint(min, max) == ClampInterior(min, max, s);
    if s == min && min + 1 < max {
      SquareMono(min + 1, min + 2);
    }
  }

  lemma ProductBetweenSquares(a: int, b: int)
    requires 0 < a < b
    ensures a * a < a * b < b * b
    ensures a * b < (b + 1) * (b + 1)
  {
    assert a * a < a * b;
    assert a * b < b * b;
    assert b * b < (b + 1) * (b + 1);
  }

  /** The loop of calculate_split_point, proved to compute SqrtSplitPoint. */
  method CalculateSplitPoint(min: int, max: int) returns (r: int)
    ensures r == SqrtSplitPoint(min, max)
  {
    if min == 0 {
      return min + Half(max - min);
    }
    var left := min;
    var right := max;
    var result := min;
    while left <= right
      invariant SearchSqrt(left, right, result, min * max) == SearchSqrt(min, max, min, min * max)
      decreases right - left + 1
    {
      var mid := left + (right - left) / 2;
      var square := mid * mid;
      if square <= min * max {
        result := mid;
        left := mid + 1;
      } else {
        right := mid - 1;
      }
    }
    if result <= min {
      result := min + 1;
    }
    if result >= max {
      result := max - 1;
    }
    r := result;
  }

  /** The severity test of this variant's adjust_boundary: max >= 2 * min * 11 / 10, in C's truncating arithmetic. */
  predicate SeverelyViolated(g: Group)
  {
    g.max >= CDiv(2 * g.min * 11, 10)
  }

  /**
   * The conditions under which this variant's adjust_boundary rebalances
   * `edge`: an active bucket with two samples that is severely violated,
   * a sibling whose bucket is active, and a parent.
   */
  ghost predicate Adjustable(nodes: seq<TreeNode>, gs: seq<Group>, edge: nat)
  {
    && edge < |nodes|
    && nodes[edge].group.Some? && nodes[edge].group.value < |gs|
    && (var e := gs[nodes[edge].group.value];
        e.active && e.count >= MIN_COUNT && SeverelyViolated(e))
    && GetSibling(nodes, edge).Some?
    && (var s := GetSibling(nodes, edge).value;
        && s < |nodes|
        && nodes[s].group.Some? && nodes[s].group.value < |gs|
        && gs[nodes[s].group.value].active)
    && nodes[edge].parent.Some?
  }

  /**
   * This variant's adjust_boundary as a function of the state: an edge that
   * can be rebalanced moves its parent's split value and the boundary it
   * shares with its sibling to the geometric split point of its own range;
   * otherwise nothing changes.
   */
  ghost function Adjusted(s: Snapshot, edge: nat, isLeftEdge: bool): (r: Snapshot)
    ensures |r.nodes| == |s.nodes| && |r.groups| == |s.groups|
    ensures r.groupCount == s.groupCount && r.nextGroupId == s.nextGroupId
  {
    if Adjustable(s.nodes, s.groups, edge) && Movable(s, edge) then
      var e := s.groups[EdgeSlot(s, edge)];
      Moved(s, edge, SqrtSplitPoint(e.min, e.max), isLeftEdge)
    else s
  }

  /**
   * An edge that can be rebalanced gets the geometric split point p of its
   * own range: the parent's split value and the bounds the edge shares with
   * its sibling become p, and no other bucket changes. A left edge away
   * from min == 0 strictly loses its top.
   */
  lemma AdjustedMeets(s: Snapshot, edge: nat, isLeftEdge: bool)
    requires Adjustable(s.nodes, s.groups, edge) && Movable(s, edge)
    ensures var r := Adjusted(s, edge, isLeftEdge);
      var eg := EdgeSlot(s, edge);
      var sg := SiblingSlot(s, edge);
      var e := s.groups[eg];
      var p := SqrtSplitPoint(e.min, e.max);
      && r.nodes[s.nodes[edge].parent.value].splitValue == p
      && (isLeftEdge ==> r.groups[eg] == e.(max := p) && r.groups[sg] == s.groups[sg].(min := p))
      && (!isLeftEdge ==> r.groups[eg] == e.(min := p) && r.groups[sg] == s.groups[sg].(max := p))
      && (isLeftEdge && e.min != 0 ==> r.groups[eg].max < e.max)
      && (forall k :: 0 <= k < |s.groups| && k != eg && k != sg ==> r.groups[k] == s.groups[k])
  {
  }

  /**
   * The capacity branch of this variant's query_and_update: adjust_boundary
   * on the leftmost and then on the rightmost leaf, both found before either
   * attempt.
   */
  ghost function EdgePass(s: Snapshot): (r: Snapshot)
    ensures |r.nodes| == |s.nodes| && |r.groups| == |s.groups|
    ensures r.groupCount == s.groupCount && r.nextGroupId == s.nextGroupId
  {
    Adjusted(Adjusted(s, LeftmostLeaf(s.nodes, 0), true), RightmostLeaf(s.nodes, 0), false)
  }

  /**
   * The edge pass changes only split values and bucket bounds, and changes
   * nothing when neither outermost leaf can be rebalanced.
   */
  lemma EdgePassFrame(s: Snapshot)
    ensures var r := EdgePass(s);
      SameShape(s.nodes, r.nodes) && SameFlags(s.groups, r.groups) && SameCounts(s.groups, r.groups)
    ensures (!Adjustable(s.nodes, s.groups, LeftmostLeaf(s.nodes, 0))
             && !Adjustable(s.nodes, s.groups, RightmostLeaf(s.nodes, 0))) ==> EdgePass(s) == s
  {
    var l := LeftmostLeaf(s.nodes, 0);
    var s1 := Adjusted(s, l, true);
    var r := RightmostLeaf(s.nodes, 0);
    if Adjustable(s.nodes, s.groups, l) && Movable(s, l) {
      var e := s.groups[EdgeSlot(s, l)];
      MovedKeepsFrame(s, l, SqrtSplitPoint(e.min, e.max), true);
    }
    if Adjustable(s1.nodes, s1.groups, r) && Movable(s1, r) {
      var e := s1.groups[EdgeSlot(s1, r)];
      MovedKeepsFrame(s1, r, SqrtSplitPoint(e.min, e.max), false);
    }
    FramesCompose(s.nodes, s.groups, s1.nodes, s1.groups, EdgePass(s).nodes, EdgePass(s).groups);
  }

  /**
   * This variant's split_group on leaf n as a function of the state: below
   * capacity, when need_split holds and two slots are free, the leaf is
   * split at the geometric split point of its bucket's bounds; otherwise
   * nothing changes. (The last conjunct only keeps the two fresh slots in
   * range; the table always has MAX_GROUPS slots.)
   */
  ghost function Split(s: Snapshot, n: nat): (r: Snapshot)
    requires HasBucket(s, n)
    ensures |r.groups| == |s.groups|
  {
    var b := s.groups[s.nodes[n].group.value];
    if && s.groupCount < MAX_GROUPS && NeedSplit(b)
       && 0 <= s.nextGroupId && s.nextGroupId + 1 < MAX_GROUPS && s.nextGroupId + 1 < |s.groups|
    then SplitAt(s, n, SqrtSplitPoint(b.min, b.max))
    else s
  }

  /** What query_and_update does once it recorded a sample in leaf n: split below capacity, else the edge pass. */
  ghost function AfterSample(s: Snapshot, n: nat): (r: Snapshot)
    requires HasBucket(s, n)
    ensures |r.groups| == |s.groups|
  {
    if s.groupCount < MAX_GROUPS then Split(s, n) else EdgePass(s)
  }

  /** This variant's query_and_update as a function of the state. */
  ghost function Query(s: Snapshot, v: int): (r: Snapshot)
    ensures |r.groups| == |s.groups|
    ensures r.groupCount == s.groupCount || r.groupCount == s.groupCount + 1
  {
    var n := LeafIndex(s.nodes, s.groups, v);
    if HasBucket(s, n) then AfterSample(Recorded(s, n, v), n) else s
  }

  /**
   * What query_and_update does to the bucket g of the leaf n it reaches: g
   * gains exactly one sample while every other used bucket keeps its
   * count, and it stays active exactly when no split happened. Below
   * capacity it holds the observed record, it is split exactly when
   * need_split then holds and two slots are free, every other used bucket
   * keeps its record and ordered ranges stay ordered; at capacity the
   * links, ids and flags are kept.
   */
  lemma SampleOutcome(s: Snapshot, n: nat, v: int, g: nat, r: Snapshot)
    requires IsLeaf(s.nodes, s.groups, n) && g == s.nodes[n].group.value
    requires |s.groups| == MAX_GROUPS && g < s.nextGroupId <= MAX_GROUPS
    requires r == AfterSample(Recorded(s, n, v), n)
    ensures r.groups[g].count == s.groups[g].count + 1
    ensures forall k :: 0 <= k < s.nextGroupId && k != g ==> r.groups[k].count == s.groups[k].count
    ensures r.groups[g].active <==> r.groupCount == s.groupCount
    ensures r.groupCount == s.groupCount || r.groupCount == s.groupCount + 1
    ensures r.groupCount == s.groupCount ==> r.nextGroupId == s.nextGroupId
    ensures r.groupCount == s.groupCount + 1 ==> r.nextGroupId == s.nextGroupId + 2
    ensures s.groupCount >= MAX_GROUPS ==>
      r.groupCount == s.groupCount && SameShape(s.nodes, r.nodes) && SameFlags(s.groups, r.groups)
    ensures s.groupCount < MAX_GROUPS ==>
      && r.groups[g] == Observe(s.groups[g], v).(active := r.groups[g].active)
      && (r.groupCount == s.groupCount + 1 <==> NeedSplit(r.groups[g]) && s.nextGroupId + 1 < MAX_GROUPS)
      && (r.groupCount == s.groupCount ==> r.nodes == s.nodes)
      && (forall k :: 0 <= k < s.nextGroupId && k != g ==> r.groups[k] == s.groups[k])
    ensures s.groupCount < MAX_GROUPS && RangesOrdered(s.groups, s.nextGroupId) ==>
      RangesOrdered(r.groups, r.nextGroupId)
  {
    var t := Recorded(s, n, v);
    var o := Observe(s.groups[g], v);
    assert t.groups == s.groups[g := o];
    if s.groupCount >= MAX_GROUPS {
      assert r == EdgePass(t);
      EdgePassFrame(t);
      StatsUpdateKeepsFlags(s.groups, g, o);
      FlagsCompose(s.groups, t.groups, r.groups);
    } else if NeedSplit(o) && 0 <= s.nextGroupId && s.nextGroupId + 1 < MAX_GROUPS {
      var p := SqrtSplitPoint(o.min, o.max);
      assert r == SplitAt(t, n, p);
      SplitAtOutcome(t, n, p, g, r);
      if RangesOrdered(s.groups, s.nextGroupId) {
        ObserveKeepsOrdered(s.groups, s.nextGroupId, g, v);
        SplitKeepsOrdered(t.groups, g, s.nextGroupId, p);
      }
    } else {
      assert r == t;
      if RangesOrdered(s.groups, s.nextGroupId) {
        ObserveKeepsOrdered(s.groups, s.nextGroupId, g, v);
      }
    }
  }

  /**
   * The leaf query_and_update reaches on a well-formed tree: a leaf whose
   * bucket is the used one find_group_id names before the call.
   */
  lemma QueryLeaf(s: Snapshot, v: int, id: int) returns (n: nat)
    requires WellFormed(s.nodes, s.groups, s.nextGroupId)
    requires id == LookupId(s.nodes, s.groups, v)
    ensures n == LeafIndex(s.nodes, s.groups, v) && IsLeaf(s.nodes, s.groups, n)
    ensures id == s.nodes[n].group.value && 0 <= id < s.nextGroupId
    ensures Query(s, v) == AfterSample(Recorded(s, n, v), n)
  {
    LookupLands(s.nodes, s.groups, s.nextGroupId, v);
    n := LeafIndex(s.nodes, s.groups, v);
  }

  /**
   * query_and_update keeps the ranges of a well-formed state ordered: below
   * capacity through the sample's outcome, at capacity (where the table holds
   * groupCount active buckets, as `Valid()` requires) through CapacityQuery.
   */
  lemma QueryKeepsOrdered(s: Snapshot, v: int)
    requires WellFormed(s.nodes, s.groups, s.nextGroupId) && |s.groups| == MAX_GROUPS && s.nextGroupId <= MAX_GROUPS
    requires s.groupCount < MAX_GROUPS || ActiveCount(s.groups[..s.nextGroupId]) == s.groupCount
    requires RangesOrdered(s.groups, s.nextGroupId)
    ensures var r := Query(s, v); RangesOrdered(r.groups, r.nextGroupId)
  {
    if s.groupCount < MAX_GROUPS {
      var id := LookupId(s.nodes, s.groups, v);
      var n := QueryLeaf(s, v, id);
      SampleOutcome(s, n, v, id, Query(s, v));
    } else {
      CapacityQuery(s, v);
    }
  }

  /**
   * At capacity a well-formed state whose table holds groupCount active
   * buckets is a lone root (FullTableLoneRoot). Its only leaf has no parent,
   * so the edge pass changes nothing and query_and_update only records v in
   * the root bucket; ordered ranges stay ordered.
   */
  lemma CapacityQuery(s: Snapshot, v: int)
    requires WellFormed(s.nodes, s.groups, s.nextGroupId) && |s.groups| == MAX_GROUPS
    requires ActiveCount(s.groups[..s.nextGroupId]) == s.groupCount >= MAX_GROUPS
    ensures |s.nodes| == 1 && s.nodes[0].parent.None?
    ensures HasBucket(s, 0) && Query(s, v) == Recorded(s, 0, v)
    ensures RangesOrdered(s.groups, s.nextGroupId) ==>
      var r := Query(s, v); RangesOrdered(r.groups, r.nextGroupId)
  {
    FullTableLoneRoot(s.nodes, s.groups, s.nextGroupId);
    assert NodeShape(s.nodes, s.groups, s.nextGroupId, 0);
    var n := QueryLeaf(s, v, LookupId(s.nodes, s.groups, v));
    assert n == 0;
    var x := Recorded(s, 0, v);
    assert x.nodes == s.nodes;
    EdgePassFrame(x);
    assert Query(s, v) == EdgePass(x) == x;
    if RangesOrdered(s.groups, s.nextGroupId) {
      ObserveKeepsOrdered(s.groups, s.nextGroupId, 0, v);
    }
  }

  /** The discretizer of groupCodeTest.c, with the tree kept as an arena. */
  class Discretizer {
    /** The fixed table of MAX_GROUPS buckets; slot k holds the bucket with id k. */
    const groups: array<Group>
    /** The tree; node 0 is the root. */
    var nodes: seq<TreeNode>
    var groupCount: int
    var nextGroupId: int

    /**
     * The representation invariant: a well-formed tree over the used part
     * of the table, which holds exactly groupCount active buckets.
     */
    ghost predicate Valid()
      reads this, groups
    {
      && groups.Length == MAX_GROUPS
      && 0 <= nextGroupId <= MAX_GROUPS
      && WellFormed(nodes, groups[..], nextGroupId)
      && 1 <= groupCount
      && ActiveCount(groups[..nextGroupId]) == groupCount
    }

    /** Bookkeeping of the counters: each split uses two slots and adds one active bucket. */
    ghost predicate Budget()
      reads this
    {
      nextGroupId == 2 * groupCount - 1
    }

    /** What find_group_id answers in this state. */
    ghost function Lookup(v: int): int
      reads this, groups
    {
      LookupId(nodes, groups[..], v)
    }

    ghost predicate CanAdjust(edge: nat)
      reads this, groups
    {
      Adjustable(nodes, groups[..], edge)
    }

    /** The tree, the table and the counters as values. */
    ghost function State(): Snapshot
      reads this, groups
    {
      Snapshot(nodes, groups[..], groupCount, nextGroupId)
    }

    /** Every used active bucket with a sample has min <= max. */
    ghost predicate Ordered()
      reads this, groups
    {
      RangesOrdered(groups[..], nextGroupId)
    }

    /** init_discretizer: one root node on bucket 0, whose range is [initialMin, initialMax]. */
    constructor (initialMin: int, initialMax: int)
      ensures Valid() && Budget()
      ensures fresh(groups)
      ensures groupCount == 1 && nextGroupId == 1 && Ordered()
      ensures nodes == [NewNode(0, 0)]
      ensures groups[0] == Group(0, initialMin, initialMax, 0, true)
    {
      groups := new Group[MAX_GROUPS](k => Group(k, 0, 0, 0, false));
      groupCount := 1;
      nextGroupId := 1;
      nodes := [];
      new;
      InitGroup(groups, 0, 0);
      groups[0] := groups[0].(min := initialMin);
      groups[0] := groups[0].(max := initialMax);
      nodes := [NewNode(0, 0)];
      assert NodeShape(nodes, groups[..], nextGroupId, 0);
      assert groups[..1] == [groups[0]];
    }

    /** find_group_id: the id of the bucket the descent for v reaches; an active bucket. */
    method FindGroupId(v: int) returns (id: int)
      requires Valid()
      ensures id == Lookup(v)
      ensures 0 <= id < nextGroupId && groups[id].active
    {
      id := Arena.FindGroupId(nodes, groups[..], nextGroupId, v);
    }

    /**
     * split_group of this variant: as in the final version, but with this
     * variant's need_split and the geometric split point.
     */
    method SplitGroup(n: nat) returns (ok: bool)
      requires Valid() && IsLeaf(nodes, groups[..], n)
      modifies this, groups
      ensures Valid()
      ensures old(Budget()) ==> Budget()
      ensures ok == (old(groupCount) < MAX_GROUPS
                     && NeedSplit(old(groups[nodes[n].group.value]))
                     && old(nextGroupId) + 1 < MAX_GROUPS)
      ensures !ok ==> nodes == old(nodes) && groups[..] == old(groups[..])
                      && groupCount == old(groupCount) && nextGroupId == old(nextGroupId)
      ensures ok ==>
        var g := old(nodes[n].group.value);
        var ng := old(nextGroupId);
        var p := SqrtSplitPoint(old(groups[g].min), old(groups[g].max));
        && groups[ng] == Group(ng, old(groups[g].min), p, 0, true)
        && groups[ng + 1] == Group(ng + 1, p, old(groups[g].max), 0, true)
        && groups[g] == old(groups[g]).(active := false)
        && groups[..] == SplitGroups(old(groups[..]), g, ng, p)
        && nodes == SplitNodes(old(nodes), n, p, ng)
        && groupCount == old(groupCount) + 1 && nextGroupId == ng + 2
      ensures State() == Split(old(State()), n)
    {
      if groupCount >= MAX_GROUPS || nodes[n].group.None? {
        return false;
      }
      var g := nodes[n].group.value;
      if !NeedSplit(groups[g]) {
        return false;
      }
      var p := CalculateSplitPoint(groups[g].min, groups[g].max);
      if nextGroupId + 1 >= MAX_GROUPS {
        return false;
      }
      assert NodeShape(nodes, groups[..], nextGroupId, n);
      Partition(n, p);
      ok := true;
    }

    /**
     * The writes of split_group once every check has passed: the two fresh
     * buckets [min, p] and [p, max], the two child nodes linked to n, the
     * split value p, the deactivated old bucket, and the counters.
     */
    method Partition(n: nat, p: int)
      requires Valid() && IsLeaf(nodes, groups[..], n) && nextGroupId + 1 < MAX_GROUPS
      modifies this, groups
      ensures Valid()
      ensures nodes == SplitNodes(old(nodes), n, p, old(nextGroupId))
      ensures groups[..] == SplitGroups(old(groups[..]), old(nodes[n].group.value), old(nextGroupId), p)
      ensures groupCount == old(groupCount) + 1 && nextGroupId == old(nextGroupId) + 2
    {
      assert NodeShape(nodes, groups[..], nextGroupId, n);
      ghost var nodes0 := nodes;
      ghost var gs0 := groups[..];
      var g := nodes[n].group.value;
      var ng := nextGroupId;
      OpenChildren(groups, ng, groups[g].min, p, groups[g].max);
      ghost var gs1 := groups[..];
      var last := |nodes|;
      nodes := nodes + [NewNode(0, ng), NewNode(0, ng + 1)];
      nodes := nodes[n := nodes[n].(left := Some(last), right := Some(last + 1))];
      nodes := nodes[n := nodes[n].(splitValue := p)];
      nodes := nodes[last := nodes[last].(parent := Some(n))];
      nodes := nodes[last + 1 := nodes[last + 1].(parent := Some(n))];
      groups[g] := groups[g].(active := false);
      groupCount := groupCount + 1;
      nextGroupId := nextGroupId + 2;
      assert nodes == SplitNodes(nodes0, n, p, ng);
      assert groups[..] == gs1[g := gs0[g].(active := false)];
      SplitGroupsInOrder(gs0, g, ng, p);
      SplitKeepsWellFormed(nodes0, gs0, ng, n, p);
      SplitAddsOneActive(gs0, g, ng, p);
    }

    /**
     * adjust_boundary of this variant. It fails, changing nothing, unless
     * CanAdjust holds. Otherwise the new boundary p is the geometric split
     * point of the edge bucket's own range; the parent takes p as its split
     * value and the edge and its sibling meet at p.
     */
    method AdjustBoundary(edge: nat, isLeftEdge: bool) returns (ok: bool)
      requires Valid() && edge < |nodes|
      modifies this, groups
      ensures Valid()
      ensures ok == old(CanAdjust(edge))
      ensures groupCount == old(groupCount) && nextGroupId == old(nextGroupId)
      ensures SameShape(old(nodes), nodes)
      ensures SameFlags(old(groups[..]), groups[..]) && SameCounts(old(groups[..]), groups[..])
      ensures !ok ==> nodes == old(nodes) && groups[..] == old(groups[..])
      ensures ok ==>
        var eg := old(nodes[edge].group.value);
        var sn := old(GetSibling(nodes, edge).value);
        var sg := old(nodes[sn].group.value);
        var pn := old(nodes[edge].parent.value);
        var p := SqrtSplitPoint(old(groups[eg].min), old(groups[eg].max));
        && eg != sg
        && nodes == old(nodes)[pn := old(nodes[pn]).(splitValue := p)]
        && groups[..] == MeetGroups(old(groups[..]), eg, sg, p, isLeftEdge)
      ensures State() == Adjusted(old(State()), edge, isLeftEdge)
    {
      assert NodeShape(nodes, groups[..], nextGroupId, edge);
      if nodes[edge].group.None? || !groups[nodes[edge].group.value].active {
        return false;
      }
      var eg := nodes[edge].group.value;
      if groups[eg].count < 2 || groups[eg].max < CDiv(2 * groups[eg].min * 11, 10) {
        return false;
      }
      var sibling := GetSibling(nodes, edge);
      if sibling.None? {
        return false;
      }
      SiblingIsOtherChild(nodes, groups[..], nextGroupId, edge);
      assert NodeShape(nodes, groups[..], nextGroupId, sibling.value);
      if nodes[sibling.value].group.None? || !groups[nodes[sibling.value].group.value].active {
        return false;
      }
      if nodes[edge].parent.None? {
        return false;
      }
      var pn := nodes[edge].parent.value;
      var sg := nodes[sibling.value].group.value;
      DistinctGroups(nodes, groups[..], nextGroupId, edge, sibling.value);
      WellFormedMovable(State(), nextGroupId, edge);
      var p := CalculateSplitPoint(groups[eg].min, groups[eg].max);
      MoveBoundary(pn, eg, sg, p, isLeftEdge);
      ok := true;
    }

    /**
     * The writes of adjust_boundary once every check has passed: the
     * parent pn takes split value p and buckets eg and sg meet at p.
     */
    method MoveBoundary(pn: nat, eg: nat, sg: nat, p: int, isLeftEdge: bool)
      requires Valid() && pn < |nodes| && eg < nextGroupId && sg < nextGroupId && eg != sg
      modifies this, groups
      ensures Valid()
      ensures groupCount == old(groupCount) && nextGroupId == old(nextGroupId)
      ensures SameShape(old(nodes), nodes)
      ensures SameFlags(old(groups[..]), groups[..]) && SameCounts(old(groups[..]), groups[..])
      ensures nodes == old(nodes)[pn := old(nodes[pn]).(splitValue := p)]
      ensures groups[..] == MeetGroups(old(groups[..]), eg, sg, p, isLeftEdge)
    {
      ghost var nodes0 := nodes;
      ghost var gs0 := groups[..];
      nodes := nodes[pn := nodes[pn].(splitValue := p)];
      MeetAt(groups, eg, sg, p, isLeftEdge);
      assert Links(nodes0[pn]) == Links(nodes[pn]);
      FrameKeepsWellFormed(nodes0, gs0, nextGroupId, nodes, groups[..]);
    }

    /**
     * query_and_update of this variant: descend to the leaf bucket for v,
     * record v in it, then split it while capacity remains, or at capacity
     * try one adjustment on the leftmost and one on the rightmost leaf. The
     * new state is `Query` of the old one, and the id returned is the one
     * find_group_id gives before the call.
     */
    method QueryAndUpdate(v: int) returns (id: int)
      requires Valid()
      modifies this, groups
      ensures Valid()
      ensures old(Budget()) ==> Budget()
      ensures id == old(Lookup(v)) && 0 <= id < old(nextGroupId)
      ensures State() == Query(old(State()), v)
      ensures old(Ordered()) ==> Ordered()
    {
      if Ordered() {
        assert State().groups[..nextGroupId] == groups[..nextGroupId];
        QueryKeepsOrdered(State(), v);
      }
      WellFormedNavigable(nodes, groups[..], nextGroupId);
      LookupLands(nodes, groups[..], nextGroupId, v);
      var leaf := FindLeaf(nodes, groups[..], v);
      if leaf.None? {
        return -1;
      }
      id := UpdateLeaf(leaf.value, v);
    }

    /**
     * The part of query_and_update after the descent reached leaf n: record
     * v in the leaf's bucket, then split it or work on the edges. The id
     * returned is the bucket's.
     */
    method UpdateLeaf(n: nat, v: int) returns (id: int)
      requires Valid() && IsLeaf(nodes, groups[..], n)
      modifies this, groups
      ensures Valid()
      ensures old(Budget()) ==> Budget()
      ensures id == old(nodes[n].group.value)
      ensures State() == AfterSample(Recorded(old(State()), n, v), n)
    {
      assert NodeShape(nodes, groups[..], nextGroupId, n);
      ghost var gs1 := groups[..];
      var g := nodes[n].group.value;
      id := RecordSample(groups, g, v);
      assert id == g;
      StatsUpdateKeepsFlags(gs1, g, Observe(gs1[g], v));
      FrameKeepsWellFormed(nodes, gs1, nextGroupId, nodes, groups[..]);
      SplitOrAdjust(n);
    }

    /**
     * The last step of this variant's query_and_update on the leaf n it
     * updated: split the leaf while capacity remains, otherwise adjust the edges.
     */
    method SplitOrAdjust(n: nat)
      requires Valid() && IsLeaf(nodes, groups[..], n)
      modifies this, groups
      ensures Valid()
      ensures old(Budget()) ==> Budget()
      ensures State() == AfterSample(old(State()), n)
    {
      assert NodeShape(nodes, groups[..], nextGroupId, n);
      if groupCount < MAX_GROUPS {
        if NeedSplit(groups[nodes[n].group.value]) {
          var _ := SplitGroup(n);
        }
      } else {
        AdjustEdges();
      }
    }

    /**
     * The capacity branch of this variant's query_and_update: one attempt
     * on the leftmost leaf, then one on the rightmost leaf (both found
     * before either attempt). The new state is `EdgePass` of the old one.
     */
    method AdjustEdges()
      requires Valid()
      modifies this, groups
      ensures Valid()
      ensures groupCount == old(groupCount) && nextGroupId == old(nextGroupId)
      ensures SameShape(old(nodes), nodes)
      ensures SameFlags(old(groups[..]), groups[..]) && SameCounts(old(groups[..]), groups[..])
      ensures State() == EdgePass(old(State()))
    {
      ghost var nodes0 := nodes;
      ghost var gs0 := groups[..];
      WellFormedNavigable(nodes, groups[..], nextGroupId);
      var leftmost := FindLeftmostLeaf(nodes, 0);
      var rightmost := FindRightmostLeaf(nodes, 0);
      assert GroupLink(nodes, groups[..], leftmost) && GroupLink(nodes, groups[..], rightmost);
      if nodes[leftmost].group.Some? {
        var _ := AdjustBoundary(leftmost, true);
      }
      ghost var nodes1 := nodes;
      ghost var gs1 := groups[..];
      if nodes[rightmost].group.Some? {
        var _ := AdjustBoundary(rightmost, false);
      }
      FramesCompose(nodes0, gs0, nodes1, gs1, nodes, groups[..]);
    }
  }

  /** A discretizer started on [1, 100] answers every lookup with the root bucket 0. */
  method FreshLookup(v: int) returns (id: int)
    ensures id == 0
  {
    var d := new Discretizer(1, 100);
    id := d.FindGroupId(v);
  }

  /**
   * On a discretizer started on [1, 100], the first observation of 50
   * lands in bucket 0 and replaces the nominal range by [50, 50]; the
   * second, 100, also lands in bucket 0, makes [50, 100] skewed and splits
   * it, leaving two active buckets.
   */
  method TwoValues() returns (first: int, second: int, active: int)
    ensures first == 0 && second == 0 && active == 2
  {
    var d := new Discretizer(1, 100);
    first := d.QueryAndUpdate(50);
    second := d.QueryAndUpdate(100);
    active := d.groupCount;
  }
}
