/**
 * src/discretizer.c: the final discretizer. It fixes the root bucket's range
 * on the first value, widens the root bucket to every later value, routes
 * each value to a leaf bucket, splits a skewed leaf while bucket ids remain,
 * and otherwise runs at most three rounds of boundary adjustment on the
 * tree's outermost leaves.
 */
module Discretizer {
  import opened DiscretizerTypes
  import opened Arena

  /** Rounds of edge rebalancing one observation may run. */
  const MAX_ADJUST_ITERATIONS: int := 3

  /**
   * need_split: a bucket with at least two samples and a non-negative
   * minimum is split when it breaks the ratio invariant and its maximum is
   * at least 2. For min > 0 this is the ratio test max >= 2 * min; for
   * min == 0 the absolute-span test; a negative minimum never splits.
   */
  function NeedSplit(g: Group): (b: bool)
    ensures b <==> g.count >= MIN_COUNT && g.min >= 0 && !RatioHolds(g) && g.max >= THRESHOLD_RATIO
  {
    if g.count < MIN_COUNT then false
    else if g.min > 0 then g.max >= THRESHOLD_RATIO * g.min
    else if g.min == 0 then g.max - g.min >= MIN_SPAN && g.max >= THRESHOLD_RATIO
    else false
  }

  /**
   * calculate_split_point: the C midpoint of [min, max] (half the span when
   * min is 0), or min itself for an empty or inverted range. It never
   * leaves the range and is strictly inside once the span is 2 or more.
   */
  function CalculateSplitPoint(min: int, max: int): (p: int)
    ensures min >= max ==> p == min
    ensures min <= max ==> min <= p <= max
    ensures max - min >= 2 ==> min < p < max
  {
    if min >= max then min
    else if min == 0 then Half(max - min)
    else Half(min + max)
  }

  /**
   * The violation test of adjust_boundary. On a bucket with enough samples
   * it is exactly need_split.
   */
  function Violates(g: Group): (b: bool)
    ensures g.count >= MIN_COUNT ==> (b <==> NeedSplit(g))
    ensures b ==> g.min >= 0
  {
    if g.min > 0 then g.max >= 2 * g.min
    else if g.min == 0 then g.max >= 2
    else false
  }

  /**
   * The new boundary adjust_boundary computes for an edge bucket and its
   * sibling: the edge's minimum plus the edge's share of the two counts,
   * as a percentage of the edge's span (the C midpoint when the span is at
   * most 1), clamped into (edge.min, edge.max). It is always below
   * edge.max, strictly inside for a span of 2 or more, and never below
   * edge.min for a violating edge.
   */
  function AdjustPoint(edge: Group, sibling: Group): (p: int)
    ensures p < edge.max
    ensures edge.max - edge.min >= 2 ==> edge.min < p
    ensures Violates(edge) ==> edge.min <= p
  {
    var span := edge.max - edge.min;
    var raw :=
      if edge.count + sibling.count > 0 && span > 1 then
        var total := edge.count + sibling.count;
        var proportion := (edge.count * 100) / total;
        edge.min + (span * proportion) / 100
      else
        Half(edge.min + edge.max);
    ClampInterior(edge.min, edge.max, raw)
  }

  /** A bucket's range widened to take in v; nothing else changes. */
  function Widened(g: Group, v: int): (r: Group)
    ensures r.min <= v <= r.max
    ensures r.min <= g.min && r.max >= g.max
    ensures (r.min == g.min || r.min == v) && (r.max == g.max || r.max == v)
    ensures r.groupId == g.groupId && r.count == g.count && r.active == g.active
  {
    var lo := if v < g.min then v else g.min;
    var hi := if v > g.max then v else g.max;
    g.(min := lo, max := hi)
  }

  /** The root widening of query_and_update performed in place on bucket g. */
  method Widen(groups: array<Group>, g: nat, v: int)
    requires g < groups.Length
    modifies groups
    ensures groups[..] == old(groups[..])[g := Widened(old(groups[g]), v)]
  {
    if v < groups[g].min {
      groups[g] := groups[g].(min := v);
    }
    if v > groups[g].max {
      groups[g] := groups[g].(max := v);
    }
  }

  /**
   * The bucket table as query_and_update leaves it before the descent: the
   * root bucket set to [v, v] on the first value, then widened to v. Only
   * the root bucket's bounds change.
   */
  function PrepareRoot(t: seq<Group>, initialized: bool, v: int): (r: seq<Group>)
    requires |t| > 0
    ensures |r| == |t| && r[1..] == t[1..]
    ensures r[0].min <= v <= r[0].max
    ensures initialized ==> r[0].min <= t[0].min && r[0].max >= t[0].max
    ensures !initialized ==> r[0].min == v == r[0].max
    ensures (r[0].min == t[0].min || r[0].min == v) && (r[0].max == t[0].max || r[0].max == v)
    ensures SameFlags(t, r) && SameCounts(t, r)
  {
    var first := if initialized then t[0] else t[0].(min := v, max := v);
    t[0 := Widened(first, v)]
  }

  /** Preparing the root bucket keeps the ranges ordered: the root's new range contains v. */
  lemma PrepareKeepsOrdered(t: seq<Group>, initialized: bool, v: int, used: int)
    requires |t| > 0 && RangesOrdered(t, used)
    ensures RangesOrdered(PrepareRoot(t, initialized, v), used)
  {
  }

  /**
   * The conditions under which adjust_boundary rebalances `edge`: its
   * bucket is active, has at least two samples and violates the ratio
   * test, and it has a parent and a sibling whose bucket is active.
   */
  ghost predicate Adjustable(nodes: seq<TreeNode>, gs: seq<Group>, edge: nat)
  {
    && edge < |nodes|
    && nodes[edge].group.Some? && nodes[edge].group.value < |gs|
    && (var e := gs[nodes[edge].group.value];
        e.active && e.count >= MIN_COUNT && Violates(e))
    && GetSibling(nodes, edge).Some?
    && (var s := GetSibling(nodes, edge).value;
        && s < |nodes|
        && nodes[s].group.Some? && nodes[s].group.value < |gs|
        && gs[nodes[s].group.value].active)
    && nodes[edge].parent.Some?
  }

  /**
   * adjust_boundary as a function of the state: an edge that can be
   * rebalanced moves its parent's split value and the boundary it shares
   * with its sibling to the count-weighted point; otherwise nothing changes.
   */
  ghost function Adjusted(s: Snapshot, edge: nat, isLeftEdge: bool): (r: Snapshot)
    ensures |r.nodes| == |s.nodes| && |r.groups| == |s.groups|
    ensures r.groupCount == s.groupCount && r.nextGroupId == s.nextGroupId
  {
    if Adjustable(s.nodes, s.groups, edge) && Movable(s, edge) then
      Moved(s, edge, AdjustPoint(s.groups[EdgeSlot(s, edge)], s.groups[SiblingSlot(s, edge)]), isLeftEdge)
    else s
  }

  /** Neither outermost leaf can be rebalanced (trivially so when the root is the only leaf). */
  ghost predicate Settled(s: Snapshot)
  {
    var l := LeftmostLeaf(s.nodes, 0);
    var r := RightmostLeaf(s.nodes, 0);
    l != r ==> !Adjustable(s.nodes, s.groups, l) && !Adjustable(s.nodes, s.groups, r)
  }

  /**
   * One round of the adjustment loop: adjust_boundary on the leftmost and
   * then on the rightmost leaf, both found before either attempt, when the
   * two differ.
   */
  ghost function Round(s: Snapshot): (r: Snapshot)
    ensures |r.nodes| == |s.nodes| && |r.groups| == |s.groups|
    ensures r.groupCount == s.groupCount && r.nextGroupId == s.nextGroupId
  {
    var l := LeftmostLeaf(s.nodes, 0);
    var r := RightmostLeaf(s.nodes, 0);
    if l != r then Adjusted(Adjusted(s, l, true), r, false) else s
  }

  /** The adjustment loop: rounds until a round finds the edges settled, at most `rounds` of them. */
  ghost function Rebalanced(s: Snapshot, rounds: nat): (r: Snapshot)
    ensures |r.nodes| == |s.nodes| && |r.groups| == |s.groups|
    ensures r.groupCount == s.groupCount && r.nextGroupId == s.nextGroupId
    decreases rounds
  {
    if rounds == 0 || Settled(s) then s else Rebalanced(Round(s), rounds - 1)
  }

  /** The value of adjust_iterations when the adjustment loop ends. */
  ghost function RoundsRun(s: Snapshot, rounds: nat): nat
    decreases rounds
  {
    if rounds == 0 || Settled(s) then 0 else 1 + RoundsRun(Round(s), rounds - 1)
  }

  /**
   * The loop runs at most `rounds` rounds; it runs none exactly when the
   * edges are settled from the start, and stopping early leaves them settled.
   */
  lemma {:induction false} RebalancedStops(s: Snapshot, rounds: nat)
    ensures RoundsRun(s, rounds) <= rounds
    ensures RoundsRun(s, rounds) == 0 <==> rounds == 0 || Settled(s)
    ensures RoundsRun(s, rounds) < rounds ==> Settled(Rebalanced(s, rounds))
    decreases rounds
  {
    if rounds > 0 && !Settled(s) {
      RebalancedStops(Round(s), rounds - 1);
    }
  }

  /**
   * The adjustment loop's invariant after `done` rounds, with `left` still
   * allowed: running the rest from `s` gives the loop's result `target`
   * and its round count `total`.
   */
  ghost predicate LoopInv(s: Snapshot, left: nat, done: nat, target: Snapshot, total: nat)
  {
    (Rebalanced(s, left), done + RoundsRun(s, left)) == (target, total)
  }

  /** One round of the adjustment loop on an unsettled state keeps the loop's invariant. */
  lemma LoopStep(s: Snapshot, left: nat, done: nat, target: Snapshot, total: nat, next: Snapshot)
    requires left > 0 && LoopInv(s, left, done, target, total) && !Settled(s) && next == Round(s)
    ensures LoopInv(next, left - 1, done + 1, target, total)
  {
  }

  /** With no rounds left the loop's invariant names the current state and count. */
  lemma LoopNone(s: Snapshot, done: nat, target: Snapshot, total: nat)
    requires LoopInv(s, 0, done, target, total)
    ensures s == target && done == total
  {
  }

  /** The adjustment loop stops at its result once the edges are settled. */
  lemma LoopStop(s: Snapshot, left: nat, done: nat, target: Snapshot, total: nat)
    requires left > 0 && LoopInv(s, left, done, target, total) && Settled(s)
    ensures s == target && done == total
  {
  }

  /** An adjustment changes only split values and bucket bounds. */
  lemma AdjustedKeepsFrame(s: Snapshot, edge: nat, isLeftEdge: bool)
    ensures var r := Adjusted(s, edge, isLeftEdge);
      SameShape(s.nodes, r.nodes) && SameFlags(s.groups, r.groups) && SameCounts(s.groups, r.groups)
  {
    if Adjustable(s.nodes, s.groups, edge) && Movable(s, edge) {
      MovedKeepsFrame(s, edge, AdjustPoint(s.groups[EdgeSlot(s, edge)], s.groups[SiblingSlot(s, edge)]), isLeftEdge);
    }
  }

  /**
   * An edge that can be rebalanced gets the count-weighted boundary p: the
   * parent's split value and the bounds the edge shares with its sibling
   * become p, and no other bucket changes. The edge's range never widens;
   * it strictly shrinks unless it is a right edge of span 1.
   */
  lemma AdjustedMeets(s: Snapshot, edge: nat, isLeftEdge: bool)
    requires Adjustable(s.nodes, s.groups, edge) && Movable(s, edge)
    ensures var r := Adjusted(s, edge, isLeftEdge);
      var eg := EdgeSlot(s, edge);
      var sg := SiblingSlot(s, edge);
      var e := s.groups[eg];
      var p := AdjustPoint(e, s.groups[sg]);
      && e.min <= p < e.max
      && r.nodes[s.nodes[edge].parent.value].splitValue == p
      && (isLeftEdge ==> r.groups[eg] == e.(max := p) && r.groups[sg] == s.groups[sg].(min := p))
      && (!isLeftEdge ==> r.groups[eg] == e.(min := p) && r.groups[sg] == s.groups[sg].(max := p))
      && r.groups[eg].max - r.groups[eg].min <= e.max - e.min
      && (isLeftEdge || e.max - e.min >= 2 ==> r.groups[eg].max - r.groups[eg].min < e.max - e.min)
      && (forall k :: 0 <= k < |s.groups| && k != eg && k != sg ==> r.groups[k] == s.groups[k])
  {
  }

  /**
   * The whole adjustment loop changes only split values and bucket bounds:
   * the tree's links, every bucket's id, flag and count are as before.
   */
  lemma {:induction false} RebalancedKeepsFrame(s: Snapshot, rounds: nat)
    ensures var r := Rebalanced(s, rounds);
      SameShape(s.nodes, r.nodes) && SameFlags(s.groups, r.groups) && SameCounts(s.groups, r.groups)
    decreases rounds
  {
    if rounds > 0 && !Settled(s) {
      var s1 := Round(s);
      RoundKeepsFrame(s);
      RebalancedKeepsFrame(s1, rounds - 1);
      var t := Rebalanced(s1, rounds - 1);
      assert Rebalanced(s, rounds) == t;
      FramesCompose(s.nodes, s.groups, s1.nodes, s1.groups, t.nodes, t.groups);
    }
  }

  /** A round changes only split values and bucket bounds. */
  lemma RoundKeepsFrame(s: Snapshot)
    ensures var r := Round(s);
      SameShape(s.nodes, r.nodes) && SameFlags(s.groups, r.groups) && SameCounts(s.groups, r.groups)
  {
    var l := LeftmostLeaf(s.nodes, 0);
    var r := RightmostLeaf(s.nodes, 0);
    if l != r {
      var s1 := Adjusted(s, l, true);
      AdjustedKeepsFrame(s, l, true);
      AdjustedKeepsFrame(s1, r, false);
      FramesCompose(s.nodes, s.groups, s1.nodes, s1.groups, Round(s).nodes, Round(s).groups);
    }
  }

  /**
   * split_group on leaf n as a function of the state: below capacity, when
   * need_split holds and two slots are free, the leaf is split at
   * CalculateSplitPoint of its bucket's bounds; otherwise nothing changes.
   * (The last conjunct only keeps the table's two fresh slots in range; the
   * table always has MAX_GROUPS slots.)
   */
  ghost function Split(s: Snapshot, n: nat): (r: Snapshot)
    requires HasBucket(s, n)
    ensures |r.groups| == |s.groups|
  {
    var b := s.groups[s.nodes[n].group.value];
    if && s.groupCount < MAX_GROUPS && NeedSplit(b)
       && 0 <= s.nextGroupId && s.nextGroupId + 1 < MAX_GROUPS && s.nextGroupId + 1 < |s.groups|
    then SplitAt(s, n, CalculateSplitPoint(b.min, b.max))
    else s
  }

  /**
   * What query_and_update does once it recorded a sample in leaf n: split
   * the leaf below capacity, otherwise run the adjustment loop.
   */
  ghost function AfterSample(s: Snapshot, n: nat): (r: Snapshot)
    requires HasBucket(s, n)
    ensures |r.groups| == |s.groups|
  {
    if s.groupCount < MAX_GROUPS then Split(s, n) else Rebalanced(s, MAX_ADJUST_ITERATIONS)
  }

  /**
   * query_and_update as a function of the state: prepare the root bucket,
   * descend to the leaf for v, record v in its bucket, then split or
   * rebalance.
   */
  ghost function Query(s: Snapshot, initialized: bool, v: int): (r: Snapshot)
    requires |s.groups| > 0
    ensures |r.groups| == |s.groups|
    ensures r.groupCount == s.groupCount || r.groupCount == s.groupCount + 1
  {
    var t := s.(groups := PrepareRoot(s.groups, initialized, v));
    var n := LeafIndex(t.nodes, t.groups, v);
    if HasBucket(t, n) then AfterSample(Recorded(t, n, v), n) else t
  }

  /**
   * What recording a sample in leaf n and then splitting or rebalancing
   * does to the leaf's bucket g: it gains exactly one sample while every
   * other used bucket keeps its count, and it stays active exactly when no
   * split happened. Below capacity it holds the observed record, it is
   * split exactly when need_split then holds and two slots are free, every
   * other used bucket keeps its record and ordered ranges stay ordered; at
   * capacity the links, ids and flags are kept.
   */
  lemma SampleOutcome(s: Snapshot, n: nat, v: int, g: nat, r: Snapshot)
    requires IsLeaf(s.nodes, s.groups, n) && g == s.nodes[n].group.value
    requires |s.groups| == MAX_GROUPS && g < s.nextGroupId <= MAX_GROUPS
    requires r == AfterSample(Recorded(s, n, v), n)
    ensures r.groups[g].count == s.groups[g].count + 1
    ensures forall k :: 0 <= k < s.nextGroupId && k != g ==> r.groups[k].count == s.groups[k].count
    ensures r.groups[g].active <==> r.groupCount == s.groupCount
    ensures r.groupCount == s.groupCount || r.groupCount == s.groupCount + 1
    ensures r.groupCount == s.groupCount ==> r.nextGroupId == s.nextGroupId
    ensures r.groupCount == s.groupCount + 1 ==> r.nextGroupId == s.nextGroupId + 2
    ensures s.groupCount >= MAX_GROUPS ==>
      r.groupCount == s.groupCount && SameShape(s.nodes, r.nodes) && SameFlags(s.groups, r.groups)
    ensures s.groupCount < MAX_GROUPS ==>
      && r.groups[g] == Observe(s.groups[g], v).(active := r.groups[g].active)
      && (r.groupCount == s.groupCount + 1 <==> NeedSplit(r.groups[g]) && s.nextGroupId + 1 < MAX_GROUPS)
      && (r.groupCount == s.groupCount ==> r.nodes == s.nodes)
      && (forall k :: 0 <= k < s.nextGroupId && k != g ==> r.groups[k] == s.groups[k])
    ensures s.groupCount < MAX_GROUPS && RangesOrdered(s.groups, s.nextGroupId) ==>
      RangesOrdered(r.groups, r.nextGroupId)
  {
    var t := Recorded(s, n, v);
    var o := Observe(s.groups[g], v);
    assert t.groups == s.groups[g := o];
    if s.groupCount >= MAX_GROUPS {
      assert r == Rebalanced(t, MAX_ADJUST_ITERATIONS);
      RebalancedKeepsFrame(t, MAX_ADJUST_ITERATIONS);
      StatsUpdateKeepsFlags(s.groups, g, o);
      FlagsCompose(s.groups, t.groups, r.groups);
    } else if NeedSplit(o) && 0 <= s.nextGroupId && s.nextGroupId + 1 < MAX_GROUPS {
      var p := CalculateSplitPoint(o.min, o.max);
      assert r == SplitAt(t, n, p);
      SplitAtOutcome(t, n, p, g, r);
      if RangesOrdered(s.groups, s.nextGroupId) {
        ObserveKeepsOrdered(s.groups, s.nextGroupId, g, v);
        SplitKeepsOrdered(t.groups, g, s.nextGroupId, p);
      }
    } else {
      assert r == t;
      if RangesOrdered(s.groups, s.nextGroupId) {
        ObserveKeepsOrdered(s.groups, s.nextGroupId, g, v);
      }
    }
  }

  /**
   * What query_and_update does, in terms of the bucket find_group_id names
   * for v before the call: that bucket id is used, it gains exactly one
   * sample, every other used bucket keeps its count, and it stays active
   * exactly when no split happened. Below capacity it holds the observed
   * record of the prepared root table, it is split exactly when need_split
   * then holds and two slots are free, every other used bucket keeps its
   * prepared record and ordered ranges stay ordered; at capacity the links,
   * ids and flags are kept.
   */
  lemma QueryOutcome(s: Snapshot, initialized: bool, v: int, id: int, r: Snapshot)
    requires WellFormed(s.nodes, s.groups, s.nextGroupId) && |s.groups| == MAX_GROUPS && s.nextGroupId <= MAX_GROUPS
    requires id == LookupId(s.nodes, s.groups, v) && r == Query(s, initialized, v)
    ensures 0 <= id < s.nextGroupId
    ensures r.groups[id].count == s.groups[id].count + 1
    ensures forall k :: 0 <= k < s.nextGroupId && k != id ==> r.groups[k].count == s.groups[k].count
    ensures r.groups[id].active <==> r.groupCount == s.groupCount
    ensures r.groupCount == s.groupCount || r.groupCount == s.groupCount + 1
    ensures r.groupCount == s.groupCount ==> r.nextGroupId == s.nextGroupId
    ensures s.groupCount >= MAX_GROUPS ==>
      r.groupCount == s.groupCount && SameShape(s.nodes, r.nodes) && SameFlags(s.groups, r.groups)
    ensures s.groupCount < MAX_GROUPS ==>
      var prepared := PrepareRoot(s.groups, initialized, v);
      && r.groups[id] == Observe(prepared[id], v).(active := r.groups[id].active)
      && (r.groupCount == s.groupCount + 1 <==> NeedSplit(r.groups[id]) && s.nextGroupId + 1 < MAX_GROUPS)
      && (r.groupCount == s.groupCount ==> r.nodes == s.nodes)
      && (forall k :: 0 <= k < s.nextGroupId && k != id ==> r.groups[k] == prepared[k])
    ensures s.groupCount < MAX_GROUPS && RangesOrdered(s.groups, s.nextGroupId) ==>
      RangesOrdered(r.groups, r.nextGroupId)
  {
    var n := QueryLeaf(s, initialized, v, id);
    QueryAtLeaf(s, initialized, v, id, n, r);
  }

  /**
   * The leaf query_and_update reaches on a well-formed tree: a leaf of the
   * prepared table whose bucket is the one find_group_id names before the
   * call.
   */
  lemma QueryLeaf(s: Snapshot, initialized: bool, v: int, id: int) returns (n: nat)
    requires WellFormed(s.nodes, s.groups, s.nextGroupId) && |s.groups| == MAX_GROUPS
    requires id == LookupId(s.nodes, s.groups, v)
    ensures n == LeafIndex(s.nodes, PrepareRoot(s.groups, initialized, v), v)
    ensures IsLeaf(s.nodes, PrepareRoot(s.groups, initialized, v), n)
    ensures id == s.nodes[n].group.value && 0 <= id < s.nextGroupId
  {
    var t := PrepareRoot(s.groups, initialized, v);
    FrameKeepsWellFormed(s.nodes, s.groups, s.nextGroupId, s.nodes, t);
    RouteIgnoresStats(s.nodes, s.groups, t, v, 0);
    LookupLands(s.nodes, t, s.nextGroupId, v);
    LookupLands(s.nodes, s.groups, s.nextGroupId, v);
    n := LeafIndex(s.nodes, t, v);
  }

  /** QueryOutcome once the leaf n that the descent reaches is known. */
  lemma QueryAtLeaf(s: Snapshot, initialized: bool, v: int, id: int, n: nat, r: Snapshot)
    requires |s.groups| == MAX_GROUPS && s.nextGroupId <= MAX_GROUPS
    requires n == LeafIndex(s.nodes, PrepareRoot(s.groups, initialized, v), v)
    requires IsLeaf(s.nodes, PrepareRoot(s.groups, initialized, v), n)
    requires id == s.nodes[n].group.value && 0 <= id < s.nextGroupId
    requires r == Query(s, initialized, v)
    ensures 0 <= id < s.nextGroupId
    ensures r.groups[id].count == s.groups[id].count + 1
    ensures forall k :: 0 <= k < s.nextGroupId && k != id ==> r.groups[k].count == s.groups[k].count
    ensures r.groups[id].active <==> r.groupCount == s.groupCount
    ensures r.groupCount == s.groupCount || r.groupCount == s.groupCount + 1
    ensures r.groupCount == s.groupCount ==> r.nextGroupId == s.nextGroupId
    ensures s.groupCount >= MAX_GROUPS ==>
      r.groupCount == s.groupCount && SameShape(s.nodes, r.nodes) && SameFlags(s.groups, r.groups)
    ensures s.groupCount < MAX_GROUPS ==>
      var prepared := PrepareRoot(s.groups, initialized, v);
      && r.groups[id] == Observe(prepared[id], v).(active := r.groups[id].active)
      && (r.groupCount == s.groupCount + 1 <==> NeedSplit(r.groups[id]) && s.nextGroupId + 1 < MAX_GROUPS)
      && (r.groupCount == s.groupCount ==> r.nodes == s.nodes)
      && (forall k :: 0 <= k < s.nextGroupId && k != id ==> r.groups[k] == prepared[k])
    ensures s.groupCount < MAX_GROUPS && RangesOrdered(s.groups, s.nextGroupId) ==>
      RangesOrdered(r.groups, r.nextGroupId)
  {
    var t := s.(groups := PrepareRoot(s.groups, initialized, v));
    assert r == AfterSample(Recorded(t, n, v), n);
    SampleOutcome(t, n, v, id, r);
    if s.groupCount >= MAX_GROUPS {
      FlagsCompose(s.groups, t.groups, r.groups);
    }
    if RangesOrdered(s.groups, s.nextGroupId) {
      PrepareKeepsOrdered(s.groups, initialized, v, s.nextGroupId);
    }
  }

  /**
   * query_and_update keeps the ranges of a well-formed state ordered: below
   * capacity through the sample's outcome, at capacity (where the table holds
   * groupCount active buckets, as `Valid()` requires) through CapacityQuery.
   */
  lemma QueryKeepsOrdered(s: Snapshot, initialized: bool, v: int)
    requires WellFormed(s.nodes, s.groups, s.nextGroupId) && |s.groups| == MAX_GROUPS && s.nextGroupId <= MAX_GROUPS
    requires s.groupCount < MAX_GROUPS || ActiveCount(s.groups[..s.nextGroupId]) == s.groupCount
    requires RangesOrdered(s.groups, s.nextGroupId)
    ensures var r := Query(s, initialized, v); RangesOrdered(r.groups, r.nextGroupId)
  {
    if s.groupCount < MAX_GROUPS {
      QueryOutcome(s, initialized, v, LookupId(s.nodes, s.groups, v), Query(s, initialized, v));
    } else {
      CapacityQuery(s, initialized, v);
    }
  }

  /**
   * At capacity a well-formed state whose table holds groupCount active
   * buckets is a lone root (FullTableLoneRoot), so its edges are settled
   * and query_and_update only prepares the root bucket and records v in
   * it: the adjustment loop changes nothing, and ordered ranges stay
   * ordered.
   */
  lemma CapacityQuery(s: Snapshot, initialized: bool, v: int)
    requires WellFormed(s.nodes, s.groups, s.nextGroupId) && |s.groups| == MAX_GROUPS
    requires ActiveCount(s.groups[..s.nextGroupId]) == s.groupCount >= MAX_GROUPS
    ensures |s.nodes| == 1 && Settled(s)
    ensures var t := s.(groups := PrepareRoot(s.groups, initialized, v));
      HasBucket(t, 0) && Query(s, initialized, v) == Recorded(t, 0, v)
    ensures RangesOrdered(s.groups, s.nextGroupId) ==>
      var r := Query(s, initialized, v); RangesOrdered(r.groups, r.nextGroupId)
  {
    FullTableLoneRoot(s.nodes, s.groups, s.nextGroupId);
    var t := s.(groups := PrepareRoot(s.groups, initialized, v));
    var n := QueryLeaf(s, initialized, v, LookupId(s.nodes, s.groups, v));
    assert n == 0;
    var x := Recorded(t, 0, v);
    assert x.nodes == s.nodes;
    assert Settled(x);
    assert Query(s, initialized, v) == Rebalanced(x, MAX_ADJUST_ITERATIONS) == x;
    if RangesOrdered(s.groups, s.nextGroupId) {
      PrepareKeepsOrdered(s.groups, initialized, v, s.nextGroupId);
      ObserveKeepsOrdered(t.groups, s.nextGroupId, 0, v);
    }
  }

  /** The final discretizer: Discretizer in include/discretizer.h, with the tree kept as an arena. */
  class Discretizer {
    /** The fixed table of MAX_GROUPS buckets; slot k holds the bucket with id k. */
    const groups: array<Group>
    /** The tree; node 0 is the root. */
    var nodes: seq<TreeNode>
    var groupCount: int
    var nextGroupId: int
    var initialized: bool

    /**
     * The representation invariant: a well-formed tree over the used part
     * of the table, which holds exactly groupCount active buckets.
     */
    ghost predicate Valid()
      reads this, groups
    {
      && groups.Length == MAX_GROUPS
      && 0 <= nextGroupId <= MAX_GROUPS
      && WellFormed(nodes, groups[..], nextGroupId)
      && 1 <= groupCount
      && ActiveCount(groups[..nextGroupId]) == groupCount
    }

    /** Bookkeeping of the counters: each split uses two slots and adds one active bucket. */
    ghost predicate Budget()
      reads this
    {
      nextGroupId == 2 * groupCount - 1
    }

    /** What find_group_id answers in this state. */
    ghost function Lookup(v: int): int
      reads this, groups
    {
      LookupId(nodes, groups[..], v)
    }

    /** Adjustable on the current tree and table. */
    ghost predicate CanAdjust(edge: nat)
      reads this, groups
    {
      Adjustable(nodes, groups[..], edge)
    }

    /** The tree, the table and the counters as values. */
    ghost function State(): Snapshot
      reads this, groups
    {
      Snapshot(nodes, groups[..], groupCount, nextGroupId)
    }

    /** Neither outermost leaf can be rebalanced. */
    ghost predicate EdgesSettled()
      reads this, groups
    {
      Settled(State())
    }

    /** Every used active bucket with a sample has min <= max. */
    ghost predicate Ordered()
      reads this, groups
    {
      RangesOrdered(groups[..], nextGroupId)
    }

    /**
     * init_discretizer: one root node on bucket 0, whose range is left as the
     * empty sentinel until the first value arrives; the nominal range
     * arguments are ignored.
     */
    constructor (initialMin: int, initialMax: int)
      ensures Valid() && Budget()
      ensures fresh(groups)
      ensures !initialized && groupCount == 1 && nextGroupId == 1 && Ordered()
      ensures nodes == [NewNode(0, 0)]
      ensures groups[0] == EmptyGroup(0)
    {
      groups := new Group[MAX_GROUPS](k => Group(k, 0, 0, 0, false));
      groupCount := 1;
      nextGroupId := 1;
      initialized := false;
      nodes := [];
      new;
      InitGroup(groups, 0, 0);
      groups[0] := groups[0].(min := LLONG_MAX);
      groups[0] := groups[0].(max := LLONG_MIN);
      nodes := [NewNode(0, 0)];
      assert NodeShape(nodes, groups[..], nextGroupId, 0);
      assert groups[..1] == [groups[0]];
    }

    /**
     * initialize_with_first_value: only the first call has an effect, fixing
     * the root bucket's range to [v, v] and setting the flag.
     */
    method InitializeWithFirstValue(v: int)
      requires Valid()
      modifies this, groups
      ensures Valid() && initialized
      ensures nodes == old(nodes) && groupCount == old(groupCount) && nextGroupId == old(nextGroupId)
      ensures old(initialized) ==> groups[..] == old(groups[..])
      ensures !old(initialized) ==> groups[..] == old(groups[..])[0 := old(groups[0]).(min := v, max := v)]
    {
      if initialized {
        return;
      }
      ghost var before := groups[..];
      groups[0] := groups[0].(min := v);
      groups[0] := groups[0].(max := v);
      initialized := true;
      FrameKeepsWellFormed(nodes, before, nextGroupId, nodes, groups[..]);
    }

    /**
     * find_group_id: the id of the bucket the descent for v reaches, without
     * touching any state. In a valid state it names an active bucket.
     */
    method FindGroupId(v: int) returns (id: int)
      requires Valid()
      ensures id == Lookup(v)
      ensures 0 <= id < nextGroupId && groups[id].active
    {
      id := Arena.FindGroupId(nodes, groups[..], nextGroupId, v);
    }

    /**
     * split_group on leaf n. It fails, changing nothing, when the table is
     * at capacity, need_split does not hold or two free slots are missing.
     * Otherwise the leaf's bucket is partitioned at the split point p into
     * [min, p] and [p, max], two fresh empty buckets on two new child nodes,
     * and the old bucket is deactivated.
     */
    method SplitGroup(n: nat) returns (ok: bool)
      requires Valid() && IsLeaf(nodes, groups[..], n)
      modifies this, groups
      ensures Valid()
      ensures initialized == old(initialized)
      ensures old(Budget()) ==> Budget()
      ensures ok == (old(groupCount) < MAX_GROUPS
                     && NeedSplit(old(groups[nodes[n].group.value]))
                     && old(nextGroupId) + 1 < MAX_GROUPS)
      ensures !ok ==> nodes == old(nodes) && groups[..] == old(groups[..])
                      && groupCount == old(groupCount) && nextGroupId == old(nextGroupId)
      ensures ok ==>
        var g := old(nodes[n].group.value);
        var ng := old(nextGroupId);
        var p := CalculateSplitPoint(old(groups[g].min), old(groups[g].max));
        && groups[ng] == Group(ng, old(groups[g].min), p, 0, true)
        && groups[ng + 1] == Group(ng + 1, p, old(groups[g].max), 0, true)
        && groups[g] == old(groups[g]).(active := false)
        && groups[..] == SplitGroups(old(groups[..]), g, ng, p)
        && nodes == SplitNodes(old(nodes), n, p, ng)
        && groupCount == old(groupCount) + 1 && nextGroupId == ng + 2
      ensures State() == Split(old(State()), n)
    {
      if groupCount >= MAX_GROUPS || nodes[n].group.None? {
        return false;
      }
      var g := nodes[n].group.value;
      if !NeedSplit(groups[g]) {
        return false;
      }
      var p := CalculateSplitPoint(groups[g].min, groups[g].max);
      if nextGroupId + 1 >= MAX_GROUPS {
        return false;
      }
      assert NodeShape(nodes, groups[..], nextGroupId, n);
      Partition(n, p);
      ok := true;
    }

    /**
     * The writes of split_group once every check has passed: the two fresh
     * buckets [min, p] and [p, max], the two child nodes linked to n, the
     * split value p, the deactivated old bucket, and the counters.
     */
    method Partition(n: nat, p: int)
      requires Valid() && IsLeaf(nodes, groups[..], n) && nextGroupId + 1 < MAX_GROUPS
      modifies this, groups
      ensures Valid() && initialized == old(initialized)
      ensures nodes == SplitNodes(old(nodes), n, p, old(nextGroupId))
      ensures groups[..] == SplitGroups(old(groups[..]), old(nodes[n].group.value), old(nextGroupId), p)
      ensures groupCount == old(groupCount) + 1 && nextGroupId == old(nextGroupId) + 2
    {
      assert NodeShape(nodes, groups[..], nextGroupId, n);
      ghost var nodes0 := nodes;
      ghost var gs0 := groups[..];
      var g := nodes[n].group.value;
      var ng := nextGroupId;
      OpenChildren(groups, ng, groups[g].min, p, groups[g].max);
      ghost var gs1 := groups[..];
      var last := |nodes|;
      nodes := nodes + [NewNode(0, ng), NewNode(0, ng + 1)];
      nodes := nodes[n := nodes[n].(left := Some(last), right := Some(last + 1))];
      nodes := nodes[n := nodes[n].(splitValue := p)];
      nodes := nodes[last := nodes[last].(parent := Some(n))];
      nodes := nodes[last + 1 := nodes[last + 1].(parent := Some(n))];
      groups[g] := groups[g].(active := false);
      groupCount := groupCount + 1;
      nextGroupId := nextGroupId + 2;
      assert nodes == SplitNodes(nodes0, n, p, ng);
      assert groups[..] == gs1[g := gs0[g].(active := false)];
      SplitGroupsInOrder(gs0, g, ng, p);
      SplitKeepsWellFormed(nodes0, gs0, ng, n, p);
      SplitAddsOneActive(gs0, g, ng, p);
    }

    /**
     * adjust_boundary on an edge leaf. It fails, changing nothing, unless
     * CanAdjust holds. Otherwise the parent's split value becomes the new
     * boundary p and the edge and its sibling meet at p: for the left edge
     * the edge's max and the sibling's min, for the right edge the
     * sibling's max and the edge's min. No count, flag or counter changes.
     */
    method AdjustBoundary(edge: nat, isLeftEdge: bool) returns (ok: bool)
      requires Valid() && edge < |nodes|
      modifies this, groups
      ensures Valid()
      ensures ok == old(CanAdjust(edge))
      ensures groupCount == old(groupCount) && nextGroupId == old(nextGroupId)
      ensures initialized == old(initialized)
      ensures SameShape(old(nodes), nodes)
      ensures SameFlags(old(groups[..]), groups[..]) && SameCounts(old(groups[..]), groups[..])
      ensures !ok ==> nodes == old(nodes) && groups[..] == old(groups[..])
      ensures ok ==>
        var eg := old(nodes[edge].group.value);
        var sn := old(GetSibling(nodes, edge).value);
        var sg := old(nodes[sn].group.value);
        var pn := old(nodes[edge].parent.value);
        var p := AdjustPoint(old(groups[eg]), old(groups[sg]));
        && eg != sg
        && old(groups[eg].min) <= p < old(groups[eg].max)
        && (old(groups[eg].max) - old(groups[eg].min) >= 2 ==> old(groups[eg].min) < p)
        && nodes == old(nodes)[pn := old(nodes[pn]).(splitValue := p)]
        && groups[..] == MeetGroups(old(groups[..]), eg, sg, p, isLeftEdge)
      ensures State() == Adjusted(old(State()), edge, isLeftEdge)
    {
      assert NodeShape(nodes, groups[..], nextGroupId, edge);
      if nodes[edge].group.None? || !groups[nodes[edge].group.value].active {
        return false;
      }
      var eg := nodes[edge].group.value;
      if groups[eg].count < MIN_COUNT {
        return false;
      }
      var violates := Violates(groups[eg]);
      if !violates {
        return false;
      }
      var sibling := GetSibling(nodes, edge);
      if sibling.None? {
        return false;
      }
      SiblingIsOtherChild(nodes, groups[..], nextGroupId, edge);
      assert NodeShape(nodes, groups[..], nextGroupId, sibling.value);
      if nodes[sibling.value].group.None? || !groups[nodes[sibling.value].group.value].active {
        return false;
      }
      if nodes[edge].parent.None? {
        return false;
      }
      var pn := nodes[edge].parent.value;
      var sg := nodes[sibling.value].group.value;
      DistinctGroups(nodes, groups[..], nextGroupId, edge, sibling.value);
      WellFormedMovable(State(), nextGroupId, edge);
      var p := AdjustPoint(groups[eg], groups[sg]);
      MoveBoundary(pn, eg, sg, p, isLeftEdge);
      ok := true;
    }

    /**
     * The writes of adjust_boundary once every check has passed: the
     * parent pn takes split value p and buckets eg and sg meet at p.
     */
    method MoveBoundary(pn: nat, eg: nat, sg: nat, p: int, isLeftEdge: bool)
      requires Valid() && pn < |nodes| && eg < nextGroupId && sg < nextGroupId && eg != sg
      modifies this, groups
      ensures Valid()
      ensures groupCount == old(groupCount) && nextGroupId == old(nextGroupId)
      ensures initialized == old(initialized)
      ensures SameShape(old(nodes), nodes)
      ensures SameFlags(old(groups[..]), groups[..]) && SameCounts(old(groups[..]), groups[..])
      ensures nodes == old(nodes)[pn := old(nodes[pn]).(splitValue := p)]
      ensures groups[..] == MeetGroups(old(groups[..]), eg, sg, p, isLeftEdge)
    {
      ghost var nodes0 := nodes;
      ghost var gs0 := groups[..];
      nodes := nodes[pn := nodes[pn].(splitValue := p)];
      MeetAt(groups, eg, sg, p, isLeftEdge);
      assert Links(nodes0[pn]) == Links(nodes[pn]);
      FrameKeepsWellFormed(nodes0, gs0, nextGroupId, nodes, groups[..]);
    }

    /**
     * The adjustment loop of query_and_update at capacity: up to
     * MAX_ADJUST_ITERATIONS rounds, each trying the leftmost and then the
     * rightmost leaf (when they differ), stopping after the first round that
     * changed nothing. The new state is `Rebalanced` of the old one and
     * `rounds` counts the rounds that changed something.
     */
    method RebalanceEdges() returns (rounds: nat)
      requires Valid()
      modifies this, groups
      ensures Valid()
      ensures State() == Rebalanced(old(State()), MAX_ADJUST_ITERATIONS)
      ensures rounds == RoundsRun(old(State()), MAX_ADJUST_ITERATIONS)
      ensures rounds == 0 <==> old(EdgesSettled())
      ensures rounds <= MAX_ADJUST_ITERATIONS
      ensures rounds < MAX_ADJUST_ITERATIONS ==> EdgesSettled()
      ensures groupCount == old(groupCount) && nextGroupId == old(nextGroupId)
      ensures initialized == old(initialized)
      ensures SameShape(old(nodes), nodes)
      ensures SameFlags(old(groups[..]), groups[..]) && SameCounts(old(groups[..]), groups[..])
    {
      ghost var s0 := State();
      rounds := RunRounds(MAX_ADJUST_ITERATIONS, Rebalanced(s0, MAX_ADJUST_ITERATIONS), RoundsRun(s0, MAX_ADJUST_ITERATIONS));
      RebalancedStops(s0, MAX_ADJUST_ITERATIONS);
      RebalancedKeepsFrame(s0, MAX_ADJUST_ITERATIONS);
    }

    /**
     * The while loop of the adjustment, with MAX_ADJUST_ITERATIONS as `limit`:
     * it stops after `limit` rounds or after a round that adjusted nothing.
     * Started where the loop's invariant promises `target` and `total`, it
     * ends in state `target` having run `total` rounds.
     */
    method RunRounds(limit: nat, ghost target: Snapshot, ghost total: nat) returns (rounds: nat)
      requires Valid() && LoopInv(State(), limit, 0, target, total)
      modifies this, groups
      ensures Valid() && initialized == old(initialized)
      ensures State() == target && rounds == total
    {
      rounds := 0;
      ghost var left: nat := limit;
      while rounds < limit
        invariant Valid() && initialized == old(initialized)
        invariant rounds + left == limit
        invariant LoopInv(State(), left, rounds, target, total)
        decreases left
      {
        var anyAdjusted := LoopRound(left, rounds, target, total);
        if !anyAdjusted {
          return;
        }
        rounds := rounds + 1;
        left := left - 1;
      }
      LoopNone(State(), rounds, target, total);
    }

    /**
     * The body of the adjustment loop: one round, with the loop's ghost
     * bookkeeping. A round that adjusts something keeps the loop's invariant
     * for one round fewer; one that adjusts nothing has reached its result.
     */
    method LoopRound(ghost left: nat, ghost done: nat, ghost target: Snapshot, ghost total: nat)
      returns (anyAdjusted: bool)
      requires Valid() && left > 0 && LoopInv(State(), left, done, target, total)
      modifies this, groups
      ensures Valid() && initialized == old(initialized)
      ensures anyAdjusted ==> LoopInv(State(), left - 1, done + 1, target, total)
      ensures !anyAdjusted ==> State() == target && done == total
    {
      ghost var cur := State();
      ghost var settled := EdgesSettled();
      assert settled == Settled(cur);
      anyAdjusted := AdjustRound();
      if anyAdjusted {
        LoopStep(cur, left, done, target, total, State());
      } else {
        LoopStop(cur, left, done, target, total);
      }
    }

    /**
     * One round of the adjustment loop: an attempt on the leftmost and then
     * on the rightmost leaf, both found before either attempt and only when
     * they differ. A round that adjusts nothing changes nothing and finds
     * both edges settled.
     */
    method AdjustRound() returns (anyAdjusted: bool)
      requires Valid()
      modifies this, groups
      ensures Valid()
      ensures groupCount == old(groupCount) && nextGroupId == old(nextGroupId)
      ensures initialized == old(initialized)
      ensures SameShape(old(nodes), nodes)
      ensures SameFlags(old(groups[..]), groups[..]) && SameCounts(old(groups[..]), groups[..])
      ensures !anyAdjusted ==> nodes == old(nodes) && groups[..] == old(groups[..]) && EdgesSettled()
      ensures anyAdjusted == !old(EdgesSettled())
      ensures State() == Round(old(State()))
    {
      anyAdjusted := false;
      ghost var nodes0 := nodes;
      ghost var gs0 := groups[..];
      WellFormedNavigable(nodes, groups[..], nextGroupId);
      var leftmost := FindLeftmostLeaf(nodes, 0);
      var rightmost := FindRightmostLeaf(nodes, 0);
      assert GroupLink(nodes, groups[..], leftmost) && GroupLink(nodes, groups[..], rightmost);
      if nodes[leftmost].group.Some? && leftmost != rightmost {
        var adjusted := AdjustBoundary(leftmost, true);
        if adjusted {
          anyAdjusted := true;
        }
      }
      ghost var nodes1 := nodes;
      ghost var gs1 := groups[..];
      if nodes[rightmost].group.Some? && rightmost != leftmost {
        var adjusted := AdjustBoundary(rightmost, false);
        if adjusted {
          anyAdjusted := true;
        }
      }
      FramesCompose(nodes0, gs0, nodes1, gs1, nodes, groups[..]);
    }

    /**
     * query_and_update: prepare the root bucket, descend to the leaf bucket
     * for v, record v in it, then split it while capacity remains or
     * rebalance the edges at capacity. The new state is `Query` of the old
     * one, and the id returned is the one find_group_id gives on the state
     * before the call; that is a used bucket's id (see QueryOutcome for what
     * happens to it).
     */
    method QueryAndUpdate(v: int) returns (id: int)
      requires Valid()
      modifies this, groups
      ensures Valid() && initialized
      ensures old(Budget()) ==> Budget()
      ensures id == old(Lookup(v)) && 0 <= id < old(nextGroupId)
      ensures State() == Query(old(State()), old(initialized), v)
      ensures old(Ordered()) ==> Ordered()
    {
      if Ordered() {
        assert State().groups[..nextGroupId] == groups[..nextGroupId];
        QueryKeepsOrdered(State(), initialized, v);
      }
      PrepareRootBucket(v);
      WellFormedNavigable(nodes, groups[..], nextGroupId);
      LookupLands(nodes, groups[..], nextGroupId, v);
      var leaf := FindLeaf(nodes, groups[..], v);
      if leaf.None? {
        return -1;
      }
      id := UpdateLeaf(leaf.value, v);
    }

    /**
     * The part of query_and_update after the descent reached leaf n: record
     * v in the leaf's bucket, then split it or work on the edges. The id
     * returned is the bucket's.
     */
    method UpdateLeaf(n: nat, v: int) returns (id: int)
      requires Valid() && IsLeaf(nodes, groups[..], n)
      modifies this, groups
      ensures Valid() && initialized == old(initialized)
      ensures old(Budget()) ==> Budget()
      ensures id == old(nodes[n].group.value)
      ensures State() == AfterSample(Recorded(old(State()), n, v), n)
    {
      assert NodeShape(nodes, groups[..], nextGroupId, n);
      ghost var gs1 := groups[..];
      var g := nodes[n].group.value;
      id := RecordSample(groups, g, v);
      assert id == g;
      StatsUpdateKeepsFlags(gs1, g, Observe(gs1[g], v));
      FrameKeepsWellFormed(nodes, gs1, nextGroupId, nodes, groups[..]);
      SplitOrRebalance(n);
    }

    /**
     * The last step of query_and_update on the leaf n it updated: split the
     * leaf while capacity remains, otherwise run the edge rebalancing.
     */
    method SplitOrRebalance(n: nat)
      requires Valid() && IsLeaf(nodes, groups[..], n)
      modifies this, groups
      ensures Valid() && initialized == old(initialized)
      ensures old(Budget()) ==> Budget()
      ensures State() == AfterSample(old(State()), n)
    {
      assert NodeShape(nodes, groups[..], nextGroupId, n);
      if groupCount < MAX_GROUPS {
        if NeedSplit(groups[nodes[n].group.value]) {
          var _ := SplitGroup(n);
        }
      } else {
        var _ := RebalanceEdges();
      }
    }

    /**
     * The first part of query_and_update: the lazy first-value
     * initialisation, then widening the root bucket to v. Only bounds
     * change, so every lookup is as before.
     */
    method PrepareRootBucket(v: int)
      requires Valid()
      modifies this, groups
      ensures Valid() && initialized
      ensures nodes == old(nodes) && groupCount == old(groupCount) && nextGroupId == old(nextGroupId)
      ensures groups[..] == PrepareRoot(old(groups[..]), old(initialized), v)
      ensures Lookup(v) == old(Lookup(v))
    {
      ghost var gs0 := groups[..];
      if !initialized {
        InitializeWithFirstValue(v);
      }
      assert NodeShape(nodes, groups[..], nextGroupId, 0);
      var rootGroup := nodes[0].group.value;
      Widen(groups, rootGroup, v);
      assert groups[..] == PrepareRoot(gs0, old(initialized), v);
      FrameKeepsWellFormed(nodes, gs0, nextGroupId, nodes, groups[..]);
      RouteIgnoresStats(nodes, gs0, groups[..], v, 0);
    }
  }

  /** With the counter bookkeeping, at most 32 buckets are ever active, so the table never reaches MAX_GROUPS. */
  lemma BudgetCapsGroups(d: Discretizer)
    requires d.Valid() && d.Budget()
    ensures d.groupCount <= MAX_GROUPS / 2 < MAX_GROUPS
  {
  }

  /** A fresh discretizer answers every lookup with the root bucket 0. */
  method FreshLookup(v: int) returns (id: int)
    ensures id == 0
  {
    var d := new Discretizer(0, 0);
    id := d.FindGroupId(v);
  }

  /**
   * Observing 1 and then 2 on a fresh discretizer lands both in bucket 0;
   * the second makes [1, 2] skewed, so bucket 0 is split and two buckets are
   * active afterwards.
   */
  method FirstTwoValues() returns (first: int, second: int, active: int)
    ensures first == 0 && second == 0 && active == 2
  {
    var d := new Discretizer(0, 0);
    first := d.QueryAndUpdate(1);
    second := d.QueryAndUpdate(2);
    active := d.groupCount;
  }
}
