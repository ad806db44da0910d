/**
 * Types and constants shared by both discretizer variants: the records of
 * include/discretizer.h (Group, TreeNode), its constants, and the integer
 * helpers that both C files rely on (C's truncating division and the
 * "clamp strictly inside (min, max)" step).
 */
module DiscretizerTypes {

  /** Size of the bucket table. */
  const MAX_GROUPS: int := 64
  /** Smallest span that counts as skew when a bucket's minimum is 0. */
  const MIN_SPAN: int := 1
  /** Samples a bucket needs before it may be split or adjusted. */
  const MIN_COUNT: int := 2
  /** The ratio of the invariant max < THRESHOLD_RATIO * min. */
  const THRESHOLD_RATIO: int := 2

  /** Bounds of C's signed 64-bit `long long`, used as "empty" sentinels. */
  const LLONG_MAX: int := 0x7FFF_FFFF_FFFF_FFFF
  const LLONG_MIN: int := -0x8000_0000_0000_0000

  datatype Option<T> = None | Some(value: T)

  /** One bucket: its id (its slot in the table), observed range, sample count and leaf flag. */
  datatype Group = Group(groupId: int, min: int, max: int, count: nat, active: bool)

  /**
   * A tree node of the arena. `left`, `right` and `parent` are arena indices
   * (None is C's NULL); `group` is the slot of the bucket the node refers to.
   */
  datatype TreeNode = TreeNode(
    splitValue: int,
    left: Option<nat>,
    right: Option<nat>,
    parent: Option<nat>,
    group: Option<nat>)

  /** The ratio invariant a bucket should satisfy: max < 2 * min. */
  predicate RatioHolds(g: Group)
  {
    g.max < THRESHOLD_RATIO * g.min
  }

  /** The record init_group leaves behind: sentinel range, no samples, active. */
  function EmptyGroup(groupId: int): Group
  {
    Group(groupId, LLONG_MAX, LLONG_MIN, 0, true)
  }

  /** init_group: reset the bucket in `slot` field by field. */
  method InitGroup(groups: array<Group>, slot: int, groupId: int)
    requires 0 <= slot < groups.Length
    modifies groups
    ensures groups[..] == old(groups[..])[slot := EmptyGroup(groupId)]
  {
    groups[slot] := groups[slot].(groupId := groupId);
    groups[slot] := groups[slot].(min := LLONG_MAX);
    groups[slot] := groups[slot].(max := LLONG_MIN);
    groups[slot] := groups[slot].(count := 0);
    groups[slot] := groups[slot].(active := true);
  }

  /**
   * The statistics update both query_and_update functions apply to the bucket of the leaf they reach:
   * the first sample fixes both bounds, later samples only widen them, and
   * the count grows by one.
   */
  function Observe(g: Group, v: int): (r: Group)
    ensures r.count == g.count + 1
    ensures r.min <= v <= r.max
    ensures g.count == 0 ==> r.min == v == r.max
    ensures g.count > 0 ==> r.min <= g.min && r.max >= g.max
    ensures r.min == g.min || r.min == v
    ensures r.max == g.max || r.max == v
    ensures r.groupId == g.groupId && r.active == g.active
  {
    var first := g.count == 0;
    var lo := if first || v < g.min then v else g.min;
    var hi := if first || v > g.max then v else g.max;
    g.(min := lo, max := hi, count := g.count + 1)
  }

  /**
   * The statistics update performed in place on bucket g of the table; the
   * bucket's id is returned.
   */
  method RecordSample(groups: array<Group>, g: nat, v: int) returns (id: int)
    requires g < groups.Length
    modifies groups
    ensures id == old(groups[g].groupId)
    ensures groups[..] == old(groups[..])[g := Observe(old(groups[g]), v)]
  {
    id := groups[g].groupId;
    if groups[g].count == 0 {
      groups[g] := groups[g].(min := v);
      groups[g] := groups[g].(max := v);
    } else {
      if v < groups[g].min {
        groups[g] := groups[g].(min := v);
      }
      if v > groups[g].max {
        groups[g] := groups[g].(max := v);
      }
    }
    groups[g] := groups[g].(count := groups[g].count + 1);
  }

  /**
   * The bucket writes of split_group: init_group on the two fresh slots ng
   * and ng + 1, their bounds [lo, p] and [p, hi], and their counts reset.
   */
  method OpenChildren(groups: array<Group>, ng: int, lo: int, p: int, hi: int)
    requires 0 <= ng && ng + 1 < groups.Length
    modifies groups
    ensures groups[..] == old(groups[..])[ng := Group(ng, lo, p, 0, true)][ng + 1 := Group(ng + 1, p, hi, 0, true)]
  {
    InitGroup(groups, ng, ng);
    InitGroup(groups, ng + 1, ng + 1);
    groups[ng] := groups[ng].(min := lo);
    groups[ng] := groups[ng].(max := p);
    groups[ng + 1] := groups[ng + 1].(min := p);
    groups[ng + 1] := groups[ng + 1].(max := hi);
    groups[ng] := groups[ng].(count := 0);
    groups[ng + 1] := groups[ng + 1].(count := 0);
  }

  /** create_tree_node: a node with no children and no parent. */
  function NewNode(splitValue: int, group: nat): TreeNode
  {
    TreeNode(splitValue, None, None, None, Some(group))
  }

  /** Division as C performs it on a positive divisor: truncated toward zero. */
  function CDiv(a: int, d: int): int
    requires d > 0
  {
    if a >= 0 then a / d else -((-a) / d)
  }

  /**
   * C's `a / 2`: twice the quotient lies between 0 and a, less than 2 away
   * from a, on the side of zero.
   */
  function Half(a: int): (q: int)
    ensures 0 <= a ==> 0 <= 2 * q <= a < 2 * q + 2
    ensures a < 0 ==> a <= 2 * q <= 0 && 2 * q < a + 2
  {
    CDiv(a, 2)
  }

  /**
   * The clamp both C files apply to a split point: lift it above `lo`, then
   * push it below `hi`. The result is always below `hi`, strictly inside
   * (lo, hi) once the span is at least 2, and an interior point is kept.
   */
  function ClampInterior(lo: int, hi: int, x: int): (r: int)
    ensures r < hi
    ensures hi - lo >= 2 ==> lo < r
    ensures hi - lo == 1 ==> r == lo
    ensures lo < x < hi ==> r == x
  {
    var lifted := if x <= lo then lo + 1 else x;
    if lifted >= hi then hi - 1 else lifted
  }

  function Indicator(b: bool): nat
  {
    if b then 1 else 0
  }

  /** Number of active buckets in a stretch of the table. */
  function ActiveCount(gs: seq<Group>): (n: nat)
    ensures n <= |gs|
  {
    if gs == [] then 0
    else ActiveCount(gs[..|gs| - 1]) + Indicator(gs[|gs| - 1].active)
  }

  lemma ActiveCountAppend(gs: seq<Group>, g: Group)
    ensures ActiveCount(gs + [g]) == ActiveCount(gs) + Indicator(g.active)
  {
    assert (gs + [g])[..|gs|] == gs;
  }

  /** Overwriting one bucket changes the count by the change in its flag only. */
  lemma {:induction false} ActiveCountUpdate(gs: seq<Group>, i: nat, g: Group)
    requires i < |gs|
    ensures ActiveCount(gs[i := g]) + Indicator(gs[i].active)
         == ActiveCount(gs) + Indicator(g.active)
    decreases |gs|
  {
    var last := |gs| - 1;
    if i == last {
      assert gs[i := g][..last] == gs[..last];
    } else {
      assert gs[i := g][..last] == gs[..last][i := g];
      ActiveCountUpdate(gs[..last], i, g);
    }
  }

  /** Two tables with the same active flags have the same count. */
  lemma {:induction false} ActiveCountSameFlags(a: seq<Group>, b: seq<Group>)
    requires |a| == |b|
    requires forall k :: 0 <= k < |a| ==> a[k].active == b[k].active
    ensures ActiveCount(a) == ActiveCount(b)
    decreases |a|
  {
    if a != [] {
      ActiveCountSameFlags(a[..|a| - 1], b[..|b| - 1]);
    }
  }

  /** A stretch whose active count is its length holds only active buckets. */
  lemma {:induction false} ActiveCountFull(gs: seq<Group>)
    requires ActiveCount(gs) == |gs|
    ensures forall k :: 0 <= k < |gs| ==> gs[k].active
    decreases |gs|
  {
    if gs != [] {
      var init := gs[..|gs| - 1];
      ActiveCountFull(init);
      forall k | 0 <= k < |gs|
        ensures gs[k].active
      {
        if k < |init| {
          assert gs[k] == init[k];
        }
      }
    }
  }
}
