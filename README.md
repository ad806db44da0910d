# Adaptive binary-tree discretizer, modelled in Dafny

The repository maps a stream of integer values to at most 64 buckets ("groups").
The buckets are the leaves of a binary search tree. Every bucket records the
smallest and largest value it has seen and how many values it has seen. A leaf
whose range breaks the ratio invariant `max < 2 * min` is split in two at a split
point. A split uses two fresh slots of the 64-slot table but adds only one
active bucket, so at most 32 buckets are ever active and the table never fills
(`BudgetCapsGroups`). The code also has a branch for a full table, in which the
two outermost leaves have their boundaries moved instead of a split. That branch
is modelled, but `Valid()` alone already leaves it no work. A valid state with
64 active buckets has every slot active, so its tree is a lone root
(`FullTableLoneRoot`), and the branch only records the sample (`CapacityQuery`).
The boundary moves themselves are modelled and proved on any valid state
through the methods that perform them, called directly. Two C implementations
of this core exist and both are modelled:

- `src/discretizer.c` is the final version, in module `Discretizer`
  (`discretizer.dfy`). Its root range is set lazily from the first value and is
  widened to every later value. It has a three-case `need_split` and an
  arithmetic split point. At capacity it runs up to three rounds of edge
  rebalancing, using a count-weighted boundary.
- `groupCodeTest.c` is an earlier self-contained variant, in module
  `GroupCodeTest` (`group_code_test.dfy`). Its root range comes from
  `init_discretizer`. Its `need_split` is the bare ratio test. Its split point is
  found by an integer binary search for the geometric mean. At capacity it
  makes one adjustment attempt per edge, gated by a "severe violation" threshold.

Shared parts:

- `types.dfy` (module `DiscretizerTypes`) holds the records and constants of
  `include/discretizer.h`. It also holds `init_group`, the statistics update
  used by both `query_and_update` functions, C's truncating division and the
  clamp into `(min, max)`.
- `arena.dfy` (module `Arena`) holds the tree as an arena. The tree is a sequence
  of nodes, and `left`, `right` and `parent` are indices into it. Node 0 is the
  root. A split appends the two children after every existing node, so a child's
  index is always greater than its parent's; this makes every descent terminate.
  The module also holds the descent, leftmost and rightmost leaf searches,
  `get_sibling`, and the well-formedness invariant with the lemmas that the
  split and the boundary updates preserve it.

Each C struct maps to a Dafny `class Discretizer`:

- The table of 64 groups is a fixed `array<Group>`.
- The tree is a `seq<TreeNode>` field.
- The counters are fields.
- The operations that mutate in place are methods with `modifies` clauses.

Each class keeps a representation invariant, `Valid()`. It says:

- The arena is well formed.
- Every node refers to its own bucket. A node is a leaf exactly when its bucket is active.
- Children link back to their parent.
- Every node but the root has a parent, which comes earlier in the arena. So
  every node is reached from the root.
- The used part of the table holds exactly `groupCount` active buckets.

The separate predicate `Budget()` states the counter bookkeeping
`nextGroupId == 2 * groupCount - 1`. Every method preserves it.
`BudgetCapsGroups` proves from it that `groupCount <= 32`. A third predicate,
`Ordered()`, says that every active used bucket that has seen a sample has
`min <= max`. Both constructors establish it, and `QueryAndUpdate` keeps it.

Each class also exposes its whole state as a value, `State()`, of type
`Arena.Snapshot`. The operations that change state are specified by ghost
functions on snapshots: `Split`, `Adjusted`, `Round`, `Rebalanced`,
`EdgePass`, `AfterSample` and `Query`. Each method ensures that its new
`State()` is the matching function applied to the old one. What those
functions do is then proved in lemmas (`SampleOutcome`, `QueryOutcome`,
`RebalancedStops`, `AdjustedMeets` and others).

The adjustment loop at capacity is `RunRounds`. Its invariant, `LoopInv`,
says that running the remaining rounds from the current state gives the
result `Rebalanced(old, 3)` and the count `RoundsRun(old, 3)`.

## Model

| member | source | states |
|---|---|---|
| DiscretizerTypes.InitGroup | src/discretizer.c:6-12 | the slot becomes the empty sentinel bucket `[LLONG_MAX, LLONG_MIN]`, count 0, active, with the given id; no other slot changes |
| DiscretizerTypes.Observe | src/discretizer.c:252-259 | one more sample; the new range contains v; the first sample sets both bounds to v; later samples only widen the range, each bound being the old one or v; id and flag unchanged |
| DiscretizerTypes.RecordSample | src/discretizer.c:248-259 | the in-place statistics update turns bucket g into `Observe` of itself, touches no other slot, and returns the bucket's id |
| DiscretizerTypes.OpenChildren | src/discretizer.c:109-135 | slots ng and ng + 1 become the active empty buckets `[lo, p]` and `[p, hi]` with ids ng and ng + 1; nothing else changes |
| DiscretizerTypes.Half | src/discretizer.c:44-47 | C's `a / 2`, truncated toward zero: twice the quotient is within 2 of a on the side of zero |
| DiscretizerTypes.ClampInterior | src/discretizer.c:204-205 | the clamp into `(lo, hi)` returns a value below hi; the value is above lo once the span is at least 2, is lo when the span is 1, and is x when x is already inside |
| DiscretizerTypes.NewNode | src/discretizer.c:15-23 | a fresh node with no children and no parent on the given bucket, as create_tree_node leaves it; the split sets the parent of the two it appends (`SplitKeepsWellFormed`) |
| Arena.FindLeaf | src/discretizer.c:350-366 | the descent loop returns the leaf that the specification function `Route` reaches, and that node is a leaf |
| Arena.RouteReachesLeaf | src/discretizer.c:353-362 | in a well-formed tree the descent from any node ends at a leaf |
| Arena.LookupLands | src/discretizer.c:350-366 | in a well-formed tree every value is routed to a leaf, whose bucket is active, used, and carries the id the lookup returns |
| Arena.LookupId | src/discretizer.c:350-366 | the answer of find_group_id as a function: the id of the bucket at the leaf the descent reaches, -1 when the descent fails; `LookupLands` proves it a used active slot in a well-formed tree |
| Arena.FindGroupId | src/discretizer.c:350-366 | in a well-formed tree, returns `LookupId` of v, the slot of a used active bucket; both classes' `FindGroupId` call it |
| Arena.FullTableLoneRoot | src/discretizer.c:262-266 | a well-formed arena whose used part holds as many active buckets as the table has slots is the lone root: one node, no children |
| Arena.RouteIgnoresStats | src/discretizer.c:353-362 | the descent reads only split values and active flags, so changing bucket bounds or counts never changes where a value goes |
| Arena.FindLeftmostLeaf | src/discretizer.c:51-62 | the loop returns the leftmost leaf of the subtree: a childless node at or after the start index |
| Arena.FindRightmostLeaf | src/discretizer.c:65-76 | the loop returns the rightmost leaf of the subtree: a childless node at or after the start index |
| Arena.ChildlessIsLeaf | src/discretizer.c:51-62 | in a well-formed tree a node with no children is a leaf, which is the node the leaf searches stop at |
| Arena.GetSibling | src/discretizer.c:79-87 | a sibling is found only when the node exists and has a parent inside the arena |
| Arena.SiblingIsOtherChild | src/discretizer.c:79-87 | in a well-formed tree every node with a parent has a sibling, a different node with the same parent |
| Arena.DistinctGroups | src/discretizer.c:211-217 | two different nodes refer to two different buckets, so the edge and sibling updates never write the same slot |
| Arena.SplitKeepsWellFormed | src/discretizer.c:108-131 | splitting a leaf keeps the tree well formed: the two new children link back to it and each refers to its own fresh bucket, and the old leaf becomes inner with an inactive bucket |
| Arena.SplitAddsOneActive | src/discretizer.c:131-137 | a split adds exactly one active bucket to the used part of the table, which is the `group_count += 1` bookkeeping |
| Arena.FrameKeepsWellFormed | src/discretizer.c:208-217 | changing only split values and bucket bounds or counts keeps the tree well formed and the active count |
| Arena.MeetGroups | src/discretizer.c:208-217 | after the bound updates the edge bucket and its sibling meet at p (left edge: edge max and sibling min; right edge: sibling max and edge min); every other bucket, and every id, flag and count, is kept |
| Arena.MeetAt | src/discretizer.c:211-217 | the in-place bound updates turn the table into `MeetGroups` of the old table |
| Arena.LeafIndex | src/discretizer.c:242-317 | the index of the leaf the descent from the root reaches, which lies inside a non-empty arena |
| Arena.MovedKeepsFrame | src/discretizer.c:208-217 | the writes of adjust_boundary (new split value on the parent, the edge and its sibling meeting at p) keep every link, id, flag and count |
| Arena.SplitAtOutcome | src/discretizer.c:108-137 | a split of leaf n deactivates its bucket g, leaves every other used bucket as it was, and bumps the counters by 1 and 2 |
| Arena.WellFormedMovable | src/discretizer.c:172-182 | in a well-formed tree every node with a parent has a sibling with its own, distinct bucket, so the writes of adjust_boundary are defined |
| Arena.ObserveKeepsOrdered | src/discretizer.c:252-259 | recording a sample keeps every active used bucket that has samples ordered (`min <= max`) |
| Arena.SplitKeepsOrdered | src/discretizer.c:109-137 | a split keeps the used buckets ordered: its two fresh buckets are empty and the rest are kept |
| Discretizer.NeedSplit | src/discretizer.c:26-39 | true exactly when there are at least 2 samples, min >= 0, the ratio invariant fails and max >= 2; this covers all three branches: ratio for min > 0, span for min == 0, never for min < 0 |
| Discretizer.CalculateSplitPoint | src/discretizer.c:42-48 | min for an empty or inverted range; otherwise a point in `[min, max]`, strictly inside once the span is at least 2 (no clamping) |
| Discretizer.Violates | src/discretizer.c:159-169 | on a bucket with at least 2 samples, the violation test of adjust_boundary is exactly need_split; it never holds for a negative minimum |
| Discretizer.AdjustPoint | src/discretizer.c:187-205 | the weighted boundary, after the clamp, is below edge.max, strictly inside `(edge.min, edge.max)` once the span is at least 2, and never below edge.min for a violating edge |
| Discretizer.Widened | src/discretizer.c:234-240 | the widened range contains v and the old range; each new bound is the old one or v; id, count and flag are kept |
| Discretizer.Widen | src/discretizer.c:234-240 | the in-place widening replaces bucket g by `Widened` of itself and touches nothing else |
| Discretizer.PrepareRoot | src/discretizer.c:228-240 | only the root bucket changes: its range now contains v; on the first value it is `[v, v]`; once initialised it only widens; each new bound is the old one or v; id, count and flag stay |
| Discretizer.PrepareKeepsOrdered | src/discretizer.c:228-240 | preparing the root bucket keeps the used buckets ordered |
| Discretizer.Adjusted | src/discretizer.c:147-222 | adjust_boundary on a snapshot keeps the arena and table sizes and both counters; `AdjustedMeets` and `AdjustedKeepsFrame` state its effect |
| Discretizer.AdjustedMeets | src/discretizer.c:187-217 | an adjustable edge gets the weighted point p in `[edge.min, edge.max)`: the parent's split value and the shared bounds of the edge and its sibling become p, no other bucket changes, and the edge's range never widens, strictly shrinking unless it is a right edge of span 1 |
| Discretizer.AdjustedKeepsFrame | src/discretizer.c:208-217 | an adjustment changes no link, id, flag or count |
| Discretizer.Round | src/discretizer.c:272-288 | one round on a snapshot keeps the sizes and both counters |
| Discretizer.Rebalanced | src/discretizer.c:266-294 | the adjustment loop on a snapshot keeps the sizes and both counters |
| Discretizer.RebalancedStops | src/discretizer.c:271-294 | the loop runs at most the given number of rounds, none exactly when the edges start settled, and stopping early leaves them settled |
| Discretizer.RebalancedKeepsFrame | src/discretizer.c:266-294 | the whole adjustment loop changes no link, id, flag or count |
| Discretizer.RoundKeepsFrame | src/discretizer.c:272-288 | one round changes no link, id, flag or count |
| Discretizer.LoopStep | src/discretizer.c:271-293 | a round on unsettled edges keeps the loop's invariant (the rest of the loop from here gives the final state and round count) with one round fewer left and one more done |
| Discretizer.LoopStop | src/discretizer.c:290-291 | once the edges are settled, the current state and count are the loop's result |
| Discretizer.LoopNone | src/discretizer.c:271 | with no rounds left, the current state and count are the loop's result |
| Discretizer.Split | src/discretizer.c:90-138 | split_group on a snapshot keeps the table size |
| Discretizer.AfterSample | src/discretizer.c:261-299 | the step after recording a sample keeps the table size |
| Discretizer.SampleOutcome | src/discretizer.c:248-299 | after recording v in leaf n's bucket g and splitting or rebalancing: g gains exactly one sample, every other used count is kept, g stays active exactly when no split happened, the counters grow by 0/0 or 1/2; at capacity links, ids and flags are kept; below capacity g holds `Observe` of its old record, a split happens exactly when need_split then holds and slots remain, no split leaves the arena unchanged, every other used bucket is unchanged, and ordered ranges stay ordered |
| Discretizer.QueryLeaf | src/discretizer.c:242-250 | on a well-formed tree the leaf the descent reaches after preparing the root is a leaf whose bucket is the id find_group_id gives before the call |
| Discretizer.QueryAtLeaf | src/discretizer.c:228-302 | the outcome of query_and_update once its leaf is known, in terms of the prepared root table |
| Discretizer.QueryOutcome | src/discretizer.c:225-302 | for the id that find_group_id gives before the call: it is used, its bucket gains exactly one sample, every other used count is kept, it stays active exactly when no split happened; below capacity it holds `Observe` of its prepared record, it splits exactly when need_split then holds and slots remain, every other used bucket keeps its prepared record and ordered ranges stay ordered; at capacity links, ids and flags are kept |
| Discretizer.QueryKeepsOrdered | src/discretizer.c:225-302 | query_and_update keeps the used buckets of a well-formed state ordered: below capacity, and at capacity when the table holds `groupCount` active buckets as `Valid()` requires |
| Discretizer.Query | src/discretizer.c:225-302 | query_and_update on a snapshot keeps the table size and adds at most one active bucket; `QueryOutcome` and `CapacityQuery` state the rest |
| Discretizer.CapacityQuery | src/discretizer.c:262-299 | at capacity a valid state is the lone root with settled edges, so query_and_update only prepares the root bucket and records v in it, and ordered ranges stay ordered |
| Discretizer.Discretizer.constructor | src/discretizer.c:323-335 | a single root node on bucket 0, the sentinel range, 1 group, next id 1, not initialised; the state is valid, within budget and ordered |
| Discretizer.Discretizer.InitializeWithFirstValue | src/discretizer.c:338-347 | the first call sets bucket 0 to `[v, v]` and the flag; any later call changes nothing |
| Discretizer.Discretizer.FindGroupId | src/discretizer.c:350-366 | returns the lookup of v in the current state, an active used bucket, and modifies nothing |
| Discretizer.Discretizer.SplitGroup | src/discretizer.c:90-144 | succeeds exactly when below capacity, need_split holds and two slots are free, and changes nothing otherwise; on success the leaf's bucket `[min, max]` is partitioned at the split point into fresh buckets `[min, p]` and `[p, max]` with the next two ids, the leaf gets split value p and two children, the old bucket is deactivated, and the counters grow by 1 and 2; the new state is `Split` of the old one |
| Discretizer.Discretizer.Partition | src/discretizer.c:108-138 | the writes of a split leave the arena as `SplitNodes` and the table as `SplitGroups` of the old ones; the counters grow by 1 and 2; the state stays valid |
| Discretizer.Discretizer.AdjustBoundary | src/discretizer.c:147-222 | succeeds exactly when the edge bucket is active, has at least 2 samples and violates the ratio test, and has an active sibling and a parent; otherwise nothing changes; on success the parent's split value becomes the weighted point p, which lies in `[edge.min, edge.max)` and strictly inside for a span of at least 2; the left edge's max and its sibling's min (or the right edge's min and its sibling's max) both become p; no count, flag, link or counter changes; the new state is `Adjusted` of the old one |
| Discretizer.Discretizer.MoveBoundary | src/discretizer.c:208-217 | the parent's split value becomes p and the table becomes `MeetGroups` of the old one; the shape, flags, counts and counters are kept and the state stays valid |
| Discretizer.Discretizer.AdjustRound | src/discretizer.c:271-293 | one round: the new state is `Round` of the old one (adjust_boundary on the leftmost, then on the rightmost leaf, when they differ); it reports an adjustment exactly when the edges were not settled before; a round that adjusts nothing changes nothing; shape, flags, counts and counters are kept |
| Discretizer.Discretizer.RebalanceEdges | src/discretizer.c:266-294 | the new state is `Rebalanced(old, 3)` and the round count is `RoundsRun(old, 3)`: no rounds exactly when the edges were settled, at most 3, and stopping before the third leaves the edges settled; shape, flags, counts and counters are unchanged |
| Discretizer.Discretizer.RunRounds | src/discretizer.c:271-294 | the while loop with its bound as a parameter: started where the loop's invariant names a final state and round count, it ends in that state with that count |
| Discretizer.Discretizer.LoopRound | src/discretizer.c:272-291 | one pass of the loop body: a round that adjusts something keeps the loop's invariant for one round fewer; one that adjusts nothing leaves the state at the loop's result and the count at its total |
| Discretizer.Discretizer.PrepareRootBucket | src/discretizer.c:228-240 | lazy initialisation and widening of the root bucket change only the table as `PrepareRoot` says, and no lookup changes |
| Discretizer.Discretizer.QueryAndUpdate | src/discretizer.c:225-320 | returns what find_group_id gave before the call, a used bucket id; the new state is `Query` of the old one (prepare the root, record v in the leaf reached, then split or rebalance), whose outcome `QueryOutcome` states (and `CapacityQuery` at capacity); ordered ranges stay ordered |
| Discretizer.Discretizer.UpdateLeaf | src/discretizer.c:248-299 | returns the leaf's bucket id; the new state is `AfterSample` of the old one with v recorded in the leaf's bucket (see `SampleOutcome`) |
| Discretizer.Discretizer.SplitOrRebalance | src/discretizer.c:261-299 | the new state is `AfterSample` of the old one: `Split` of the leaf below capacity, `Rebalanced(old, 3)` at capacity |
| Discretizer.BudgetCapsGroups | src/discretizer.c:104-138 | with next_group_id == 2 * group_count - 1 and the active count equal to group_count, at most 32 buckets are active |
| Discretizer.FreshLookup | src/discretizer.c:350-366 | on a fresh discretizer every lookup answers bucket 0 |
| Discretizer.FirstTwoValues | src/discretizer.c:225-262 | observing 1 and then 2 on a fresh discretizer returns bucket 0 twice and leaves two active buckets |
| GroupCodeTest.NeedSplit | groupCodeTest.c:55-59 | true exactly when there are at least 2 samples and the ratio invariant fails, whatever the sign of min |
| GroupCodeTest.NeedSplitComparedWithFinal | groupCodeTest.c:55-59 | both need_split tests agree on a positive minimum; only this variant splits `[0, 1]`, or a bucket with a negative minimum |
| GroupCodeTest.SearchSqrtIsRoot | groupCodeTest.c:70-84 | the binary search returns r with `r * r <= target < (r + 1) * (r + 1)`, the integer square root, never below its starting guess |
| GroupCodeTest.SqrtSplitPoint | groupCodeTest.c:62-91 | with min != 0 the point is below max and strictly inside `(min, max)` once the span is at least 2; with min == 0 it is half of max |
| GroupCodeTest.GeometricSplitPoint | groupCodeTest.c:62-91 | for `0 < min < max` the point lies in `[min, max)`: it is the integer square root of `min * max`, or min + 1 when that root is min itself and the span allows it |
| GroupCodeTest.CalculateSplitPoint | groupCodeTest.c:62-91 | the binary-search loop with its clamp computes `SqrtSplitPoint` |
| GroupCodeTest.Adjusted | groupCodeTest.c:190-236 | this variant's adjust_boundary on a snapshot keeps the sizes and both counters |
| GroupCodeTest.AdjustedMeets | groupCodeTest.c:219-231 | an adjustable edge gets p = `SqrtSplitPoint(edge.min, edge.max)`: the parent's split value and the shared bounds of the edge and its sibling become p, no other bucket changes, and a left edge with min != 0 strictly loses its top |
| GroupCodeTest.EdgePass | groupCodeTest.c:264-275 | the edge pass on a snapshot keeps the sizes and both counters |
| GroupCodeTest.EdgePassFrame | groupCodeTest.c:264-275 | the edge pass changes no link, id, flag or count, and changes nothing when neither outermost leaf is adjustable |
| GroupCodeTest.Split | groupCodeTest.c:133-187 | this variant's split_group on a snapshot keeps the table size |
| GroupCodeTest.AfterSample | groupCodeTest.c:259-276 | the step after recording a sample keeps the table size |
| GroupCodeTest.SampleOutcome | groupCodeTest.c:246-278 | after recording v in leaf n's bucket g and splitting or running the edge pass: g gains exactly one sample, every other used count is kept, g stays active exactly when no split happened, the counters grow by 0/0 or 1/2; at capacity links, ids and flags are kept; below capacity g holds `Observe` of its old record, a split happens exactly when need_split then holds and slots remain, no split leaves the arena unchanged, every other used bucket is unchanged, and ordered ranges stay ordered |
| GroupCodeTest.QueryLeaf | groupCodeTest.c:239-278 | on a well-formed tree the descent reaches a leaf whose bucket is the id find_group_id gives, and the query is `AfterSample` on that leaf |
| GroupCodeTest.QueryKeepsOrdered | groupCodeTest.c:239-278 | query_and_update keeps the used buckets of a well-formed state ordered: below capacity, and at capacity when the table holds `groupCount` active buckets as `Valid()` requires |
| GroupCodeTest.Query | groupCodeTest.c:239-290 | this variant's query_and_update on a snapshot keeps the table size and adds at most one active bucket; `SampleOutcome`, `QueryLeaf` and `CapacityQuery` state the rest |
| GroupCodeTest.CapacityQuery | groupCodeTest.c:260-276 | at capacity a valid state is the lone root, which has no parent, so the edge pass changes nothing and query_and_update only records v in the root bucket; ordered ranges stay ordered |
| GroupCodeTest.Discretizer.constructor | groupCodeTest.c:293-304 | a single root node on bucket 0 with range `[initialMin, initialMax]`, 1 group, next id 1; the state is valid and within budget, and ordered |
| GroupCodeTest.Discretizer.FindGroupId | groupCodeTest.c:307-323 | returns the lookup of v in the current state, an active used bucket, and modifies nothing |
| GroupCodeTest.Discretizer.SplitGroup | groupCodeTest.c:133-187 | the same partition as the final version, using this variant's need_split and the geometric split point; it changes nothing whenever it fails; the new state is `Split` of the old one |
| GroupCodeTest.Discretizer.Partition | groupCodeTest.c:151-181 | the writes of a split leave the arena as `SplitNodes` and the table as `SplitGroups` of the old ones; the counters grow by 1 and 2; the state stays valid |
| GroupCodeTest.Discretizer.AdjustBoundary | groupCodeTest.c:190-236 | succeeds exactly when the edge bucket is active with at least 2 samples and `max >= 2 * min * 11 / 10` (C truncation), and has an active sibling and a parent; otherwise nothing changes; on success the parent's split value and the meeting bounds of the edge and its sibling all become `SqrtSplitPoint(edge.min, edge.max)`; the new state is `Adjusted` of the old one |
| GroupCodeTest.Discretizer.MoveBoundary | groupCodeTest.c:219-231 | the parent's split value becomes p and the table becomes `MeetGroups` of the old one; shape, flags, counts and counters are kept |
| GroupCodeTest.Discretizer.AdjustEdges | groupCodeTest.c:264-275 | the new state is `EdgePass` of the old one: adjust_boundary on the leftmost, then on the rightmost leaf, both found first; shape, flags, counts and counters are unchanged |
| GroupCodeTest.Discretizer.QueryAndUpdate | groupCodeTest.c:239-290 | returns what find_group_id gave before the call, a used bucket id; the new state is `Query` of the old one (record v in the leaf reached, then split or run the edge pass), whose outcome `SampleOutcome` and `QueryLeaf` state (and `CapacityQuery` at capacity); ordered ranges stay ordered |
| GroupCodeTest.Discretizer.UpdateLeaf | groupCodeTest.c:242-278 | returns the leaf's bucket id; the new state is `AfterSample` of the old one with v recorded in the leaf's bucket (see `SampleOutcome`) |
| GroupCodeTest.Discretizer.SplitOrAdjust | groupCodeTest.c:259-275 | the new state is `AfterSample` of the old one: `Split` of the leaf below capacity, `EdgePass` at capacity |
| GroupCodeTest.FreshLookup | groupCodeTest.c:307-323 | on a discretizer started on `[1, 100]` every lookup answers bucket 0 |
| GroupCodeTest.TwoValues | groupCodeTest.c:239-304 | observing 50 and then 100 on a discretizer started on `[1, 100]` returns bucket 0 twice and leaves two active buckets |

## Left out

- Console output: every `printf` and `print_groups` in both files. The
  `adjust_iterations` message is the only use of the round count, which
  `RebalanceEdges` returns.
- Memory management: `malloc` in `create_tree_node` becomes appending to the
  arena. `free_tree` is not modelled.
- `src/main.c` and `main` in `groupCodeTest.c` are random-number and printing
  drivers. They are not part of this model.
- Overflow of `long long` and `int`: all integers are unbounded. The model
  therefore describes the behaviour for inputs where `min + max`, `mid * mid`,
  `min * max`, `count * 100` and `2 * min * 11` stay in range. No range
  precondition is imposed.
- The unused header constants `INITIAL_SAMPLE_WINDOW` and `EXPANSION_FACTOR`.
  Also the `initialMin`/`initialMax` arguments of the final `init_discretizer`,
  which ignores them and which the constructor likewise ignores.
- The `NULL` checks on the discretizer and its root, and the `return -1` after a
  descent that reaches `NULL`. In a valid state every descent reaches an active
  leaf (`LookupLands`), so these paths cannot occur. The descent still returns
  `-1` on them, as C does.
- Table slots at or beyond `next_group_id` are uninitialised memory in C. The
  model fills them with inactive placeholders, which nothing reads.
- Discretizer.Discretizer.SplitGroup and GroupCodeTest.Discretizer.SplitGroup:
  the caller must pass an active leaf, the only way `query_and_update` calls
  them. The C `group == NULL` test is kept, but it cannot fail on a leaf.
- Discretizer.Discretizer.RebalanceEdges: when all three rounds change
  something, nothing is promised about whether a fourth would.
- The boundary-moving methods (`RebalanceEdges`, `AdjustRound`,
  `AdjustBoundary`, `AdjustEdges`) are not proved to keep `Ordered()` when
  called directly on a valid state with several leaves. The new point lies
  inside the edge's own range (`AdjustedMeets`), but `Valid()` does not relate
  the ranges of siblings. So nothing rules out the point passing the sibling's
  far bound. Through `QueryAndUpdate` this cannot happen (see the next line).
- Because the counters keep `next_group_id == 2 * group_count - 1`, the slot
  check `next_group_id + 1 >= 64` fails a split once 32 buckets are active, so
  `group_count` never reaches 64 (`BudgetCapsGroups`). The at-capacity
  adjustment branch of both `query_and_update` functions is therefore
  unreachable from the constructor. `Valid()` does not assume the bookkeeping,
  but it still leaves that branch no work. With 64 active buckets in 64 slots,
  every bucket is active, so no node has children and the tree is the lone root
  (`FullTableLoneRoot`). The final loop then finds its edges settled. The
  variant's edge pass finds that the root has no parent. So both branches only
  record the sample (`CapacityQuery`). An at-capacity tree with several leaves,
  on which boundaries would move, is not a valid state of this model.
- The final `calculate_split_point` does not clamp its result into
  `(min, max)`, and the model follows the code. So `[1, 2]` splits at 1,
  giving buckets `[1, 1]` and `[1, 2]`.
