# A verified model of an owned k-d tree

This project is a Dafny model of `OwnedKdTree`, a k-d tree over points of a
fixed dimension `D`. Each point carries a value, and the tree supports these
operations:

- insertion, with capacity-triggered leaf splitting;
- removal of every copy of a (point, value) pair;
- two branch-and-bound queries: the `num` nearest entries, and every entry
  within a radius;
- a lazy iterator that hands out entries nearest first.

The model follows `src/owned_kdtree.rs`.

- **Nodes.** The tree is the recursive datatype `Nodes.Node`.
  - A `Leaf` holds its entries (the parallel `points`/`bucket` vectors).
  - A `Stem` holds `split_dimension`, `split_value`, `left` and `right`.
  - Both kinds carry `size` and the bounds.
  - The bounds are `Geometry.Box`. `EmptyBox` stands for the initial
    `+inf`/`-inf` arrays, which hold no point.
  - Node operations work on values and return the new node. Their loops stay
    loops: the dimension loop of `extend`, the dimension choice and
    redistribution loops of `split`, the deletion loop of `remove`, and the
    descent and leaf loops of the queries.
- **Invariant.** `Nodes.Valid` is the tree invariant:
  - `size` counts the entries;
  - the bounds hold every entry;
  - a stem sends an entry left exactly when its coordinate is strictly below
    the split value;
  - a leaf holds more than `capacity` entries only when its bounds have no
    positive extent (an abandoned split).
- **Queries.**
  - The caller's `distance` and the bound `distance_to_space_const` derives
    from it are function parameters.
  - The frontier (`pending`) and the candidate set (`evaluated`) are
    sequences. The frontier is popped at a least key. The candidates are
    cut at a greatest distance, and `next` hands out their least distance.
  - `SearchDefs.Tracking` is the invariant of the query loops: every entry of
    the tree is below the frontier, among the candidates, or discarded for a
    stated reason.
  - The answer facts are stated under `SearchDefs.Admissible`, the caller's
    contract: distances are never negative, and the bound of a box never
    exceeds the distance to a point inside it.
- **Iterator.** `NearestIter` is a class. Its iterator state (`pending`,
  `evaluated`) lives in fields that `Next` updates in place.
- **Rounding.** Coordinates are exact reals everywhere except in the module
  `Rounding`, which computes the split value with double-precision rounding
  to show where `split` relies on exact arithmetic.

In these places the code does something other than a textbook k-d tree;
the model follows the code:

- At a stem, `remove` recurses into both children, right first and then left
  (lines 299-314), not only into the child whose side holds the point.
- `NearestIter::next` keeps expanding while the best candidate's distance is
  at least the least frontier key (lines 414-416). So on a tie it expands
  once more rather than handing out.
- `nearest` keeps expanding while the least frontier key is at most the
  worst candidate's distance (line 83), that is, on a tie as well.
- At a leaf, `remove` searches by point only, not by (point, value). This is
  listed under "## Findings".

## Model

| member | source | states |
|---|---|---|
| Geometry.CheckPoint | src/owned_kdtree.rs:380-387 | Ok exactly when every coordinate is finite; the error is `NonFiniteCoordinate`; an accepted point keeps its length and coordinates |
| Geometry.Extend | src/owned_kdtree.rs:358-369 | the per-dimension loop of `extend` leaves exactly the smallest bounds holding the old bounds and the point (`ExtendBox`) |
| Geometry.ExtendBoxProperties | src/owned_kdtree.rs:358-369 | after `extend` the point lies inside the bounds, the old bounds lie within the new ones (bounds never shrink), and the bounds stay well formed |
| Geometry.ExtendKeepsPoints | src/owned_kdtree.rs:358-369 | every point inside the old bounds is inside the widened bounds |
| Geometry.ExtendBoxIsLeast | src/owned_kdtree.rs:358-369 | the widened bounds lie within any box holding the old bounds and the point, so `extend` widens no more than needed |
| Geometry.ChooseSplitDimension | src/owned_kdtree.rs:319-332 | no dimension is chosen exactly when no extent is positive; otherwise the chosen one is the first with a positive extent strictly greater than every earlier extent and not smaller than any later one |
| Geometry.MidpointSeparates | src/owned_kdtree.rs:333-337 | the split value `min + (max - min) / 2` of a dimension with positive extent lies strictly above its minimum and at or below its maximum, in exact arithmetic. This alone does not make both sides non-empty: bounds that removal left wider than the entries can put every entry on one side |
| Geometry.DegenerateHoldsOnePoint | src/owned_kdtree.rs:327-332 | bounds with no positive extent (where `split` gives up) hold at most one point |
| Nodes.WithCapacity | src/owned_kdtree.rs:40-55 | `with_capacity` builds an empty leaf with the empty bounds: a valid tree with the given dimension and capacity and no entries |
| Nodes.New | src/owned_kdtree.rs:35-37 | `new` builds a valid empty tree of capacity 16 (2 to the power 4) |
| Nodes.Size | src/owned_kdtree.rs:57-59 | `size` of a valid tree is the number of its entries |
| Nodes.OversizedLeafRepeatsOnePoint | src/owned_kdtree.rs:277-332 | in a valid tree, a leaf holding more than `capacity` entries holds copies of a single point (a split that was abandoned) |
| Insertion.AddToBucket | src/owned_kdtree.rs:270-283 | the entry is appended and counted; the bounds are widened to hold it; the node stays a leaf with the entry appended while it holds at most `capacity` entries or its bounds have no positive extent, and becomes a stem otherwise; the result is valid |
| Insertion.Split | src/owned_kdtree.rs:318-352 | the node keeps its entries, `size` and bounds and stays valid. With no positive extent it stays the same leaf. Otherwise it becomes a stem on the chosen split dimension at the midpoint, with every left entry strictly below the split value and every right entry at or above it |
| Insertion.Deal | src/owned_kdtree.rs:339-349 | the `swap_remove` redistribution loop leaves two valid children that together hold exactly the entries, left strictly below the split value and right at or above it |
| Splitting.SwapRemoveFirst | src/owned_kdtree.rs:342-343 | `swap_remove(0)` shortens the vector by one and removes exactly its first element from the multiset |
| Splitting.SameSideSamePoint | src/owned_kdtree.rs:318-349 | when the earlier entries fit in bounds with no positive extent, all entries that fall on the same side of the new split value share one point, so a child left over capacity cannot split again forever |
| Splitting.HullAppend | src/owned_kdtree.rs:270-271 | for a leaf whose bounds were built by `extend` over its points, calling `extend` with one more point and appending it gives the bounds built over the longer sequence: the old bounds widened by the new point |
| Insertion.AddUnchecked | src/owned_kdtree.rs:255-268 | the result is valid, holds the old entries plus the new one, `size` grows by exactly one and the bounds become `ExtendBox`. At a leaf `add_to_bucket` applies. At a stem the split is kept and the entry goes left iff its coordinate is strictly below the split value, with the other child untouched. Along the whole path (`Inserted`) every node gains one in `size` and widens its bounds to hold the point, every stem leaves the child off the path untouched, and the leaf at the end is updated by `add_to_bucket` |
| Splitting.StemAdded | src/owned_kdtree.rs:260-267 | a stem that widened its bounds, counted the entry and routed it into a valid child is valid and holds the old entries plus the new one |
| Splitting.RoutedPartition | src/owned_kdtree.rs:262-267 | routing by the strict-less rule keeps every left entry below and every right entry at or above the split value |
| Splitting.WidenedInBox | src/owned_kdtree.rs:260-261 | after widening the bounds, every entry including the new one lies inside them |
| Insertion.Add | src/owned_kdtree.rs:247-253 | capacity 0 gives `ZeroCapacity`, checked before finiteness, and leaves the tree unchanged; a non-finite coordinate gives `NonFiniteCoordinate` and leaves it unchanged; otherwise Ok, the tree stays valid, gains exactly the new entry and its `size` grows by one. A root leaf stays the leaf with the entry appended while it holds at most `capacity` entries (or its bounds have no positive extent), and becomes a stem when it holds more; a root stem routes the entry by the split rule. Along the whole path from the root (`Inserted`) every node gains one in `size` and widens its bounds, and every child off the path is untouched |
| RemovalDefs.Without | src/owned_kdtree.rs:288-296 | removing every copy of an entry: the multiset loses all copies of it and nothing else, and the length drops by their number |
| Removal.Position | src/owned_kdtree.rs:289-290 | the search for a matching (point, value) entry: none exactly when there is no such entry; otherwise the first one |
| Removal.RemoveFromLeaf | src/owned_kdtree.rs:288-296 | the corrected leaf loop keeps exactly the entries other than (point, value), in order, and counts the copies it deleted |
| Removal.RemoveFrom | src/owned_kdtree.rs:285-316 | the node after `remove` is `Pruned(n, x)` and the count returned is the number of copies of the entry below the node |
| Removal.PrunedStem | src/owned_kdtree.rs:299-314 | at a stem the count is the right count plus the left count, and `size` drops by exactly their sum |
| Removal.PrunedValid | src/owned_kdtree.rs:285-316 | removal keeps the tree valid, deletes every copy of the entry and nothing else, lowers `size` by their number at every node, and leaves the bounds unchanged |
| Removal.Remove | src/owned_kdtree.rs:285-316 | a non-finite coordinate gives `NonFiniteCoordinate` and leaves the tree unchanged; otherwise the result is Ok with the number of copies of (point, value), every copy is gone, the tree stays valid, `size` drops by that number, and the bounds are unchanged. When there is no copy the result is `Ok(0)` and the tree is exactly as it was |
| Removal.PrunedAbsent | src/owned_kdtree.rs:285-316 | with no copy of the entry below a node, `remove` leaves that node, its `size` and its children exactly as they were |
| Removal.PointPositionFirst | src/owned_kdtree.rs:289 | `position` on points finds nothing exactly when no entry has the point, and otherwise finds the first entry that has it |
| Removal.AsWrittenStalls | src/owned_kdtree.rs:289-296 | the loop as written never finishes once any entry at the point holds a different value, however many rounds it runs |
| Removal.AsWrittenStallsOnOneEntry | src/owned_kdtree.rs:289-296 | a leaf holding `([0.0], 1)` with `remove([0.0], 2)` never finishes |
| Removal.AsWrittenAgrees | src/owned_kdtree.rs:289-296 | when every entry at the point holds the value, the loop as written finishes with the corrected result |
| SearchDefs.NearestIndex | src/owned_kdtree.rs:149 | the frontier element `pending.pop()` takes has a least key |
| SearchDefs.WorstIndex | src/owned_kdtree.rs:155 | the candidate `evaluated.peek()` shows has the greatest distance |
| SearchDefs.BestIndex | src/owned_kdtree.rs:446 | the candidate `next` hands out has the least distance |
| SearchDefs.Offer | src/owned_kdtree.rs:189-198 | at most `num` candidates are kept. An entry beyond `max_dist` is ignored. While fewer than `num` are held the entry is added. Once `num` are held it replaces the worst only if strictly nearer, so a tie keeps the existing candidate. The worst distance never grows |
| SearchLemmas.OfferAccounts | src/owned_kdtree.rs:189-198 | each leaf entry is either kept as a candidate or dropped, together with the candidate it displaced |
| SearchLemmas.OfferDiscards | src/owned_kdtree.rs:189-198 | under the caller's contract every entry dropped so far can be left out of the answer: it lies beyond `max_dist`, or `num` candidates no farther than it are held |
| SearchLemmas.CutoffBeyond | src/owned_kdtree.rs:151-158 | a bound beyond `evaluated_dist` (the smaller of `max_dist` and the worst candidate once `num` are held) marks every entry at least that far away as safe to leave out |
| SearchLemmas.BoxBound | src/owned_kdtree.rs:169-174 | under the caller's contract the bound of a subtree's box is a lower bound for the distance of its entries |
| SearchLemmas.PrunedBeyond | src/owned_kdtree.rs:175-180 | a sibling the descent does not push holds only entries that can be left out |
| SearchLemmas.DescendPush | src/owned_kdtree.rs:160-181 | one step down a stem that pushes its sibling keeps every entry accounted for, the frontier valid and its keys lower bounds |
| SearchLemmas.DescendPrune | src/owned_kdtree.rs:160-181 | one step down a stem that skips its sibling moves the sibling's entries to the discarded ones, each of them safe to leave out |
| SearchLemmas.Scan | src/owned_kdtree.rs:183-198 | admitting one leaf entry keeps the query invariant |
| Search.NearestStep | src/owned_kdtree.rs:138-199 | `nearest_step` keeps the query invariant (every entry accounted for, candidates with true distances within `max_dist` and at most `num`, frontier keys lower bounds, discarded entries safe to leave out) and shrinks the frontier. The new frontier is the old one without the popped element, followed by siblings each pushed with the bound of its box, that bound within `evaluated_dist` as computed before the descent. With `max_dist` infinite it never holds fewer candidates than before and drops nothing while fewer than `num` are held |
| Search.Descend | src/owned_kdtree.rs:160-181 | the descent loop ends at a valid leaf and keeps the query invariant. It only appends to the frontier: each sibling is pushed with the bound of its box, and only when that bound is within the cutoff. A sibling left out has its entries counted as discarded. With `max_dist` infinite and fewer than `num` candidates leaves nothing out |
| Search.PushWithin | src/owned_kdtree.rs:169-180 | pushing a sibling whose box bound is within the cutoff keeps the push rule: the old frontier is a prefix, and every element after it carries its box bound within the cutoff |
| Search.ScanLeaf | src/owned_kdtree.rs:183-198 | offering a leaf's entries keeps the query invariant; with `max_dist` infinite the candidates never get fewer and nothing is dropped while fewer than `num` are held |
| Search.OfferUnlimited | src/owned_kdtree.rs:189-193 | with `max_dist` infinite, offering an entry never shortens the candidates, and while fewer than `num` are held nothing is dropped |
| Search.NearestFull | src/owned_kdtree.rs:81-84 | if nothing was dropped while fewer than `k` candidates were held, the loop stops with exactly `k` of them, since an emptied frontier leaves every entry of the tree among the candidates |
| Search.NearestExit | src/owned_kdtree.rs:81-99 | when the `nearest` loop stops, the sorted candidates are its answer: exactly `k` long and, under the caller's contract, with no entry left out nearer than one kept |
| SearchLemmas.NearestDone | src/owned_kdtree.rs:81-84 | when the `nearest` loop stops, exactly `num` candidates are held and no entry outside them is nearer than the worst of them |
| SearchLemmas.WithinDone | src/owned_kdtree.rs:121 | when the `within` loop stops, the candidates are exactly the entries within the radius, each as often as the tree holds it |
| Search.Insert | src/owned_kdtree.rs:94-95 | inserting a candidate into an ascending sequence keeps it ascending and adds exactly that candidate |
| Search.SortAscending | src/owned_kdtree.rs:94-95 | `into_sorted_vec` returns the same candidates, ascending by distance |
| Search.SortedCandidates | src/owned_kdtree.rs:94-99 | sorting keeps the length and the true distances within `max_dist`, and nothing sorted exceeds the worst candidate |
| Search.NearestSorted | src/owned_kdtree.rs:94-99 | the sorted candidates at the end of `nearest` satisfy the k-nearest answer, and `take(num)` has nothing to cut |
| Search.WithinSorted | src/owned_kdtree.rs:131-135 | the sorted candidates at the end of `within` satisfy the radius answer |
| Search.Nearest | src/owned_kdtree.rs:61-100 | a non-finite point gives `NonFiniteCoordinate`. Otherwise, with `k = min(num, size)`, the answer is ascending, exactly `k` long, drawn from the tree and carries true distances (empty when `k` is 0), for every distance function. Under the caller's contract no entry left out is nearer than any entry in it |
| Search.Within | src/owned_kdtree.rs:102-136 | a non-finite point gives `NonFiniteCoordinate`; otherwise the answer is ascending, drawn from the tree, with true distances within the radius (empty for an empty tree); under the caller's contract it holds every entry of the tree within the radius, as often as the tree holds it, and nothing else |
| Iteration.IterStart | src/owned_kdtree.rs:210-215 | the iterator starts with the root under key 0 and no candidates; this satisfies its invariant |
| Iteration.IterPop | src/owned_kdtree.rs:418 | popping the least-key frontier element keeps every entry accounted for, and its subtree is valid |
| Iteration.IterDescend | src/owned_kdtree.rs:419-437 | pushing every sibling on the way down with the bound of its box keeps the invariant and the frontier keys lower bounds |
| Iteration.IterGather | src/owned_kdtree.rs:438-444 | `extend` adds every leaf entry as a candidate with its true distance |
| Iteration.IterAnswer | src/owned_kdtree.rs:414-416 | once the loop stops with candidates, the best one is no nearer than what was handed out before and no farther than anything not yet handed out |
| Iteration.IterHandout | src/owned_kdtree.rs:446 | handing out the best candidate moves its entry to the handed-out ones and keeps the invariant with its distance as the new lower bound |
| Iteration.IterExhausted | src/owned_kdtree.rs:414-446 | with nothing in progress, no candidate is left once everything has been handed out, and an empty frontier with no candidates means everything has been handed out |
| Iteration.Expand | src/owned_kdtree.rs:418-444 | one round of the loop in `next` keeps the iterator invariant and shrinks the frontier |
| Iteration.Pull | src/owned_kdtree.rs:411-447 | `next` on the iterator state: None exactly when every entry has been handed out. Otherwise it hands out an entry not handed out before, with its true distance. Under the caller's contract that distance is at least the previous one and at most the distance of every entry left |
| Iteration.NearestIter.constructor | src/owned_kdtree.rs:210-221 | the iterator starts valid over the tree's root, dimension and capacity, with the caller's point and functions, the root under key 0, nothing evaluated and nothing handed out |
| Iteration.NearestIter.Next | src/owned_kdtree.rs:411-447 | `next` updates the iterator's frontier and candidates in place. It returns None exactly when every entry has been handed out, and otherwise returns a new entry with its true distance. Under the caller's contract the distances come out in non-decreasing order, each no greater than the distance of any entry still to come |
| Iteration.IterNearest | src/owned_kdtree.rs:201-222 | a non-finite point gives `NonFiniteCoordinate`; otherwise a fresh valid iterator over the tree's root, dimension and capacity, holding the checked point and the caller's `distance` and bound, with the root under key 0, nothing evaluated, nothing handed out and 0 as the last distance |
| Rounding.RoundNearestEven | src/owned_kdtree.rs:336 | rounding a value in [1, 2) to a double moves it by at most half the spacing 2^-52 and stays within [1, 2] |
| Rounding.RoundedMidpoint | src/owned_kdtree.rs:336 | the split value computed in doubles lies within half a spacing of the bounds |
| Rounding.RoundedSplitRepeats | src/owned_kdtree.rs:318-349 | for entries at 1 and 1 + 2^-52, `split` picks dimension 0 but the rounded split value is the minimum, no entry goes left, and the right leaf receives the same entries in the same order with the same bounds |

## Left out

- Floating point. Coordinates are reals.
  - `is_finite` is modelled by `Coord.NonFinite` on the caller's points.
  - NaN comparisons are not modelled, nor the `is_nan` test on extents, which cannot fail for finite bounds.
  - Rounding is not modelled, except for the one case `Rounding` models (see "## Findings").
  - The initial `+inf`/`-inf` bounds are `EmptyBox`.
- `distance` and `distance_to_space_const` (in `util`) are function parameters of the queries. `src/util.rs` is not part of this model. What the tree needs of them is stated as `SearchDefs.Admissible`, a hypothesis of the answer facts, not a requirement. The model does not say what bound an empty box gets.
- `HeapElement` (in `heap_element`) is not part of this model.
  - The heaps are sequences.
  - Among equal keys the model picks the first element. The source's choice among ties is not modelled, so the order of equal-distance entries in answers is not pinned down.
  - The sign-flip trick of the heaps is not modelled.
- Answers carry the whole entry (point and value) with its distance, instead of a borrowed reference to the value.
- `usize` arithmetic is unbounded. The removal model proves that every `size -= removed` stays non-negative.
- Geometry.MidpointSeparates: holds for exact reals only. In doubles `min + (max - min) / 2` equals `min` for adjacent values, and is `+inf` when `max - min` overflows (for example -1e308 and 1e308). Every entry then goes to one child (lines 339-349).
- Insertion.Split: termination holds for exact reals only. When the rounded split value sends every entry to one side of a leaf over capacity, that child has the same bounds and splits the same way again, so the source's recursion does not end. `Rounding.RoundedSplitRepeats` shows this for adjacent values. The overflow case is not modelled.
- Search.Nearest: that no entry left out is nearer than one in the answer is stated only under the caller's contract `Admissible`. Without it the frontier keys need not be lower bounds, and the loop may stop before a nearer entry is reached. The length `min(num, size)`, the order and the true distances hold for every distance function.
- Search.Within: completeness (every entry within the radius is in the answer) is stated only under `Admissible`, for the same reason.
- Iteration.NearestIter.Next: the distance order is stated only under `Admissible`. Without it the entries are still each handed out once.
- The recursive calls of `remove` repeat `check_point` with `?`. The point was checked at the root, so they cannot fail and are not modelled.
- Removal.RemoveFrom: the leaf loop is the corrected one (see "## Findings"). The loop as written is modelled separately, as `Removal.LeafRemovalAsWritten`.
- `iter_nearest_mut` and `NearestIterMut::next` differ from `NearestIter` only in handing out mutable references. Borrowing and aliasing have no counterpart in this model.
- The `Error`/`Display` implementations, the serde derive, `Clone`/`Debug` and the test module are not modelled. The tests' assertions appear as properties: default capacity 16, sizes after `add`, splitting after `capacity + 1` entries, and the zero-capacity error.
- `is_leaf` and `belongs_in_left` are the datatype test `Leaf?` and the predicate `Nodes.BelongsInLeft`. For a node built by the tree, `points` and `bucket` are set exactly when `split_dimension`, `split_value`, `left` and `right` are unset.

## Findings

| source | as written | input that shows it | evidently intended | confidence | as-written member | corrected member |
|---|---|---|---|---|---|---|
| src/owned_kdtree.rs:289-296 | the leaf loop looks for the first entry whose point equals the argument and deletes it only if its value also matches; when the value differs nothing changes and the same index is found again, so the loop never ends | a leaf holding `([0.0], 1)`, then `remove([0.0], 2)` | delete every entry whose point and value both match, and return their number (0 here) | high; not executed | Removal.AsWrittenStallsOnOneEntry | Removal.RemoveFromLeaf |
| src/owned_kdtree.rs:336-349 | the split value `min + (max - min) / 2` is computed in doubles; for adjacent values it rounds to `min`, no entry is strictly below it, and every entry goes to the right leaf, which has the same entries and bounds and splits again in the same way, recursing without end | capacity 1, then `add([1.0], a)` and `add([1.0 + 2^-52], b)` | a split value strictly above the minimum and at most the maximum, so that each split makes progress | medium; not executed | Rounding.RoundedSplitRepeats | Geometry.MidpointSeparates |
