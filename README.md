# kiddo k-d tree, modelled in Dafny

This project models kiddo (the `kdtree-rs` crate): a bucketed point-region k-d tree
over K-dimensional points, each stored with a value.

- **Leaves and stems.** A leaf holds parallel `points`/`bucket` vectors of at most
  `capacity` entries. A stem holds two children, a split dimension and a split value.
- **Node fields.** Every node also records its `size` and its bounding box
  (`min_bounds`, `max_bounds`).
- **Add.** `add` descends by the split test `point[d] < split_value`, widens the box and
  counts the entry at every node on its way. A leaf that overflows splits: at the midpoint
  of its widest axis, into two fresh leaves.
- **Remove.** `remove` is meant to take out every entry whose point and value both match.
  Its leaf loop as written can loop forever (see "## Findings"). `Remove.RemoveUnchecked`
  and `Remove.Remove` use the corrected leaf loop.
- **Queries.** The queries are branch-and-bound searches over a frontier keyed by the
  negated distance from the query point to each pending box:
  - `nearest`;
  - `nearest_one`;
  - `within` and `within_unsorted`;
  - `best_n_within` and `best_n_within_into_iter`;
  - the resumable `iter_nearest` iterator.
- **Supporting code.** `distance_to_space` gives the point-to-box lower bound used for
  pruning. `squared_euclidean` and `dot_product` are the plain metrics. `custom_serde`
  flattens arrays of N coordinates on output and chunks them back on input.
- **The older copy.** `src/kdtree.rs` is an older copy of the tree. Only the ways it
  differs from `src/kiddo.rs` are modelled (module `Legacy`).

The model follows the source's own form:

- **The tree.** It is a datatype value (`Tree.KdTree`). The operations that update it in
  place (`add`, `split`, `remove`) are methods returning the new tree. The source's tree
  is single-owner, so no aliasing is lost.
- **Loops.** Every loop of the source is a `while` loop with its invariants:
  - the swap-remove loop of `split`;
  - the position/remove loop of `remove`;
  - the query loops and their leaf folds;
  - the descent of `populate_pending`;
  - the clamp of `distance_to_space`;
  - the serde visitors.
- **The iterator.** `NearestIter` is a class whose `next` updates its heaps.
- **Serde.** The serializer and the element source of serde are small classes.

Each loop is proved against a specification stated over the multiset of stored entries
(`Tree.Entries`). This covers:

- the k smallest distances;
- exactly the entries within the radius;
- the `max_qty` smallest values within the radius;
- every entry exactly once, in non-decreasing distance.

Other modelling choices:

- **Numbers.** Coordinates are exact reals. Query and insertion points are sequences of
  `Floats.Float = NegInf | Fin(r) | PosInf | NaN`, so that `check_point` can refuse
  non-finite coordinates. Box bounds are `Float`s, since an empty tree's box runs from
  +inf to -inf.
- **Metric.** The metric is fixed to squared Euclidean. The pruning lemma
  (`Util.BoxDistanceLowerBound`) is about that metric.
- **Heaps.** A `Vec` used as a stack pops its last element. A `BinaryHeap` pops an
  element of largest key. The key is the heap element's `distance`, or the value itself
  for the `T: Ord` heap of `best_n_within`, which is modelled with `int` values.

## Model

| member | source | states |
|---|---|---|
| Floats.Reals | src/kiddo.rs:918-924 | the finite coordinates of a checked point, one real per coordinate |
| Floats.LtIsStrictOrder | src/kiddo.rs:221-223 | the float comparison used by the heaps is irreflexive, asymmetric and transitive, and `<=` is `<` or equality away from NaN |
| Floats.NegReversesOrder | src/kiddo.rs:678 | negating the box distance (the frontier key) reverses `<` and `<=`, and negation is an involution |
| Distance.SquaredEuclidean | src/distance.rs:34-40 | the fold of squared coordinate differences is never negative |
| Distance.SquaredEuclideanIsSumSquares | src/distance.rs:34-40 | the left fold equals the sum over paired coordinates of (a[i] - b[i])^2, summed head first |
| Distance.SquaredEuclideanSymmetric | src/distance.rs:34-40 | the metric is symmetric |
| Distance.SquaredEuclideanSelfZero | src/distance.rs:34-40 | the distance of a point to itself is 0 |
| Distance.SquaredEuclideanExamples | src/distance.rs:19-21 | the doc examples: 0, 2 and 1 |
| Distance.DotProduct | src/distance.rs:48-55 | the subtracting fold of a vector against itself is never positive (its negated squared length) |
| Distance.DotProductIsNegatedInnerProduct | src/distance.rs:48-55 | the fold that starts at 0 and subtracts each product yields minus the inner product |
| Distance.DotProductSse | src/distance.rs:77-93 | lengths 3 and 4 take the intrinsic; every other length falls back to `dot_product`, the negated inner product |
| Util.DistanceToSpace | src/util.rs:3-23 | the clamp loop computes the metric from the point to its per-axis clamp into the box; with NaN-free bounds the result is +inf or a non-negative real |
| Util.ClampHasNoNaN | src/util.rs:12-21 | every slot of the NaN-initialised array is overwritten, so no NaN survives when the bounds have none |
| Util.ClampInBox | src/util.rs:13-21 | when every lower bound is at most its upper bound, the clamped point lies in the box |
| Util.InsideBoxDistanceZero | src/util.rs:13-22 | a point inside the box clamps to itself and lies at distance 0 |
| Util.BoxDistanceLowerBound | src/util.rs:3-23 | the box distance is finite and at most the distance to any point of the box: the bound the pruning relies on |
| Util.SquaredGapLowerBound | src/util.rs:14-20 | per axis, the clamped coordinate is no farther from the query than any coordinate within the bounds |
| Util.SquaredEuclideanExtFinite | src/util.rs:22 | on finite coordinates the extended-real metric is the real metric |
| Util.BoxDistanceExamplesOutside | src/util.rs:32-46 | the unit tests with the point outside the box: 2, 2, and 4 for the half-space |
| Util.BoxDistanceExamplesInside | src/util.rs:49-63 | the unit tests with the point inside: 0 for an infinite box and for a finite one |
| Stacks.MaxIndex | src/kiddo.rs:32-43 | the index of an element of largest key: what `BinaryHeap::peek` and `pop` reach |
| Stacks.Pop | src/kiddo.rs:18-43 | `stack_pop` takes one element out: the last one for a `Vec`, one of largest key for a `BinaryHeap`; the rest is kept |
| Stacks.RemoveIndex | src/kiddo.rs:37-43 | taking one element out shortens the heap by one and keeps every other element |
| Stacks.Push | src/kiddo.rs:23-25 | `stack_push` appends the element and keeps the rest |
| Stacks.PushPopLifo | src/kiddo.rs:18-29 | on a `Vec`, a pop right after a push returns the pushed element and the old stack |
| Stacks.PopMaxOutranksRest | src/kiddo.rs:32-43 | on a `BinaryHeap`, the popped element's key is at least every remaining key |
| Tree.Zip | src/kiddo.rs:551-557 | pairs the points with the bucket values index by index |
| Tree.CheckPoint | src/kiddo.rs:918-924 | Ok exactly when every coordinate is finite, else `NonFiniteCoordinate` |
| Tree.WithCapacity | src/kiddo.rs:111-126 | capacity 0 gives `ZeroCapacity`; otherwise an empty, valid, tight leaf of that capacity |
| Tree.New | src/kiddo.rs:95-97 | an empty valid leaf of capacity 16 |
| Tree.SameShapeCapacities | src/kiddo.rs:809-842 | two trees of the same shape have the same leaf capacities, so a removal, which keeps every node's kind and capacity, keeps the capacity of every leaf |
| Tree.Size | src/kiddo.rs:143-145 | in a valid tree, the stored count is the number of entries |
| Tree.IsLeaf | src/kiddo.rs:169-174 | true exactly on a leaf |
| Tree.Widen | src/kiddo.rs:905-916 | the widened box has the point's dimension |
| Tree.TightContains | src/kiddo.rs:905-916 | the box grown point by point from empty bounds is well-formed and contains every point |
| Tree.WidenContains | src/kiddo.rs:905-916 | widening keeps every point of the old box inside, puts the new point inside, and moves each bound only when the point lies beyond it |
| Tree.ValidEntriesInBox | src/kiddo.rs:48-74 | every stored point is K-dimensional and lies inside its node's box, whose bounds are then finite |
| Tree.BelongsInLeftSeparates | src/kiddo.rs:894-903 | in a valid stem the split test sends each stored point to the child that holds it |
| Tree.TightSnoc | src/kiddo.rs:905-916 | the box widened by each point in turn is the tight box of the points |
| Tree.TightAttained | src/kiddo.rs:864-866 | each bound of a tight box is attained by a stored point, so both sides of a midpoint cut receive an entry |
| Insert.Extend | src/kiddo.rs:905-916 | the in-place loop over the bounds computes the widened box |
| Insert.ChooseSplitAxis | src/kiddo.rs:853-863 | None exactly when no axis has positive extent; otherwise the first axis of largest positive extent (`AxisRule`) |
| Insert.SwapRemoveFirstMultiset | src/kiddo.rs:872-873 | `swap_remove(0)` keeps every element but the first |
| Insert.AddToBucket | src/kiddo.rs:782-802 | the result is valid, has one more entry, namely (p, v), and the widened box; it stays a leaf with the entry appended while within capacity, and splits past capacity unless its points coincide; a split is made as `split` states, and every leaf of the result has the bucket's capacity |
| Insert.AppendedLeaf | src/kiddo.rs:782-796 | appending to a leaf and widening its box keeps the node's shape and adds exactly the entry |
| Insert.SplitPrecondition | src/kiddo.rs:797-800 | a leaf handed to `split` holds at most one entry over capacity, or a pile of coinciding points plus one |
| Insert.OverfullLeafTight | src/kiddo.rs:853-863 | a leaf over capacity in a valid tree is a pile of one point whose box is that point |
| Insert.DegenerateBox | src/kiddo.rs:853-863 | a finite box with no axis of positive extent that contains a point is that point |
| Insert.Split | src/kiddo.rs:845-892 | a valid tree with the same entries, count and box; it stays the same leaf exactly when the box has no positive extent, else it becomes a stem split on the first axis of largest positive extent at `min + (max - min) / 2` of that axis (`SplitRule`); every leaf of the result has the capacity of the leaf split |
| Insert.Drain | src/kiddo.rs:868-880 | the swap-remove loop hands every entry to the child on its side of the cut: two valid children whose entries together are the leaf's |
| Insert.DrainStep | src/kiddo.rs:871-880 | one turn of the loop keeps the accounting and the children's side conditions and removes one entry |
| Insert.HandOut | src/kiddo.rs:874-879 | `add_to_bucket` on the child of the entry's side adds exactly that entry, and only the last hand-out can turn a child into a stem |
| Insert.HandOutMeasure | src/kiddo.rs:874-879 | the receiving child holds fewer entries than the leaf being split, so the mutual recursion of `add_to_bucket` and `split` ends |
| Insert.CoincidentSides | src/kiddo.rs:863-866 | in a pile of coinciding points plus one, the entries on each side of the cut share one point |
| Insert.AddUnchecked | src/kiddo.rs:754-780 | the result is valid, holds exactly one more entry (p, v), has the widened box and count + 1; a stem keeps its split; a leaf obeys the leaf/split rule, keeps its capacity while a leaf, and becomes a stem only by a split made as `split` states; when every leaf had one capacity, every leaf still has it |
| Insert.StemAdded | src/kiddo.rs:760-778 | a stem whose child on the point's side received the entry, widened and counted, has received the entry |
| Insert.StemSides | src/kiddo.rs:760-772 | after descending by `belongs_in_left`, each child still holds only points of its side |
| Insert.StemCount | src/kiddo.rs:773-778 | the stem's count rises by one, matching its entries |
| Insert.Add | src/kiddo.rs:749-752 | a non-finite point gives `NonFiniteCoordinate` and the tree unchanged; otherwise the entry is added as `add_unchecked` states; leaf capacities are kept as there |
| Remove.Position | src/kiddo.rs:814 | the index of the first match, None exactly when there is none |
| Remove.Without | src/kiddo.rs:814-821 | the sequence with every occurrence taken out, its multiset and its length |
| Remove.WithoutRemoveAt | src/kiddo.rs:816-819 | removing one occurrence leaves the same sequence without occurrences and one occurrence fewer |
| Remove.LeafRemove | src/kiddo.rs:814-821 | the corrected leaf loop leaves exactly the entries other than (p, v) and reports how many it removed |
| Remove.LeafRemoveStep | src/kiddo.rs:814-821 | one turn of the loop as written: None exactly when no point matches |
| Remove.LeafRemoveStalls | src/kiddo.rs:814-821 | when the first point match carries another value, the turn as written changes nothing and the loop goes on |
| Remove.LeafRemoveStallsExample | src/kdtree.rs:569-600 | a concrete leaf on which the turn as written changes nothing (the same loop in both copies) |
| Remove.LeafRemoveAsWritten | src/kiddo.rs:814-821 | the loop as written, on the leaves where every point match carries the value, removes exactly the matching entries |
| Remove.RemoveUnchecked | src/kiddo.rs:809-842 | corrected (leaf loop as in `Remove.LeafRemove`): the result is valid, has lost every entry equal to (p, v) and nothing else, reports that count, drops its size by it, and keeps at every node its box, its kind, a stem's split and a leaf's capacity (`SameShape`); when every leaf had one capacity, every leaf still has it |
| Remove.StemRemoved | src/kiddo.rs:823-838 | a stem whose children lost their matches loses the sum of the two counts |
| Remove.Remove | src/kiddo.rs:804-843 | corrected (leaf loop as in `Remove.LeafRemove`): a non-finite point gives `NonFiniteCoordinate` and the tree unchanged; otherwise the removal as above, with the same shape and capacities |
| Frontier.Descend | src/kiddo.rs:659-667 | the split-test descent ends in a leaf |
| Frontier.PendingPop | src/kiddo.rs:547 | popping the frontier moves one subtree out, keeping the accounting of entries and node counts |
| Frontier.PendingRemove | src/kiddo.rs:587 | taking any element out of the frontier moves exactly its subtree's entries and nodes out |
| Frontier.BoxKeyShape | src/kiddo.rs:677-679 | a frontier key is the negated box distance: -inf or a non-positive real |
| Frontier.PendingLowerBound | src/kiddo.rs:676-681 | the negated key of a pending node is a lower bound on the distance of each of its entries |
| Frontier.PendingOrdered | src/kiddo.rs:676-681 | frontier keys are never NaN, so the heap's max order is well defined |
| Frontier.FrontierLowerBound | src/kiddo.rs:221-223 | when every key is at most `top`, `-top` is a lower bound on every pending entry's distance |
| Frontier.PopulatePending | src/kiddo.rs:650-683 | the descent returns the leaf the split tests lead the query to, and the frontier only grows by pushes onto the old one; each sibling goes on the frontier with its negated box distance when that distance is within `max_dist`, else its entries all lie beyond `max_dist`; the entries are accounted for |
| Frontier.StemParts | src/kiddo.rs:659-667 | a stem's entries split into the candidate's and the next node's, and the descent from the next node reaches the same leaf |
| Frontier.PushCandidate | src/kiddo.rs:676-681 | pushing a sibling keyed by its negated box distance keeps the frontier well-formed and adds its entries |
| Frontier.PruneCandidate | src/kiddo.rs:676 | a sibling whose box lies beyond `max_dist` holds no entry within `max_dist` |
| Nearest.MaxD | src/kiddo.rs:604 | the largest distance of the evaluated heap: its top |
| Nearest.Offer | src/kiddo.rs:599-609 | folding one candidate keeps at most `num` candidates within `max_dist`, and anything left out lies beyond `max_dist` or is no closer than the top of a full heap |
| Nearest.OfferReplace | src/kiddo.rs:604-607 | replacing the top by a closer candidate keeps the evaluated heap correct |
| Nearest.EvaluateLeaf | src/kiddo.rs:590-611 | the leaf fold adds every entry of the leaf to those accounted for, keeping the heap correct |
| Nearest.NearestStep | src/kiddo.rs:576-614 | one step keeps the search invariant and consumes frontier nodes |
| Nearest.SearchStart | src/kiddo.rs:213-219 | the frontier of the root alone satisfies the search invariant |
| Nearest.PeekIsMax | src/kiddo.rs:221-223 | `peek` of the frontier heap has a key at least every pending key |
| Nearest.PendingBeyond | src/kiddo.rs:221-223 | when the nearest pending box lies beyond the bound, so does every pending entry |
| Nearest.NearestExit | src/kiddo.rs:221-233 | when the loop of `nearest` stops, the heap holds `num` entries and no other entry is closer than its top |
| Nearest.NearestFull | src/kiddo.rs:221-233 | when the frontier runs out, the heap is full |
| Nearest.SortByDistance | src/kiddo.rs:235-236 | `into_sorted_vec`: ascending by distance, a permutation |
| Nearest.InsertByDistance | src/kiddo.rs:235-236 | inserting into an ascending sequence keeps it ascending and adds exactly the element |
| Nearest.ToPairs | src/kiddo.rs:237-240 | each heap element becomes its (distance, value) pair, in order |
| Nearest.NearestResult | src/kiddo.rs:235-240 | the sorted heap gives the `num` nearest entries with their exact distances, ascending, none left out being closer than any returned |
| Nearest.Nearest | src/kiddo.rs:197-241 | a non-finite point gives an error; otherwise min(num, size) entries, ascending, each paired with its distance, and no unreturned entry closer than a returned one |
| Nearest.WithinExit | src/kiddo.rs:317-328 | when the loop of `within_impl` stops, the heap holds exactly the entries within the radius, each with its distance |
| Nearest.WithinTaken | src/kiddo.rs:317-328 | once the nearest pending box lies beyond the radius, every entry within the radius is in the evaluated heap as often as it is stored |
| Nearest.WithinImpl | src/kiddo.rs:298-329 | a non-finite point gives an error; otherwise the heap of exactly the entries within the radius |
| Nearest.EmptyTreeWithin | src/kiddo.rs:360-362 | an empty tree's answer `[]` is exactly the entries within the radius |
| Nearest.Within | src/kiddo.rs:351-371 | an empty tree answers `[]` whatever the point; otherwise a non-finite point gives an error, else exactly the entries within the radius, ascending by distance |
| Nearest.WithinUnsorted | src/kiddo.rs:393-408 | as `within`, in the heap's own order |
| NearestOne.EvaluateLeafOne | src/kiddo.rs:630-645 | the leaf fold keeps the nearest entry seen so far, strictly improving only |
| NearestOne.NearestOneStep | src/kiddo.rs:616-648 | one step of the loop as written keeps its invariant and consumes frontier nodes |
| NearestOne.NearestOneAsWritten | src/kiddo.rs:266-296 | the code as written: `Empty` on an empty tree, an error on a non-finite point, else a stored entry with its distance that is nearest among the first leaf the descent reaches |
| NearestOne.AsWrittenEnd | src/kiddo.rs:285-295 | the loop as written ends with an entry found, so `unwrap` does not panic |
| NearestOne.NearestOneAsWrittenMisses | src/kiddo.rs:285 | on a concrete tree the answer as written is (16, value 2) while a stored entry lies at distance 4 |
| NearestOne.NearestOneVisit | src/kiddo.rs:616-648 | one step of the corrected loop keeps the best entry over all entries visited or pruned |
| NearestOne.OneSkipped | src/kiddo.rs:626-628 | skipping a node whose box lies no nearer than the best keeps the best over everything accounted for |
| NearestOne.NearestOne | src/kiddo.rs:266-296 | corrected: `Empty` on an empty tree, an error on a non-finite point, else a stored entry with its distance that is nearest in the whole tree |
| BestN.MaxV | src/kiddo.rs:564-567 | the top of the value heap: the largest kept value |
| BestN.ZeroQtyNothingInRange | src/kiddo.rs:561-564 | with `max_qty` 0 and no panic, nothing seen lay within the radius |
| BestN.OfferValue | src/kiddo.rs:559-570 | folding one entry panics exactly when it lies within the radius and `max_qty` is 0; otherwise at most `max_qty` values within the radius are kept, and any entry left out is beyond the radius or no smaller than the top of a full heap |
| BestN.EvaluateLeafBest | src/kiddo.rs:550-573 | the leaf fold panics exactly when `max_qty` is 0 and a leaf entry lies within the radius; otherwise it accounts for the whole leaf |
| BestN.BestNStep | src/kiddo.rs:534-574 | one step pops the last pushed node, keeps the invariant or panics only as above, and consumes frontier nodes |
| BestN.BestEnd | src/kiddo.rs:519-531 | once the frontier is empty the kept values are the `max_qty` smallest of the entries within the radius, or all of them |
| BestN.BestNWithinIntoIter | src/kiddo.rs:493-532 | no point check and no empty-tree test: panics exactly when `max_qty` is 0 and an entry lies within the radius; otherwise the smallest values within the radius |
| BestN.BestNWithinAsWritten | src/kiddo.rs:431-469 | the code as written: `[]` on an empty tree, an error on a non-finite point, a panic exactly when `max_qty` is 0 and an entry lies within the radius, else the smallest values |
| BestN.BestNWithinAsWrittenPanics | src/kiddo.rs:564 | on a concrete tree with one entry within the radius, `max_qty` 0 panics |
| BestN.BestNWithin | src/kiddo.rs:431-469 | corrected: `max_qty` 0 answers `[]`; otherwise as written |
| NearestIterator.EvPeek | src/kiddo.rs:954 | `peek` of the evaluated heap: +inf when empty, else the smallest distance held |
| NearestIterator.LeafCandidates | src/kiddo.rs:983-987 | a leaf's entries with their distances, in order |
| NearestIterator.NearestCandidate | src/kiddo.rs:953-956 | when the loop stops, the nearest evaluated candidate is no farther than any entry still pending or evaluated |
| NearestIterator.NothingLeft | src/kiddo.rs:953-956 | with nothing evaluated the loop stops only when the frontier is empty too |
| NearestIterator.Expand | src/kiddo.rs:957-990 | one turn pops the nearest box, pushes every sibling on the way down and adds the leaf's candidates, moving entries from frontier to heap only |
| NearestIterator.PopNearest | src/kiddo.rs:992 | `pop` of the evaluated heap returns a nearest candidate and keeps the rest |
| NearestIterator.ExpandAll | src/kiddo.rs:953-991 | the loop of `next` ends with the nearest candidate no farther than the nearest pending box, entries preserved |
| NearestIterator.NextStep | src/kiddo.rs:948-993 | `next` on the heaps: None exactly when no entry remains; otherwise it yields a nearest remaining entry with its distance, which then leaves the remaining entries |
| NearestIterator.RemainingIsFrontier | src/kiddo.rs:936-937 | the entries not yet yielded are exactly those under the frontier and in the evaluated heap |
| NearestIterator.YieldedKeepsOrder | src/kiddo.rs:948-993 | appending a nearest remaining entry keeps the yielded entries in non-decreasing distance |
| NearestIterator.NearestIter.constructor | src/kiddo.rs:716-729 | a fresh iterator over the tree has yielded nothing and has every entry remaining |
| NearestIterator.NearestIter.Next | src/kiddo.rs:948-993 | `next` on the iterator's fields: None exactly when nothing remains; else a nearest remaining entry with its distance, yielded once, in non-decreasing order |
| NearestIterator.IterNearest | src/kiddo.rs:706-730 | a non-finite point gives an error; otherwise an iterator over every entry of the tree |
| Serde.ArrayDecode | src/custom_serde.rs:34-50 | the first N elements in order, or `invalid_length(N)` exactly when fewer than N arrive |
| Serde.ArrayRoundTrip | src/custom_serde.rs:10-50 | decoding the serialised elements gives back the array |
| Serde.ChunksOfFlatten | src/custom_serde.rs:70-127 | chunking the flattened vector of arrays gives back the vector |
| Serde.FlattenOfChunks | src/custom_serde.rs:97-127 | a successful decode flattens back to its input, every chunk of length N |
| Serde.ChunksFailWhenRagged | src/custom_serde.rs:108-127 | for N at least 1, `invalid_length(N)` exactly when the count is not a multiple of N; an empty input gives an empty vector |
| Serde.ChunksOfZero | src/custom_serde.rs:109-122 | for N = 0, a panic exactly when some element arrives |
| Serde.Sink.constructor | src/custom_serde.rs:10-13 | a fresh serializer has announced nothing, written nothing and is not ended |
| Serde.Sink.Announce | src/custom_serde.rs:14 | announcing the tuple or sequence length records it |
| Serde.Sink.Element | src/custom_serde.rs:16 | each element is appended to the output |
| Serde.Sink.End | src/custom_serde.rs:18 | `end` closes the output and changes nothing else |
| Serde.Source.constructor | src/custom_serde.rs:34-38 | the element source holds the given input |
| Serde.Source.NextElement | src/custom_serde.rs:40-44 | `next_element` yields the next element, or None at the end |
| Serde.SerializeArray | src/custom_serde.rs:10-19 | a tuple of length N holding the elements in index order, then ended |
| Serde.VisitArray | src/custom_serde.rs:34-50 | the visitor reads as `ArrayDecode` of the input states |
| Serde.SerializeVecArrays | src/custom_serde.rs:70-82 | a sequence of `len * N` elements holding each array in turn, then ended |
| Serde.CompleteArray | src/custom_serde.rs:111-118 | completing one array from its first element takes the next N - 1 elements, or fails when they run out |
| Serde.VisitVecArrays | src/custom_serde.rs:97-127 | with a size hint and N = 0 it panics dividing by zero; otherwise it reads as `Chunks` of the input |
| Legacy.New | src/kdtree.rs:45-64 | `new` returns `Ok` of an empty valid leaf of capacity 16 |
| Legacy.DefaultCapacityLeaf | src/kdtree.rs:791-809 | through successful adds, a new tree stays a leaf of capacity 16 for 16 entries, and the 17th makes it a stem unless the points coincide |
| Legacy.Within | src/kdtree.rs:164-198 | the point is checked first, so a non-finite point is refused even on an empty tree; else exactly the entries within the radius, ascending |
| Legacy.WithinUnsorted | src/kdtree.rs:200-234 | as `within` of this copy, in the heap's own order |
| Legacy.StepHeapWithinSize | src/kdtree.rs:324-325 | the debug assertion of `best_n_within_step` holds: the value heap never outgrows the tree |

## Left out

- The metric is fixed to squared Euclidean. The queries take an arbitrary `distance`
  closure, but the pruning is sound only for metrics bounded below by the box distance.
- IEEE-754 arithmetic is not modelled. Coordinates and distances are exact reals, so
  rounding and overflow are out of scope, including the rounding of the midpoint
  `min + (max - min) / 2`. NaN and the infinities appear only in query points and in box
  bounds.
- The `HeapElement` type is not part of this model. It is taken to order by `distance`,
  and to compare with a bare scalar by that distance.
- Ties between equal keys are not modelled. A `BinaryHeap` pop is modelled as removing
  some element of largest key, so a query that returns one of several equidistant entries
  is specified up to that choice.
- The `T: Ord` values of `best_n_within` are modelled as `int`.
- `with_capacity` preallocation (`Vec::with_capacity`) is not modelled; it only reserves
  memory.
- The `u8` cast of the split dimension is not modelled. The dimension is a `nat` below K.
- The `Error` and `Display` impls are not modelled. Nor are the derived
  `Clone`/`Debug`/serde impls of the tree, apart from the custom array codecs.
- The serde `deserialize` wrappers are not modelled. They only pass the visitor to the
  deserializer (src/custom_serde.rs:52-58, 131-137), and the deserializer's own errors are
  not modelled.
- The SIMD paths of `distance.rs` (`dot_sse`, `dot_sse_aligned`, `dot_product_sse_aligned`
  and the length-3/4 branches of `dot_product_sse`) are unsafe intrinsics.
  `Distance.DotProductSse` models only which branch runs and the fallback.
- Distance.SquaredEuclidean, Distance.DotProduct: `requires |a| == |b|` stands in for the
  `debug_assert_eq!` on the lengths. A debug build panics on unequal lengths. In a release
  build, `zip` stops at the shorter slice. Neither unequal-length behaviour is modelled.
- Serde.VisitVecArrays: the size hint only reserves capacity. Its division by N is
  modelled, but the reserved amount is not.
- `src/stack.rs` is not part of this model. It duplicates the `Stack` shim of
  `src/kiddo.rs`.
- Apart from the deltas listed in the table, `src/kdtree.rs` shares the model of
  `src/kiddo.rs`. Its `add`, `split`, `remove`, `nearest`, `nearest_one`, `best_n_within`
  and `NearestIter::next` are the same code, with the descent inlined in each step
  function.
- Remove.RemoveUnchecked, Remove.Remove: these use the corrected leaf loop. Where the source's
  loop would run forever (a point match with another value), they return a result.
- BestN.BestNWithinIntoIter: its query is a point of reals, so non-finite query
  coordinates, which this entry point does not check, are outside the model.
- NearestOne.NearestOneAsWritten: for the loop as written, the model proves only
  nearness within the first leaf the descent reaches, since that is all the code
  ensures.

## Findings

| source | as written | input that shows it | evidently intended | confidence | as-written member | corrected member |
|---|---|---|---|---|---|---|
| src/kiddo.rs:285 (also src/kdtree.rs:125-162) | the loop guard compares `pending[0].distance`, a negated box distance (never positive), with the non-negative `best_dist`, so the loop stops once the first leaf the descent reaches has given an entry | a one-dimensional tree of capacity 2 holding points 0, 4 (left leaf) and 10 (right leaf), split at 5; query 6 returns (16, value of 10) although 4 lies at distance 4 | the nearest entry of the whole tree, as the doc comment at src/kiddo.rs:243-245 claims | high; not executed | NearestOne.NearestOneAsWrittenMisses | NearestOne.NearestOne |
| src/kiddo.rs:814-821 (also src/kdtree.rs:569-600) | the leaf loop of `remove` looks up the first entry whose point matches and removes it only when its value matches too; otherwise nothing changes and the same lookup repeats forever | a leaf holding the point [1] with value 7; removing ([1], 8) | remove every entry whose point and value both match, skipping the others | high; not executed | Remove.LeafRemoveStallsExample | Remove.LeafRemove |
| src/kiddo.rs:561-564 | with `max_qty` 0 the value heap stays empty, and the first entry within the radius reaches `peek_mut().unwrap()` on the empty heap and panics | the tree above, query 6, radius 100, `max_qty` 0 | an empty answer when no value may be kept | high; not executed | BestN.BestNWithinAsWrittenPanics | BestN.BestNWithin |
