/** The search frontier shared by every query of src/kiddo.rs: the `pending` container of
  * subtrees keyed by their negated distance to the query point, and `populate_pending`,
  * the descent that pushes the sibling of each stem it passes. */
module Frontier {
  import opened Floats
  import opened Distance
  import opened Util
  import opened Tree
  import opened Stacks

  /** A `HeapElement` over a subtree: its key and the subtree. */
  datatype Pending<T> = Pending(distance: Float, node: KdTree<T>)

  function PendingKey<T>(x: Pending<T>): Float {
    x.distance
  }

  /** The distance from the query point to a stored point. The length test only makes the
    * function total: every query is K-dimensional, and so is every stored point of a valid
    * tree (`Tree.ValidEntriesInBox`), so the `0.0` branch is never taken. */
  function Dist(q: seq<real>, p: seq<real>): real {
    if |q| == |p| then SquaredEuclidean(q, p) else 0.0
  }

  /** `distance_to_space` from the query to a subtree's box. */
  function BoxDist<T>(q: seq<real>, n: KdTree<T>): Float {
    if |q| == |n.minBounds| == |n.maxBounds| then BoxDistance(q, n.minBounds, n.maxBounds) else NaN
  }

  /** The key `populate_pending` gives a subtree: its negated distance to the query. */
  function BoxKey<T>(q: seq<real>, n: KdTree<T>): Float {
    Neg(BoxDist(q, n))
  }

  /** Every pending subtree is valid and keyed by its negated box distance, or by 0 as the
    * root is when a query starts. */
  predicate PendingOK<T(==)>(ps: seq<Pending<T>>, q: seq<real>, k: nat) {
    forall x | x in ps :: ItemOK(x, q, k)
  }

  predicate ItemOK<T(==)>(x: Pending<T>, q: seq<real>, k: nat) {
    Valid(x.node, k) && (x.distance == BoxKey(q, x.node) || x.distance == Fin(0.0))
  }

  /** The entries beneath the pending subtrees. */
  function PendingEntries<T(==)>(ps: seq<Pending<T>>): multiset<Entry<T>> {
    if |ps| == 0 then multiset{} else PendingEntries(ps[..|ps| - 1]) + Entries(ps[|ps| - 1].node)
  }

  function NodeCount<T>(t: KdTree<T>): (n: nat)
    ensures n >= 1
  {
    match t.content
    case Leaf(_, _, _) => 1
    case Stem(l, r, _, _) => 1 + NodeCount(l) + NodeCount(r)
  }

  /** The number of nodes beneath the pending subtrees: what every query loop consumes. */
  function NodeSum<T>(ps: seq<Pending<T>>): nat {
    if |ps| == 0 then 0 else NodeSum(ps[..|ps| - 1]) + NodeCount(ps[|ps| - 1].node)
  }

  /** The leaf the split tests lead the query point to. */
  function Descend<T>(t: KdTree<T>, q: seq<real>): (leaf: KdTree<T>)
    ensures leaf.content.Leaf?
  {
    match t.content
    case Leaf(_, _, _) => t
    case Stem(l, r, sv, sd) =>
      if sd < |q| && q[sd] < sv then Descend(l, q) else Descend(r, q)
  }

  lemma PendingPush<T>(ps: seq<Pending<T>>, x: Pending<T>)
    ensures PendingEntries(Push(ps, x)) == PendingEntries(ps) + Entries(x.node)
    ensures NodeSum(Push(ps, x)) == NodeSum(ps) + NodeCount(x.node)
  {
    assert Push(ps, x)[..|ps|] == ps;
  }

  lemma PendingRemove<T>(ps: seq<Pending<T>>, i: nat)
    requires i < |ps|
    ensures PendingEntries(ps) == PendingEntries(RemoveIndex(ps, i)) + Entries(ps[i].node)
    ensures NodeSum(ps) == NodeSum(RemoveIndex(ps, i)) + NodeCount(ps[i].node)
  {
    PendingRemoveEntries(ps, i);
    PendingRemoveCount(ps, i);
  }

  lemma {:induction false} PendingRemoveEntries<T>(ps: seq<Pending<T>>, i: nat)
    requires i < |ps|
    ensures PendingEntries(ps) == PendingEntries(RemoveIndex(ps, i)) + Entries(ps[i].node)
    decreases |ps|
  {
    var n := |ps| - 1;
    if i < n {
      assert RemoveIndex(ps, i)[..n - 1] == RemoveIndex(ps[..n], i);
      assert RemoveIndex(ps, i)[n - 1] == ps[n];
      PendingRemoveEntries(ps[..n], i);
    } else {
      assert RemoveIndex(ps, i) == ps[..n];
    }
  }

  lemma {:induction false} PendingRemoveCount<T>(ps: seq<Pending<T>>, i: nat)
    requires i < |ps|
    ensures NodeSum(ps) == NodeSum(RemoveIndex(ps, i)) + NodeCount(ps[i].node)
    decreases |ps|
  {
    var n := |ps| - 1;
    if i < n {
      assert RemoveIndex(ps, i)[..n - 1] == RemoveIndex(ps[..n], i);
      assert RemoveIndex(ps, i)[n - 1] == ps[n];
      PendingRemoveCount(ps[..n], i);
    } else {
      assert RemoveIndex(ps, i) == ps[..n];
    }
  }

  /** Popping from the frontier, as a `Vec` or as a `BinaryHeap`, moves one subtree out. */
  lemma PendingPop<T>(ps: seq<Pending<T>>, d: Discipline, q: seq<real>, k: nat)
    requires |ps| > 0 && Ordered(ps, PendingKey)
    requires PendingOK(ps, q, k)
    ensures PendingOK(Pop(ps, d, PendingKey).1, q, k)
    ensures PendingOK([Pop(ps, d, PendingKey).0], q, k)
    ensures PendingEntries(ps) == PendingEntries(Pop(ps, d, PendingKey).1) + Entries(Pop(ps, d, PendingKey).0.node)
    ensures NodeSum(ps) == NodeSum(Pop(ps, d, PendingKey).1) + NodeCount(Pop(ps, d, PendingKey).0.node)
  {
    var r := Pop(ps, d, PendingKey);
    match d
    case Lifo =>
      PendingRemove(ps, |ps| - 1);
      assert RemoveIndex(ps, |ps| - 1) == r.1;
    case MaxFirst =>
      var m := MaxIndex(ps, PendingKey);
      PendingRemove(ps, m);
  }

  /** The box distance of a valid subtree is 0 or more, or +inf; never NaN. */
  lemma BoxKeyShape<T>(q: seq<real>, n: KdTree<T>, k: nat)
    requires Valid(n, k) && |q| == k
    ensures BoxKey(q, n) == NegInf || (BoxKey(q, n).Fin? && BoxKey(q, n).r <= 0.0)
  {
    assert NoNaN(n.minBounds) && NoNaN(n.maxBounds);
    ClampHasNoNaN(q, n.minBounds, n.maxBounds);
  }

  /** Pruning soundness for the frontier: the negated key of a pending subtree never
    * exceeds the distance from the query to any entry beneath it. */
  lemma PendingLowerBound<T>(x: Pending<T>, q: seq<real>, k: nat, e: Entry<T>)
    requires ItemOK(x, q, k) && |q| == k && e in Entries(x.node)
    ensures !x.distance.NaN?
    ensures Le(Neg(x.distance), Fin(Dist(q, e.0)))
  {
    var n := x.node;
    ValidEntriesInBox(n, k, e);
    BoxDistanceLowerBound(q, n.minBounds, n.maxBounds, e.0);
    NegReversesOrder(BoxDistance(q, n.minBounds, n.maxBounds), Fin(0.0));
  }

  /** Keys of a valid frontier are never NaN, so a heap can order them. */
  lemma PendingOrdered<T>(ps: seq<Pending<T>>, q: seq<real>, k: nat)
    requires PendingOK(ps, q, k) && |q| == k
    ensures Ordered(ps, PendingKey)
  {
    forall i | 0 <= i < |ps|
      ensures !PendingKey(ps[i]).NaN?
    {
      assert ItemOK(ps[i], q, k);
      if ps[i].distance != Fin(0.0) {
        BoxKeyShape(q, ps[i].node, k);
      }
    }
  }

  /** Every entry beneath the frontier lies at least as far as the negated greatest key. */
  lemma {:induction false} FrontierLowerBound<T>(ps: seq<Pending<T>>, q: seq<real>, k: nat, top: Float, e: Entry<T>)
    requires PendingOK(ps, q, k) && |q| == k && !top.NaN?
    requires forall x | x in ps :: Le(x.distance, top)
    requires e in PendingEntries(ps)
    ensures Le(Neg(top), Fin(Dist(q, e.0)))
    decreases |ps|
  {
    var n := |ps| - 1;
    if e in Entries(ps[n].node) {
      assert ps[n] in ps;
      PendingLowerBound(ps[n], q, k, e);
      NegReversesOrder(ps[n].distance, top);
      LtIsStrictOrder(Neg(top), Neg(ps[n].distance), Fin(Dist(q, e.0)));
    } else {
      assert forall x | x in ps[..n] :: x in ps;
      FrontierLowerBound(ps[..n], q, k, top, e);
    }
  }

  /** The outcome of `populate_pending` from subtree `curr` onto frontier `pending`, with
    * pruning bound `maxDist`: it ends at the leaf the split tests lead to; the siblings
    * it passed are pushed in order, except those whose box lies beyond `maxDist`, whose
    * entries are `pruned` and all lie beyond `maxDist`; nothing is lost, and the frontier
    * holds fewer nodes than before plus `curr`. */
  predicate Populated<T(==)>(q: seq<real>, maxDist: Float, k: nat, pending: seq<Pending<T>>, curr: KdTree<T>,
                              pending': seq<Pending<T>>, leaf: KdTree<T>, pruned: multiset<Entry<T>>) {
    Valid(leaf, k) && leaf == Descend(curr, q) &&
    PendingOK(pending', q, k) &&
    PendingEntries(pending') + Entries(leaf) + pruned == PendingEntries(pending) + Entries(curr) &&
    (forall e | e in pruned :: !Le(Fin(Dist(q, e.0)), maxDist)) &&
    NodeSum(pending') + 1 <= NodeSum(pending) + NodeCount(curr) &&
    (maxDist == PosInf ==> pruned == multiset{})
  }

  /** `populate_pending`: while the current node is a stem, step into the child the
    * split test picks and push the other child, keyed by its negated box distance, when
    * that distance is within `maxDist`. */
  method PopulatePending<T(==)>(q: seq<real>, maxDist: Float, pending: seq<Pending<T>>, curr: KdTree<T>, ghost k: nat)
      returns (pending': seq<Pending<T>>, leaf: KdTree<T>, ghost pruned: multiset<Entry<T>>)
    requires |q| == k && Valid(curr, k) && PendingOK(pending, q, k)
    ensures leaf == Descend(curr, q)
    ensures |pending| <= |pending'| && pending'[..|pending|] == pending
    ensures Populated(q, maxDist, k, pending, curr, pending', leaf, pruned)
  {
    pending', leaf, pruned := pending, curr, multiset{};
    ghost var pushed: seq<Pending<T>> := [];
    while leaf.content.Stem?
      invariant pending' == pending + pushed
      invariant Valid(leaf, k) && Descend(leaf, q) == Descend(curr, q)
      invariant PendingOK(pending', q, k)
      invariant PendingEntries(pending') + Entries(leaf) + pruned == PendingEntries(pending) + Entries(curr)
      invariant forall e | e in pruned :: !Le(Fin(Dist(q, e.0)), maxDist)
      invariant NodeSum(pending') + NodeCount(leaf) <= NodeSum(pending) + NodeCount(curr)
      invariant maxDist == PosInf ==> pruned == multiset{}
      decreases leaf
    {
      var candidate;
      ghost var stem := leaf;
      if BelongsInLeft(leaf, q) {
        candidate := leaf.content.right;
        leaf := leaf.content.left;
      } else {
        candidate := leaf.content.left;
        leaf := leaf.content.right;
      }
      StemParts(q, k, stem, candidate, leaf);
      var d := DistanceToSpace(q, candidate.minBounds, candidate.maxBounds);
      ghost var pending0, pruned0 := pending', pruned;
      if Le(d, maxDist) {
        PushCandidate(q, k, candidate, d, pending');
        PushAppend(pending, pushed, Pending(Neg(d), candidate));
        pending' := Push(pending', Pending(Neg(d), candidate));
        pushed := pushed + [Pending(Neg(d), candidate)];
      } else {
        PruneCandidate(q, k, candidate, d, maxDist);
        pruned := pruned + Entries(candidate);
      }
      Rebalance(PendingEntries(pending0), PendingEntries(pending'), Entries(stem), Entries(candidate),
                Entries(leaf), pruned0, pruned);
    }
    assert pending'[..|pending|] == pending;
  }

  /** Pushing onto a frontier that extends `a` by `b` extends `a` by `b` and the node. */
  lemma PushAppend<X>(a: seq<X>, b: seq<X>, x: X)
    ensures Push(a + b, x) == a + (b + [x])
  {
    assert (a + b) + [x] == a + (b + [x]);
  }

  /** A stem splits into the child the split test picks and its sibling. */
  lemma StemParts<T>(q: seq<real>, k: nat, stem: KdTree<T>, candidate: KdTree<T>, next: KdTree<T>)
    requires |q| == k && Valid(stem, k) && stem.content.Stem?
    requires BelongsInLeft(stem, q) ==> candidate == stem.content.right && next == stem.content.left
    requires !BelongsInLeft(stem, q) ==> candidate == stem.content.left && next == stem.content.right
    ensures Valid(next, k) && Valid(candidate, k) && Descend(next, q) == Descend(stem, q)
    ensures Entries(stem) == Entries(candidate) + Entries(next)
    ensures NodeCount(stem) == 1 + NodeCount(candidate) + NodeCount(next)
  {
    assert Entries(stem) == Entries(stem.content.left) + Entries(stem.content.right);
  }

  /** Pushing a sibling keyed by its negated box distance keeps the frontier valid. */
  lemma PushCandidate<T>(q: seq<real>, k: nat, candidate: KdTree<T>, d: Float, pending: seq<Pending<T>>)
    requires |q| == k && Valid(candidate, k) && d == BoxDistance(q, candidate.minBounds, candidate.maxBounds)
    requires PendingOK(pending, q, k)
    ensures PendingOK(Push(pending, Pending(Neg(d), candidate)), q, k)
    ensures PendingEntries(Push(pending, Pending(Neg(d), candidate))) == PendingEntries(pending) + Entries(candidate)
    ensures NodeSum(Push(pending, Pending(Neg(d), candidate))) == NodeSum(pending) + NodeCount(candidate)
  {
    PendingPush(pending, Pending(Neg(d), candidate));
    assert ItemOK(Pending(Neg(d), candidate), q, k);
  }

  /** A sibling whose box lies beyond `maxDist` holds only entries beyond it; with no
    * bound, no sibling is left out. */
  lemma PruneCandidate<T>(q: seq<real>, k: nat, candidate: KdTree<T>, d: Float, maxDist: Float)
    requires |q| == k && Valid(candidate, k) && d == BoxDistance(q, candidate.minBounds, candidate.maxBounds)
    requires !Le(d, maxDist)
    ensures forall e | e in Entries(candidate) :: !Le(Fin(Dist(q, e.0)), maxDist)
    ensures maxDist != PosInf
  {
    forall e | e in Entries(candidate)
      ensures !Le(Fin(Dist(q, e.0)), maxDist)
    {
      ValidEntriesInBox(candidate, k, e);
      BoxDistanceLowerBound(q, candidate.minBounds, candidate.maxBounds, e.0);
      LtIsStrictOrder(d, Fin(Dist(q, e.0)), maxDist);
    }
    BoxKeyShape(q, candidate, k);
  }

  /** Moving a sibling's entries to the frontier or to the pruned ones keeps the total. */
  lemma Rebalance<X>(pe: multiset<X>, pe': multiset<X>, stem: multiset<X>, cand: multiset<X>, next: multiset<X>,
                     pr: multiset<X>, pr': multiset<X>)
    requires stem == cand + next
    requires (pe' == pe + cand && pr' == pr) || (pe' == pe && pr' == pr + cand)
    ensures pe' + next + pr' == pe + stem + pr
  {
  }
}
