/** `nearest_one` of src/kiddo.rs: a single nearest entry, searched with a plain stack
  * (`Vec`) as the frontier and a running best instead of a candidate heap. */
module NearestOne {
  import opened Floats
  import opened Distance
  import opened Util
  import opened Tree
  import opened Stacks
  import opened Frontier

  /** The running best, `best_elem` and `best_dist`, and the entry the value belongs to:
    * none yet at +inf, or a value with its true distance. */
  ghost predicate BestOK<T>(q: seq<real>, best: Option<T>, bestDist: Float, found: Entry<T>) {
    (best.None? ==> bestDist == PosInf) &&
    (best.Some? ==> bestDist == Fin(Dist(q, found.0)) && best.value == found.1)
  }

  /** The leaf half of `nearest_one_step`: an entry becomes the best when there is none
    * yet or when it is strictly nearer. */
  method EvaluateLeafOne<T(==)>(q: seq<real>, leaf: KdTree<T>, best: Option<T>, bestDist: Float, ghost found: Entry<T>)
      returns (best': Option<T>, bestDist': Float, ghost found': Entry<T>)
    requires leaf.content.Leaf? && |leaf.content.points| == |leaf.content.bucket|
    requires BestOK(q, best, bestDist, found)
    ensures BestOK(q, best', bestDist', found')
    ensures best'.None? <==> best.None? && Entries(leaf) == multiset{}
    ensures best'.Some? ==> found' in Entries(leaf) || (best.Some? && found' == found)
    ensures best'.Some? ==> forall e | e in Entries(leaf) :: Dist(q, found'.0) <= Dist(q, e.0)
    ensures best'.Some? && best.Some? ==> Dist(q, found'.0) <= Dist(q, found.0)
  {
    var ps, bs := leaf.content.points, leaf.content.bucket;
    best', bestDist', found' := best, bestDist, found;
    ghost var at := -1;
    for i := 0 to |ps|
      invariant BestOK(q, best', bestDist', found')
      invariant best'.None? <==> best.None? && i == 0
      invariant best'.Some? ==> (0 <= at < i && found' == (ps[at], bs[at])) || (best.Some? && found' == found)
      invariant best'.Some? ==> forall j | 0 <= j < i :: Dist(q, found'.0) <= Dist(q, ps[j])
      invariant best'.Some? && best.Some? ==> Dist(q, found'.0) <= Dist(q, found.0)
    {
      var d := Dist(q, ps[i]);
      if best'.None? || Lt(Fin(d), bestDist') {
        best', bestDist', found', at := Some(bs[i]), Fin(d), (ps[i], bs[i]), i;
      }
    }
    LeafEntriesAt(leaf);
    if best'.Some? && 0 <= at < |ps| && found' == (ps[at], bs[at]) {
      assert Zip(ps, bs)[at] == found';
    }
  }

  /** Every entry of a leaf is one of its point/value pairs. */
  lemma LeafEntriesAt<T>(leaf: KdTree<T>)
    requires leaf.content.Leaf? && |leaf.content.points| == |leaf.content.bucket|
    ensures Entries(leaf) == multiset{} <==> |leaf.content.points| == 0
    ensures forall e | e in Entries(leaf) ::
      exists j | 0 <= j < |leaf.content.points| :: e == (leaf.content.points[j], leaf.content.bucket[j])
  {
    var ps, bs := leaf.content.points, leaf.content.bucket;
    assert EntrySeq(leaf) == Zip(ps, bs);
    forall e | e in Entries(leaf)
      ensures exists j | 0 <= j < |ps| :: e == (ps[j], bs[j])
    {
      var j :| 0 <= j < |Zip(ps, bs)| && Zip(ps, bs)[j] == e;
    }
    if |ps| > 0 {
      assert Zip(ps, bs)[0] in Entries(leaf);
    }
  }

  lemma LeafPairsOne<T>(leaf: KdTree<T>, k: nat)
    requires Valid(leaf, k) && leaf.content.Leaf?
    ensures |leaf.content.points| == |leaf.content.bucket|
  {
  }

  /** Frontier keys are never positive: a box distance is never negative. */
  lemma KeyNotAbove<T>(x: Pending<T>, q: seq<real>, k: nat, d: real)
    requires ItemOK(x, q, k) && |q| == k && d >= 0.0
    ensures !Lt(Fin(d), x.distance)
  {
    if x.distance != Fin(0.0) {
      BoxKeyShape(q, x.node, k);
    }
  }

  /** The state of the loop of `nearest_one` as written. Until a best exists nothing has
    * been pruned or seen, so the frontier still holds every entry; the first step starts
    * from the whole tree, so a best found then is the nearest of the leaf the query
    * point descends to. */
  ghost predicate AsWrittenInv<T>(t: KdTree<T>, q: seq<real>, k: nat, pending: seq<Pending<T>>,
                                  best: Option<T>, bestDist: Float, found: Entry<T>, started: bool) {
    PendingOK(pending, q, k) && Ordered(pending, PendingKey) &&
    BestOK(q, best, bestDist, found) &&
    (best.Some? ==> found in Entries(t)) &&
    (best.None? ==> Entries(t) == PendingEntries(pending)) &&
    (!started ==> pending == [Pending(Fin(0.0), t)] && best.None?) &&
    (started && best.None? ==> Entries(Descend(t, q)) == multiset{}) &&
    (started && best.Some? && Entries(Descend(t, q)) != multiset{} ==>
       found in Entries(Descend(t, q)) &&
       forall e | e in Entries(Descend(t, q)) :: Dist(q, found.0) <= Dist(q, e.0))
  }

  /** `nearest_one_step` as the as-written loop runs it, which is only while there is
    * no best yet: pop the top of the stack, descend from it with `best_dist` (+inf) as
    * the bound, and evaluate the leaf reached. */
  method NearestOneStep<T(==)>(q: seq<real>, pending: seq<Pending<T>>, best: Option<T>, bestDist: Float,
                               ghost k: nat, ghost t: KdTree<T>, ghost found: Entry<T>, ghost started: bool)
      returns (pending': seq<Pending<T>>, best': Option<T>, bestDist': Float, ghost found': Entry<T>)
    requires |q| == k && |pending| > 0 && best.None?
    requires AsWrittenInv(t, q, k, pending, best, bestDist, found, started)
    ensures AsWrittenInv(t, q, k, pending', best', bestDist', found', true)
    ensures NodeSum(pending') < NodeSum(pending)
  {
    PendingPop(pending, Lifo, q, k);
    var popped := Pop(pending, Lifo, PendingKey);
    var top, rest := popped.0, popped.1;
    assert top in [top];
    var leaf;
    ghost var pr;
    pending', leaf, pr := PopulatePending(q, bestDist, rest, top.node, k);
    LeafPairsOne(leaf, k);
    best', bestDist', found' := EvaluateLeafOne(q, leaf, best, bestDist, found);
    AsWrittenStep(t, q, k, top.node, rest, pending', leaf, pr, best', bestDist', found', started);
  }

  /** `nearest_one` as written: an empty tree is an error before the point is checked;
    * the stack starts with the whole tree, and the loop runs while there is no best yet
    * or while `pending[0]`'s key exceeds `best_dist`. That key is a negated distance and
    * `best_dist` a distance, so once a best exists the loop stops: only the first
    * non-empty leaf reached is searched. */
  method NearestOneAsWritten<T(==)>(t: KdTree<T>, p: seq<Float>, ghost k: nat) returns (r: Result<(real, T)>)
    requires Valid(t, k) && |p| == k
    ensures t.size == 0 ==> r == Err(Empty)
    ensures t.size > 0 ==> (r.Ok? <==> AllFinite(p))
    ensures t.size > 0 && !AllFinite(p) ==> r == Err(NonFiniteCoordinate)
    ensures r.Ok? ==> exists e | e in Entries(t) :: r.value == (Dist(Reals(p), e.0), e.1)
    ensures r.Ok? && Entries(Descend(t, Reals(p))) != multiset{} ==>
      (exists e | e in Entries(Descend(t, Reals(p))) :: r.value == (Dist(Reals(p), e.0), e.1)) &&
      forall e | e in Entries(Descend(t, Reals(p))) :: r.value.0 <= Dist(Reals(p), e.0)
  {
    if t.size == 0 {
      return Err(Empty);
    }
    var checked := CheckPoint(p);
    if checked.Err? {
      return Err(checked.error);
    }
    var q := Reals(p);
    ghost var found := AnEntry(t, k);
    var pending := [Pending(Fin(0.0), t)];
    var bestDist := PosInf;
    var best: Option<T> := None;
    ghost var started := false;
    StartOne(t, q, k, found);
    while |pending| > 0 && (best.None? || Lt(bestDist, pending[0].distance))
      invariant AsWrittenInv(t, q, k, pending, best, bestDist, found, started)
      decreases NodeSum(pending)
    {
      if best.Some? {
        assert pending[0] in pending;
        KeyNotAbove(pending[0], q, k, bestDist.r);
      }
      pending, best, bestDist, found := NearestOneStep(q, pending, best, bestDist, k, t, found, started);
      started := true;
    }
    AsWrittenEnd(t, q, k, pending, best, bestDist, found, started);
    r := Ok((bestDist.r, best.value));
  }

  /** When the as-written loop stops there is a best, and the loop has run. */
  lemma {:induction false} AsWrittenEnd<T>(t: KdTree<T>, q: seq<real>, k: nat, pending: seq<Pending<T>>,
                        best: Option<T>, bestDist: Float, found: Entry<T>, started: bool)
    requires Valid(t, k) && t.size > 0
    requires AsWrittenInv(t, q, k, pending, best, bestDist, found, started)
    requires |pending| == 0 || best.Some?
    ensures best.Some? && started && bestDist == Fin(Dist(q, found.0)) && found in Entries(t)
  {
    assert |Entries(t)| == t.size;
    assert |pending| == 0 ==> PendingEntries(pending) == multiset{};
  }

  ghost function AnEntry<T>(t: KdTree<T>, k: nat): (e: Entry<T>)
    requires Valid(t, k) && t.size > 0
    ensures e in Entries(t)
  {
    EntrySeq(t)[0]
  }

  lemma StartOne<T>(t: KdTree<T>, q: seq<real>, k: nat, found: Entry<T>)
    requires Valid(t, k) && |q| == k
    ensures AsWrittenInv(t, q, k, [Pending(Fin(0.0), t)], None, PosInf, found, false)
  {
    assert [Pending(Fin(0.0), t)][..0] == [];
    PendingOrdered([Pending(Fin(0.0), t)], q, k);
  }

  /** One pass of the as-written loop, taken while there is no best yet. */
  lemma AsWrittenStep<T>(t: KdTree<T>, q: seq<real>, k: nat, top: KdTree<T>, rest: seq<Pending<T>>,
                         pending': seq<Pending<T>>, leaf: KdTree<T>, pruned: multiset<Entry<T>>,
                         best': Option<T>, bestDist': Float, found': Entry<T>, started: bool)
    requires |q| == k
    requires started ==> Entries(Descend(t, q)) == multiset{}
    requires !started ==> top == t
    requires Entries(t) == PendingEntries(rest) + Entries(top)
    requires Populated(q, PosInf, k, rest, top, pending', leaf, pruned)
    requires BestOK(q, best', bestDist', found')
    requires best'.None? <==> Entries(leaf) == multiset{}
    requires best'.Some? ==> found' in Entries(leaf) && forall e | e in Entries(leaf) :: Dist(q, found'.0) <= Dist(q, e.0)
    ensures AsWrittenInv(t, q, k, pending', best', bestDist', found', true)
  {
    PendingOrdered(pending', q, k);
    assert Entries(t) == PendingEntries(pending') + Entries(leaf);
  }

  /** A valid tree of capacity 2 holding the one-dimensional points 0, 4 and 10 (values
    * 1, 3 and 2), split at 5 = 0 + (10 - 0) / 2 as a leaf holding 0, 10 and 4 is. */
  function T0(): KdTree<int> {
    KdTree(3, [Fin(0.0)], [Fin(10.0)],
      Stem(KdTree(2, [Fin(0.0)], [Fin(4.0)], Leaf([[0.0], [4.0]], [1, 3], 2)),
           KdTree(1, [Fin(10.0)], [Fin(10.0)], Leaf([[10.0]], [2], 2)),
           5.0, 0))
  }

  lemma T0Valid()
    ensures Valid(T0(), 1)
    ensures Entries(T0()) == multiset{([0.0], 1), ([4.0], 3), ([10.0], 2)}
  {
    T0LeftValid();
    T0RightValid();
    T0RootEntries();
    T0RootInBox();
    assert NodeBasics(T0(), 1);
  }

  lemma T0RootEntries()
    ensures EntrySeq(T0()) == [([0.0], 1), ([4.0], 3), ([10.0], 2)]
    ensures Entries(T0()) == multiset{([0.0], 1), ([4.0], 3), ([10.0], 2)}
  {
    T0LeftValid();
    T0RightValid();
    assert EntrySeq(T0()) == EntrySeq(T0().content.left) + EntrySeq(T0().content.right);
  }

  lemma T0RootInBox()
    ensures forall e | e in Entries(T0()) :: InBox(e.0, T0().minBounds, T0().maxBounds)
  {
    T0RootEntries();
    forall e | e in Entries(T0())
      ensures InBox(e.0, T0().minBounds, T0().maxBounds)
    {
      assert e == ([0.0], 1) || e == ([4.0], 3) || e == ([10.0], 2);
    }
  }

  lemma T0LeftValid()
    ensures Valid(T0().content.left, 1)
    ensures EntrySeq(T0().content.left) == [([0.0], 1), ([4.0], 3)]
    ensures Entries(T0().content.left) == multiset{([0.0], 1), ([4.0], 3)}
    ensures forall e | e in Entries(T0().content.left) :: e.0[0] < 5.0
  {
    var l := T0().content.left;
    assert EntrySeq(l) == Zip([[0.0], [4.0]], [1, 3]);
    assert Zip([[0.0], [4.0]], [1, 3]) == [([0.0], 1), ([4.0], 3)];
    assert EntrySeq(l) == [([0.0], 1), ([4.0], 3)];
    forall e | e in Entries(l)
      ensures InBox(e.0, l.minBounds, l.maxBounds) && e.0[0] < 5.0
    {
      assert e == ([0.0], 1) || e == ([4.0], 3);
    }
    assert NodeBasics(l, 1);
  }

  lemma T0RightValid()
    ensures Valid(T0().content.right, 1)
    ensures EntrySeq(T0().content.right) == [([10.0], 2)]
    ensures Entries(T0().content.right) == multiset{([10.0], 2)}
    ensures forall e | e in Entries(T0().content.right) :: 5.0 <= e.0[0]
  {
    var r := T0().content.right;
    assert EntrySeq(r) == Zip([[10.0]], [2]);
    assert Zip([[10.0]], [2]) == [([10.0], 2)];
    assert EntrySeq(r) == [([10.0], 2)];
    assert NodeBasics(r, 1);
  }

  /** Whatever the as-written `nearest_one` returns for the point 6 on `T0` — its
    * contract pins it to the leaf 6 descends to, the one holding 10 — it answers
    * distance 16 while the entry at 4 lies at distance 4. */
  lemma NearestOneAsWrittenMisses(r: Result<(real, int)>)
    requires r.Ok? <==> AllFinite([Fin(6.0)])
    requires r.Ok? && Entries(Descend(T0(), Reals([Fin(6.0)]))) != multiset{} ==>
      exists e | e in Entries(Descend(T0(), Reals([Fin(6.0)]))) :: r.value == (Dist(Reals([Fin(6.0)]), e.0), e.1)
    ensures Valid(T0(), 1)
    ensures r == Ok((16.0, 2))
    ensures ([4.0], 3) in Entries(T0()) && Dist([6.0], [4.0]) == 4.0
  {
    T0Valid();
    T0RootEntries();
    T0SixDescends();
    T0Distances();
    var e :| e in Entries(Descend(T0(), Reals([Fin(6.0)]))) && r.value == (Dist(Reals([Fin(6.0)]), e.0), e.1);
    assert e == ([10.0], 2);
  }

  /** The point 6 lies right of the split value 5, in the leaf holding only 10. */
  lemma T0SixDescends()
    ensures AllFinite([Fin(6.0)]) && Reals([Fin(6.0)]) == [6.0]
    ensures Entries(Descend(T0(), [6.0])) == multiset{([10.0], 2)}
  {
    T0RightValid();
    assert Reals([Fin(6.0)]) == [6.0];
    assert Descend(T0(), [6.0]) == T0().content.right;
  }

  lemma T0Distances()
    ensures Dist([6.0], [10.0]) == 16.0 && Dist([6.0], [4.0]) == 4.0
  {
    assert [10.0][..0] == [] && [6.0][..0] == [] && [4.0][..0] == [];
  }

  /** The corrected search: every entry already seen, pruned or skipped lies no nearer
    * than the best. */
  ghost predicate OneInv<T>(t: KdTree<T>, q: seq<real>, k: nat, pending: seq<Pending<T>>, best: Option<T>,
                            bestDist: Float, found: Entry<T>, done: multiset<Entry<T>>) {
    PendingOK(pending, q, k) && Ordered(pending, PendingKey) &&
    BestOK(q, best, bestDist, found) &&
    (best.Some? ==> found in Entries(t)) &&
    Entries(t) == PendingEntries(pending) + done &&
    (forall e | e in done :: best.Some? && Dist(q, found.0) <= Dist(q, e.0))
  }

  /** One pass of the corrected loop: pop the top of the stack; search it as
    * `nearest_one_step` does when there is no best yet or its box lies strictly nearer
    * than the best, and drop it otherwise. */
  method NearestOneVisit<T(==)>(q: seq<real>, pending: seq<Pending<T>>, best: Option<T>, bestDist: Float,
                                ghost k: nat, ghost t: KdTree<T>, ghost found: Entry<T>, ghost done: multiset<Entry<T>>)
      returns (pending': seq<Pending<T>>, best': Option<T>, bestDist': Float,
               ghost found': Entry<T>, ghost done': multiset<Entry<T>>)
    requires |q| == k && |pending| > 0
    requires OneInv(t, q, k, pending, best, bestDist, found, done)
    ensures OneInv(t, q, k, pending', best', bestDist', found', done')
    ensures NodeSum(pending') < NodeSum(pending)
  {
    PendingPop(pending, Lifo, q, k);
    var popped := Pop(pending, Lifo, PendingKey);
    var top, rest := popped.0, popped.1;
    assert top in [top];
    if best.None? || Lt(Neg(top.distance), bestDist) {
      var leaf;
      ghost var pr;
      pending', leaf, pr := PopulatePending(q, bestDist, rest, top.node, k);
      LeafPairsOne(leaf, k);
      best', bestDist', found' := EvaluateLeafOne(q, leaf, best, bestDist, found);
      done' := done + Entries(leaf) + pr;
      OneVisited(t, q, k, top.node, rest, pending', leaf, pr, best, bestDist, found, done, best', bestDist', found');
    } else {
      pending', best', bestDist', found' := rest, best, bestDist, found;
      done' := done + Entries(top.node);
      OneSkipped(t, q, k, top, rest, best, bestDist, found, done);
    }
  }

  lemma OneVisited<T>(t: KdTree<T>, q: seq<real>, k: nat, top: KdTree<T>, rest: seq<Pending<T>>,
                      pending': seq<Pending<T>>, leaf: KdTree<T>, pruned: multiset<Entry<T>>,
                      best: Option<T>, bestDist: Float, found: Entry<T>, done: multiset<Entry<T>>,
                      best': Option<T>, bestDist': Float, found': Entry<T>)
    requires |q| == k
    requires BestOK(q, best, bestDist, found) && (best.Some? ==> found in Entries(t))
    requires forall e | e in done :: best.Some? && Dist(q, found.0) <= Dist(q, e.0)
    requires Entries(t) == PendingEntries(rest) + Entries(top) + done
    requires Populated(q, bestDist, k, rest, top, pending', leaf, pruned)
    requires BestOK(q, best', bestDist', found')
    requires best'.None? <==> best.None? && Entries(leaf) == multiset{}
    requires best'.Some? ==> found' in Entries(leaf) || (best.Some? && found' == found)
    requires best'.Some? ==> forall e | e in Entries(leaf) :: Dist(q, found'.0) <= Dist(q, e.0)
    requires best'.Some? && best.Some? ==> Dist(q, found'.0) <= Dist(q, found.0)
    ensures OneInv(t, q, k, pending', best', bestDist', found', done + Entries(leaf) + pruned)
  {
    PendingOrdered(pending', q, k);
    VisitAccount(Entries(t), PendingEntries(rest), Entries(top), done, PendingEntries(pending'), Entries(leaf), pruned);
    VisitBound(q, pruned, Entries(leaf), best, bestDist, found, done, best', bestDist', found');
  }

  lemma VisitAccount<X>(all: multiset<X>, rest: multiset<X>, top: multiset<X>, done: multiset<X>,
                        pe': multiset<X>, leaf: multiset<X>, pruned: multiset<X>)
    requires all == rest + top + done && pe' + leaf + pruned == rest + top
    ensures all == pe' + (done + leaf + pruned) && leaf <= all
  {
  }

  /** After a visit the best is no farther than every entry seen, pruned or done before. */
  lemma VisitBound<T>(q: seq<real>, pruned: multiset<Entry<T>>, leaf: multiset<Entry<T>>,
                      best: Option<T>, bestDist: Float, found: Entry<T>, done: multiset<Entry<T>>,
                      best': Option<T>, bestDist': Float, found': Entry<T>)
    requires BestOK(q, best, bestDist, found) && BestOK(q, best', bestDist', found')
    requires forall e | e in done :: best.Some? && Dist(q, found.0) <= Dist(q, e.0)
    requires forall e | e in pruned :: !Le(Fin(Dist(q, e.0)), bestDist)
    requires best'.None? <==> best.None? && leaf == multiset{}
    requires best'.Some? ==> forall e | e in leaf :: Dist(q, found'.0) <= Dist(q, e.0)
    requires best'.Some? && best.Some? ==> Dist(q, found'.0) <= Dist(q, found.0)
    ensures forall e | e in done + leaf + pruned :: best'.Some? && Dist(q, found'.0) <= Dist(q, e.0)
  {
    forall e | e in done + leaf + pruned
      ensures best'.Some? && Dist(q, found'.0) <= Dist(q, e.0)
    {
      if e in pruned {
        assert best.Some?;
      }
    }
  }

  lemma OneSkipped<T>(t: KdTree<T>, q: seq<real>, k: nat, top: Pending<T>, rest: seq<Pending<T>>,
                      best: Option<T>, bestDist: Float, found: Entry<T>, done: multiset<Entry<T>>)
    requires |q| == k && ItemOK(top, q, k) && PendingOK(rest, q, k)
    requires BestOK(q, best, bestDist, found) && (best.Some? ==> found in Entries(t))
    requires forall e | e in done :: best.Some? && Dist(q, found.0) <= Dist(q, e.0)
    requires Entries(t) == PendingEntries(rest) + Entries(top.node) + done
    requires best.Some? && !Lt(Neg(top.distance), bestDist)
    ensures OneInv(t, q, k, rest, best, bestDist, found, done + Entries(top.node))
  {
    PendingOrdered(rest, q, k);
    SkippedBound(q, k, top, bestDist, found);
    SkipAccount(Entries(t), PendingEntries(rest), Entries(top.node), done);
    forall e | e in done + Entries(top.node)
      ensures Dist(q, found.0) <= Dist(q, e.0)
    {
    }
  }

  /** A subtree whose box lies no nearer than the best holds nothing nearer than it. */
  lemma SkippedBound<T>(q: seq<real>, k: nat, top: Pending<T>, bestDist: Float, found: Entry<T>)
    requires |q| == k && ItemOK(top, q, k)
    requires bestDist == Fin(Dist(q, found.0)) && !Lt(Neg(top.distance), bestDist)
    ensures forall e | e in Entries(top.node) :: Dist(q, found.0) <= Dist(q, e.0)
  {
    forall e | e in Entries(top.node)
      ensures Dist(q, found.0) <= Dist(q, e.0)
    {
      PendingLowerBound(top, q, k, e);
      BetweenBound(Dist(q, found.0), Neg(top.distance), Dist(q, e.0));
    }
  }

  lemma BetweenBound(a: real, n: Float, b: real)
    requires !Lt(n, Fin(a)) && Le(n, Fin(b))
    ensures a <= b
  {
  }

  lemma SkipAccount<X>(all: multiset<X>, rest: multiset<X>, top: multiset<X>, done: multiset<X>)
    requires all == rest + top + done
    ensures all == rest + (done + top)
  {
  }

  /** `nearest_one` with the loop it evidently intends: the stack is searched until it is
    * empty, skipping subtrees whose box lies no nearer than the best, so the answer is
    * a nearest entry of the whole tree. */
  method NearestOne<T(==)>(t: KdTree<T>, p: seq<Float>, ghost k: nat) returns (r: Result<(real, T)>)
    requires Valid(t, k) && |p| == k
    ensures t.size == 0 ==> r == Err(Empty)
    ensures t.size > 0 ==> (r.Ok? <==> AllFinite(p))
    ensures t.size > 0 && !AllFinite(p) ==> r == Err(NonFiniteCoordinate)
    ensures r.Ok? ==> exists e | e in Entries(t) :: r.value == (Dist(Reals(p), e.0), e.1)
    ensures r.Ok? ==> forall e | e in Entries(t) :: r.value.0 <= Dist(Reals(p), e.0)
  {
    if t.size == 0 {
      return Err(Empty);
    }
    var checked := CheckPoint(p);
    if checked.Err? {
      return Err(checked.error);
    }
    var q := Reals(p);
    ghost var found := AnEntry(t, k);
    var pending := [Pending(Fin(0.0), t)];
    var bestDist := PosInf;
    var best: Option<T> := None;
    ghost var done: multiset<Entry<T>> := multiset{};
    StartOne(t, q, k, found);
    while |pending| > 0
      invariant OneInv(t, q, k, pending, best, bestDist, found, done)
      decreases NodeSum(pending)
    {
      pending, best, bestDist, found, done := NearestOneVisit(q, pending, best, bestDist, k, t, found, done);
    }
    assert Entries(t) == done;
    assert found in Entries(t) by {
      assert EntrySeq(t)[0] in Entries(t);
    }
    r := Ok((bestDist.r, best.value));
  }
}
