/** `best_n_within`, `best_n_within_into_iter` and `best_n_within_step` of src/kiddo.rs:
  * a depth-first search (the frontier is a `Vec`) that prunes subtrees beyond the radius
  * and keeps, in a max-heap of values, the `max_qty` smallest values stored within the
  * radius. Values are integers here (any `Ord` type behaves alike). */
module BestN {
  import opened Floats
  import opened Distance
  import opened Tree
  import opened Stacks
  import opened Frontier
  import Nearest
  import NearestOne

  function ValueKey(v: int): Float {
    Fin(v as real)
  }

  /** The value at the top of the value heap: the greatest one. */
  function MaxV(ev: seq<int>): (v: int)
    requires |ev| > 0
    ensures forall x | x in ev :: x <= v
    ensures v in ev
  {
    assert Ordered(ev, ValueKey);
    var m := MaxIndex(ev, ValueKey);
    forall x | x in ev
      ensures x <= ev[m]
    {
      var j :| 0 <= j < |ev| && ev[j] == x;
      assert Le(ValueKey(ev[j]), ValueKey(ev[m]));
    }
    ev[m]
  }

  /** The values of a sequence of entries. */
  function Values(picked: seq<Entry<int>>): (vs: seq<int>)
    ensures |vs| == |picked| && forall i :: 0 <= i < |picked| ==> vs[i] == picked[i].1
  {
    seq(|picked|, i requires 0 <= i < |picked| => picked[i].1)
  }

  /** `element <= max_dist`: the entry lies within the radius (never when it is NaN). */
  predicate InRange(q: seq<real>, e: Entry<int>, radius: Float) {
    Le(Fin(Dist(q, e.0)), radius)
  }

  /** Some entry of `m` lies within the radius. */
  predicate AnyInRange(m: multiset<Entry<int>>, q: seq<real>, radius: Float) {
    exists e | e in m :: InRange(q, e, radius)
  }

  /** What the value heap holds after the entries `seen` have been folded in: the values
    * of at most `maxQty` entries within the radius, and every seen entry left out lies
    * beyond the radius or, the heap being full, holds a value no smaller than its top. */
  predicate KeptOK(ev: seq<int>, picked: seq<Entry<int>>, seen: multiset<Entry<int>>,
                   q: seq<real>, maxQty: nat, radius: Float) {
    ev == Values(picked) && |picked| <= maxQty &&
    (forall e | e in picked :: InRange(q, e, radius)) &&
    multiset(picked) <= seen &&
    (forall e | e in seen - multiset(picked) ::
       !InRange(q, e, radius) || (|ev| == maxQty && |ev| > 0 && e.1 >= MaxV(ev)))
  }

  /** With `max_qty` zero the heap stays empty, so every entry seen lies beyond the radius. */
  lemma ZeroQtyNothingInRange(ev: seq<int>, picked: seq<Entry<int>>, seen: multiset<Entry<int>>,
                              q: seq<real>, radius: Float)
    requires KeptOK(ev, picked, seen, q, 0, radius)
    ensures ev == [] && picked == []
    ensures forall e | e in seen :: !InRange(q, e, radius)
  {
    assert multiset(picked) == multiset{};
  }

  lemma KeepDiscard(ev: seq<int>, picked: seq<Entry<int>>, seen: multiset<Entry<int>>, e: Entry<int>,
                    q: seq<real>, maxQty: nat, radius: Float)
    requires KeptOK(ev, picked, seen, q, maxQty, radius)
    requires !InRange(q, e, radius) || (|ev| == maxQty && |ev| > 0 && e.1 >= MaxV(ev))
    ensures KeptOK(ev, picked, seen + multiset{e}, q, maxQty, radius)
  {
    assert (seen + multiset{e}) - multiset(picked) == (seen - multiset(picked)) + multiset{e};
  }

  lemma KeepPush(ev: seq<int>, picked: seq<Entry<int>>, seen: multiset<Entry<int>>, e: Entry<int>,
                 q: seq<real>, maxQty: nat, radius: Float)
    requires KeptOK(ev, picked, seen, q, maxQty, radius) && |ev| < maxQty && InRange(q, e, radius)
    ensures KeptOK(ev + [e.1], picked + [e], seen + multiset{e}, q, maxQty, radius)
  {
    assert Values(picked + [e]) == Values(picked) + [e.1];
    assert (seen + multiset{e}) - multiset(picked + [e]) == seen - multiset(picked);
  }

  /** Replacing the top by a strictly smaller value lowers the top, and the entry pushed
    * out holds a value no smaller than the new top. */
  lemma KeepReplace(ev: seq<int>, picked: seq<Entry<int>>, seen: multiset<Entry<int>>, e: Entry<int>,
                    q: seq<real>, maxQty: nat, radius: Float, m: nat)
    requires KeptOK(ev, picked, seen, q, maxQty, radius) && |ev| >= maxQty && InRange(q, e, radius)
    requires 0 <= m < |ev| && ev[m] == MaxV(ev) && e.1 < ev[m]
    ensures KeptOK(ev[m := e.1], picked[m := e], seen + multiset{e}, q, maxQty, radius)
  {
    assert Values(picked[m := e]) == Values(picked)[m := e.1];
    ReplacedEntries(picked, e, m);
    ReplaceLowersMax(ev, e.1, m);
    ReplacedLeftOut(picked, seen, e, m);
  }

  lemma ReplacedEntries(picked: seq<Entry<int>>, e: Entry<int>, m: nat)
    requires 0 <= m < |picked|
    ensures forall x | x in picked[m := e] :: x == e || x in picked
  {
    forall x | x in picked[m := e]
      ensures x == e || x in picked
    {
      var j :| 0 <= j < |picked| && picked[m := e][j] == x;
      if j != m {
        assert picked[j] in picked;
      }
    }
  }

  lemma ReplaceLowersMax(ev: seq<int>, v: int, m: nat)
    requires 0 <= m < |ev| && ev[m] == MaxV(ev) && v < ev[m]
    ensures MaxV(ev[m := v]) <= MaxV(ev)
  {
    var ev' := ev[m := v];
    var j :| 0 <= j < |ev'| && ev'[j] == MaxV(ev');
    if j != m {
      assert ev[j] in ev;
    }
  }

  lemma ReplacedLeftOut(picked: seq<Entry<int>>, seen: multiset<Entry<int>>, e: Entry<int>, m: nat)
    requires 0 <= m < |picked| && multiset(picked) <= seen
    ensures multiset(picked[m := e]) <= seen + multiset{e}
    ensures (seen + multiset{e}) - multiset(picked[m := e]) == (seen - multiset(picked)) + multiset{picked[m]}
  {
  }

  /** One entry through the fold of `best_n_within_step`. Within the radius its value is
    * pushed while the heap has room; otherwise the top is looked at (`peek_mut().unwrap()`)
    * and replaced when the value is strictly smaller. The look at the top of an empty
    * heap is the panic of `max_qty == 0`. */
  method OfferValue(ev: seq<int>, e: Entry<int>, d: real, maxQty: nat, radius: Float,
                    ghost q: seq<real>, ghost picked: seq<Entry<int>>, ghost seen: multiset<Entry<int>>)
      returns (ev': seq<int>, panicked: bool, ghost picked': seq<Entry<int>>)
    requires KeptOK(ev, picked, seen, q, maxQty, radius) && d == Dist(q, e.0)
    ensures panicked <==> InRange(q, e, radius) && maxQty == 0
    ensures !panicked ==> KeptOK(ev', picked', seen + multiset{e}, q, maxQty, radius)
  {
    ev', picked', panicked := ev, picked, false;
    if !Le(Fin(d), radius) {
      KeepDiscard(ev, picked, seen, e, q, maxQty, radius);
    } else if |ev| < maxQty {
      KeepPush(ev, picked, seen, e, q, maxQty, radius);
      ev', picked' := ev + [e.1], picked + [e];
    } else if |ev| == 0 {
      panicked := true;
    } else {
      var m := MaxIndex(ev, ValueKey);
      assert ev[m] == MaxV(ev) by {
        assert MaxV(ev) in ev;
        assert Le(ValueKey(MaxV(ev)), ValueKey(ev[m]));
      }
      if e.1 < ev[m] {
        KeepReplace(ev, picked, seen, e, q, maxQty, radius, m);
        ev', picked' := ev[m := e.1], picked[m := e];
      } else {
        KeepDiscard(ev, picked, seen, e, q, maxQty, radius);
      }
    }
  }

  /** The leaf half of `best_n_within_step`: every entry of the leaf, in storage order,
    * is offered to the value heap, until a panic ends the call. */
  method EvaluateLeafBest(q: seq<real>, maxQty: nat, radius: Float, leaf: KdTree<int>, ev: seq<int>,
                          ghost picked: seq<Entry<int>>, ghost seen: multiset<Entry<int>>)
      returns (ev': seq<int>, panicked: bool, ghost picked': seq<Entry<int>>)
    requires leaf.content.Leaf? && |leaf.content.points| == |leaf.content.bucket|
    requires KeptOK(ev, picked, seen, q, maxQty, radius)
    ensures panicked <==> maxQty == 0 && AnyInRange(Entries(leaf), q, radius)
    ensures !panicked ==> KeptOK(ev', picked', seen + Entries(leaf), q, maxQty, radius)
  {
    var ps, bs := leaf.content.points, leaf.content.bucket;
    ev', picked', panicked := ev, picked, false;
    ghost var acc := seen;
    var i := 0;
    while i < |ps| && !panicked
      invariant 0 <= i <= |ps|
      invariant acc == seen + multiset(Zip(ps[..i], bs[..i]))
      invariant !panicked ==> KeptOK(ev', picked', acc, q, maxQty, radius)
      invariant panicked ==> maxQty == 0 && AnyInRange(Entries(leaf), q, radius)
      decreases |ps| - i, !panicked
    {
      var e := (ps[i], bs[i]);
      ev', panicked, picked' := OfferValue(ev', e, Dist(q, ps[i]), maxQty, radius, q, picked', acc);
      if panicked {
        LeafHolds(leaf, i);
        assert InRange(q, e, radius);
      } else {
        Nearest.ZipPrefix(ps, bs, i);
        acc := acc + multiset{e};
        i := i + 1;
      }
    }
    if !panicked {
      LeafDone(leaf, ev', picked', seen, acc, q, maxQty, radius);
    }
  }

  lemma LeafDone(leaf: KdTree<int>, ev: seq<int>, picked: seq<Entry<int>>, seen: multiset<Entry<int>>,
                 acc: multiset<Entry<int>>, q: seq<real>, maxQty: nat, radius: Float)
    requires leaf.content.Leaf? && |leaf.content.points| == |leaf.content.bucket|
    requires acc == seen + multiset(Zip(leaf.content.points[..|leaf.content.points|],
                                        leaf.content.bucket[..|leaf.content.points|]))
    requires KeptOK(ev, picked, acc, q, maxQty, radius)
    ensures acc == seen + Entries(leaf)
    ensures maxQty == 0 ==> !AnyInRange(Entries(leaf), q, radius)
  {
    var ps, bs := leaf.content.points, leaf.content.bucket;
    assert ps[..|ps|] == ps && bs[..|bs|] == bs;
    if maxQty == 0 {
      ZeroQtyNothingInRange(ev, picked, acc, q, radius);
    }
  }

  lemma LeafHolds<T>(leaf: KdTree<T>, i: nat)
    requires leaf.content.Leaf? && |leaf.content.points| == |leaf.content.bucket|
    requires i < |leaf.content.points|
    ensures (leaf.content.points[i], leaf.content.bucket[i]) in Entries(leaf)
  {
    assert EntrySeq(leaf)[i] == (leaf.content.points[i], leaf.content.bucket[i]);
  }

  /** The state of the search: the frontier, the kept values and the seen and pruned
    * entries account for every entry of `t`; pruned entries lie beyond the radius. */
  predicate BestInv(t: KdTree<int>, q: seq<real>, k: nat, maxQty: nat, radius: Float,
                    pending: seq<Pending<int>>, ev: seq<int>, picked: seq<Entry<int>>,
                    seen: multiset<Entry<int>>, pruned: multiset<Entry<int>>) {
    PendingOK(pending, q, k) && KeptOK(ev, picked, seen, q, maxQty, radius) &&
    (forall e | e in pruned :: !InRange(q, e, radius)) &&
    Entries(t) == PendingEntries(pending) + seen + pruned
  }

  /** `best_n_within_step`: pop the last pushed node, descend from it to a leaf (pushing
    * the siblings whose box lies within the radius), then fold that leaf. */
  method BestNStep(q: seq<real>, maxQty: nat, radius: Float, pending: seq<Pending<int>>, ev: seq<int>,
                   ghost picked: seq<Entry<int>>, ghost k: nat, ghost t: KdTree<int>,
                   ghost seen: multiset<Entry<int>>, ghost pruned: multiset<Entry<int>>)
      returns (pending': seq<Pending<int>>, ev': seq<int>, panicked: bool, ghost picked': seq<Entry<int>>,
               ghost seen': multiset<Entry<int>>, ghost pruned': multiset<Entry<int>>)
    requires |q| == k && |pending| > 0
    requires BestInv(t, q, k, maxQty, radius, pending, ev, picked, seen, pruned)
    ensures panicked ==> maxQty == 0 && AnyInRange(Entries(t), q, radius)
    ensures !panicked ==> BestInv(t, q, k, maxQty, radius, pending', ev', picked', seen', pruned')
    ensures NodeSum(pending') < NodeSum(pending)
  {
    PendingOrdered(pending, q, k);
    PendingPop(pending, Lifo, q, k);
    var popped := Pop(pending, Lifo, PendingKey);
    var top, rest := popped.0, popped.1;
    assert top in [top];
    var leaf;
    ghost var pr;
    pending', leaf, pr := PopulatePending(q, radius, rest, top.node, k);
    Nearest.LeafPairs(leaf, k);
    ev', panicked, picked' := EvaluateLeafBest(q, maxQty, radius, leaf, ev, picked, seen);
    seen', pruned' := seen + Entries(leaf), pruned + pr;
    Nearest.Account(Entries(t), PendingEntries(pending), PendingEntries(rest), Entries(top.node),
                    PendingEntries(pending'), Entries(leaf), pr, seen, pruned);
    if panicked {
      InAccount(Entries(t), PendingEntries(pending'), seen, Entries(leaf), pruned', q, radius);
    }
  }

  lemma InAccount(all: multiset<Entry<int>>, pe: multiset<Entry<int>>, seen: multiset<Entry<int>>,
                  leaf: multiset<Entry<int>>, pruned: multiset<Entry<int>>, q: seq<real>, radius: Float)
    requires all == pe + (seen + leaf) + pruned
    requires AnyInRange(leaf, q, radius)
    ensures AnyInRange(all, q, radius)
  {
    var e :| e in leaf && InRange(q, e, radius);
    assert e in all;
  }

  /** The answer of `best_n_within`, in any order: the values of at most `maxQty` entries
    * of `t` within the radius, such that an entry within the radius is left out only when
    * `maxQty` values were kept, none of them greater than its own. */
  predicate BestOf(t: KdTree<int>, q: seq<real>, radius: Float, maxQty: nat,
                   vals: seq<int>, picked: seq<Entry<int>>) {
    vals == Values(picked) && |picked| <= maxQty &&
    (forall e | e in picked :: InRange(q, e, radius)) &&
    multiset(picked) <= Entries(t) &&
    (forall e | e in Entries(t) - multiset(picked) :: InRange(q, e, radius) ==>
       |picked| == maxQty && forall v | v in vals :: v <= e.1)
  }

  lemma BestStart(t: KdTree<int>, q: seq<real>, k: nat, maxQty: nat, radius: Float)
    requires Valid(t, k) && |q| == k
    ensures BestInv(t, q, k, maxQty, radius, [Pending(Fin(0.0), t)], [], [], multiset{}, multiset{})
  {
    assert [Pending(Fin(0.0), t)][..0] == [];
    assert Values([]) == [];
  }

  lemma BestEnd(t: KdTree<int>, q: seq<real>, k: nat, maxQty: nat, radius: Float, ev: seq<int>,
                picked: seq<Entry<int>>, seen: multiset<Entry<int>>, pruned: multiset<Entry<int>>)
    requires BestInv(t, q, k, maxQty, radius, [], ev, picked, seen, pruned)
    ensures BestOf(t, q, radius, maxQty, ev, picked)
    ensures maxQty == 0 ==> forall e | e in Entries(t) :: !InRange(q, e, radius)
  {
    assert Entries(t) == seen + pruned;
    forall e | e in Entries(t) - multiset(picked) && InRange(q, e, radius)
      ensures |picked| == maxQty && forall v | v in ev :: v <= e.1
    {
      assert e in seen - multiset(picked);
    }
    if maxQty == 0 {
      ZeroQtyNothingInRange(ev, picked, seen, q, radius);
    }
  }

  /** `best_n_within_into_iter`: the search with no check of the point and no test for
    * an empty tree. It panics exactly when `max_qty` is zero and some entry lies within
    * the radius; otherwise it yields the best values. */
  method BestNWithinIntoIter(t: KdTree<int>, q: seq<real>, radius: Float, maxQty: nat, ghost k: nat)
      returns (o: Outcome<seq<int>>, ghost picked: seq<Entry<int>>)
    requires Valid(t, k) && |q| == k
    ensures o.Panics? <==> maxQty == 0 && exists e | e in Entries(t) :: InRange(q, e, radius)
    ensures o.Returns? ==> BestOf(t, q, radius, maxQty, o.value, picked)
  {
    var pending := [Pending(Fin(0.0), t)];
    var ev: seq<int> := [];
    picked := [];
    ghost var seen: multiset<Entry<int>> := multiset{};
    ghost var pruned: multiset<Entry<int>> := multiset{};
    BestStart(t, q, k, maxQty, radius);
    var panicked := false;
    while |pending| > 0 && !panicked
      invariant !panicked ==> BestInv(t, q, k, maxQty, radius, pending, ev, picked, seen, pruned)
      invariant panicked ==> maxQty == 0 && exists e | e in Entries(t) :: InRange(q, e, radius)
      decreases NodeSum(pending), !panicked
    {
      pending, ev, panicked, picked, seen, pruned := BestNStep(q, maxQty, radius, pending, ev, picked, k, t, seen, pruned);
    }
    if panicked {
      return Panics, picked;
    }
    BestEnd(t, q, k, maxQty, radius, ev, picked, seen, pruned);
    o := Returns(ev);
  }

  /** `best_n_within` as written: an empty tree answers `[]` before the point is
    * checked; otherwise the search runs as in `best_n_within_into_iter`, so with
    * `max_qty` zero it panics as soon as an entry lies within the radius. */
  method BestNWithinAsWritten(t: KdTree<int>, p: seq<Float>, radius: Float, maxQty: nat, ghost k: nat)
      returns (o: Outcome<Result<seq<int>>>, ghost picked: seq<Entry<int>>)
    requires Valid(t, k) && |p| == k
    ensures t.size == 0 ==> o == Returns(Ok([]))
    ensures t.size > 0 && !AllFinite(p) ==> o == Returns(Err(NonFiniteCoordinate))
    ensures o.Panics? <==>
      t.size > 0 && AllFinite(p) && maxQty == 0 && exists e | e in Entries(t) :: InRange(Reals(p), e, radius)
    ensures o.Returns? && o.value.Ok? && t.size > 0 ==>
      AllFinite(p) && BestOf(t, Reals(p), radius, maxQty, o.value.value, picked)
  {
    picked := [];
    if t.size == 0 {
      return Returns(Ok([])), picked;
    }
    var checked := CheckPoint(p);
    if checked.Err? {
      return Returns(Err(checked.error)), picked;
    }
    var found;
    found, picked := BestNWithinIntoIter(t, Reals(p), radius, maxQty, k);
    if found.Panics? {
      return Panics, picked;
    }
    o := Returns(Ok(found.value));
  }

  /** An empty tree is answered by the empty sequence of values. */
  lemma EmptyTreeBest(t: KdTree<int>, k: nat, q: seq<real>, radius: Float, maxQty: nat)
    requires Valid(t, k) && t.size == 0
    ensures BestOf(t, q, radius, maxQty, [], [])
  {
    assert |EntrySeq(t)| == 0;
    assert Values([]) == [];
  }

  /** `best_n_within` with the evident intent for `max_qty == 0`: no values are wanted,
    * so none are returned, instead of a panic. */
  method BestNWithin(t: KdTree<int>, p: seq<Float>, radius: Float, maxQty: nat, ghost k: nat)
      returns (r: Result<seq<int>>, ghost picked: seq<Entry<int>>)
    requires Valid(t, k) && |p| == k
    ensures t.size == 0 ==> r == Ok([])
    ensures t.size > 0 ==> (r.Ok? <==> AllFinite(p))
    ensures t.size > 0 && !AllFinite(p) ==> r == Err(NonFiniteCoordinate)
    ensures maxQty == 0 && r.Ok? ==> r.value == []
    ensures r.Ok? && AllFinite(p) ==> BestOf(t, Reals(p), radius, maxQty, r.value, picked)
  {
    picked := [];
    if t.size == 0 {
      if AllFinite(p) {
        EmptyTreeBest(t, k, Reals(p), radius, maxQty);
      }
      return Ok([]), picked;
    }
    var checked := CheckPoint(p);
    if checked.Err? {
      return Err(checked.error), picked;
    }
    if maxQty == 0 {
      assert Values([]) == [];
      return Ok([]), picked;
    }
    var found;
    found, picked := BestNWithinIntoIter(t, Reals(p), radius, maxQty, k);
    r := Ok(found.value);
  }

  /** On the three-entry tree of `NearestOne.T0`, asking for zero values within radius
    * 100 of the point 6 panics as written: the entry at 10 lies at distance 16. */
  lemma BestNWithinAsWrittenPanics(o: Outcome<Result<seq<int>>>)
    requires o.Panics? <==> (NearestOne.T0().size > 0 && AllFinite([Fin(6.0)]) &&
      exists e | e in Entries(NearestOne.T0()) :: InRange(Reals([Fin(6.0)]), e, Fin(100.0)))
    ensures Valid(NearestOne.T0(), 1)
    ensures o == Panics
  {
    NearestOne.T0Valid();
    T0SixReachesTen();
  }

  lemma T0SixReachesTen()
    ensures NearestOne.T0().size > 0 && AllFinite([Fin(6.0)]) && Reals([Fin(6.0)]) == [6.0]
    ensures ([10.0], 2) in Entries(NearestOne.T0()) && InRange([6.0], ([10.0], 2), Fin(100.0))
  {
    NearestOne.T0RootEntries();
    NearestOne.T0Distances();
    assert Reals([Fin(6.0)]) == [6.0];
  }
}
