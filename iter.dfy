/** `iter_nearest` and `NearestIter::next` of src/kiddo.rs: an iterator over every entry
  * of the tree, nearest first. It keeps the frontier heap of subtrees and a heap of
  * evaluated candidates, and expands subtrees until the nearest candidate is no farther
  * than every box still pending. */
module NearestIterator {
  import opened Floats
  import opened Distance
  import opened Tree
  import opened Stacks
  import opened Frontier
  import opened Nearest

  /** The evaluated heap holds negated distances, so its greatest key is the nearest. */
  function NegKey<T>(c: Candidate<T>): Float {
    Fin(-c.distance)
  }

  /** `evaluated.peek().map_or(infinity, |x| -x.distance)`: the distance of the nearest
    * candidate, or +inf when there is none. */
  function EvPeek<T>(ev: seq<Candidate<T>>): (d: Float)
    ensures |ev| == 0 ==> d == PosInf
    ensures |ev| > 0 ==> d.Fin? && exists j :: 0 <= j < |ev| && ev[j].distance == d.r
    ensures |ev| > 0 ==> forall j :: 0 <= j < |ev| ==> d.r <= ev[j].distance
  {
    if |ev| == 0 then PosInf
    else
      assert Ordered(ev, NegKey);
      var m := MaxIndex(ev, NegKey);
      assert forall j :: 0 <= j < |ev| ==> Le(NegKey(ev[j]), NegKey(ev[m]));
      Fin(ev[m].distance)
  }

  /** The candidates of a leaf: its points, measured from `q`, with their values. */
  function LeafCandidates<T>(q: seq<real>, leaf: KdTree<T>): (cs: seq<Candidate<T>>)
    requires leaf.content.Leaf? && |leaf.content.points| == |leaf.content.bucket|
    ensures EntriesOf(cs) == EntrySeq(leaf)
    ensures forall c | c in cs :: c.distance == Dist(q, c.entry.0)
  {
    var ps, bs := leaf.content.points, leaf.content.bucket;
    seq(|ps|, i requires 0 <= i < |ps| => Candidate(Dist(q, ps[i]), (ps[i], bs[i])))
  }

  /** Entries yielded in order of distance from `q`, nearest first. */
  predicate InOrder<T>(q: seq<real>, ys: seq<Entry<T>>) {
    forall i, j | 0 <= i < j < |ys| :: Dist(q, ys[i].0) <= Dist(q, ys[j].0)
  }

  /** Extending the evaluated heap by a leaf adds the leaf's entries. */
  lemma ExtendEntries<T>(q: seq<real>, ev: seq<Candidate<T>>, leaf: KdTree<T>)
    requires leaf.content.Leaf? && |leaf.content.points| == |leaf.content.bucket|
    ensures EvEntries(ev + LeafCandidates(q, leaf)) == EvEntries(ev) + Entries(leaf)
  {
    assert EntriesOf(ev + LeafCandidates(q, leaf)) == EntriesOf(ev) + EntriesOf(LeafCandidates(q, leaf));
  }

  /** One expansion keeps the entries of the frontier and the evaluated heap together. */
  lemma ExpandAccount<X>(pe: multiset<X>, ev: multiset<X>, rest: multiset<X>, top: multiset<X>,
                         pe': multiset<X>, leaf: multiset<X>, ev': multiset<X>)
    requires pe == rest + top && pe' + leaf + multiset{} == rest + top && ev' == ev + leaf
    ensures pe' + ev' == pe + ev
  {
  }

  /** When the loop of `next` stops with candidates left, the nearest candidate is no
    * farther than any entry still beneath the frontier or in the evaluated heap. */
  lemma {:induction false} NearestCandidate<T>(q: seq<real>, k: nat, pending: seq<Pending<T>>, ev: seq<Candidate<T>>, c: Candidate<T>)
    requires |q| == k && PendingOK(pending, q, k) && Ordered(pending, PendingKey)
    requires |ev| > 0 && forall j :: 0 <= j < |ev| ==> c.distance <= ev[j].distance
    requires c in ev && forall x | x in ev :: x.distance == Dist(q, x.entry.0)
    requires |pending| == 0 || !Le(Neg(pending[MaxIndex(pending, PendingKey)].distance), EvPeek(ev))
    ensures forall e | e in PendingEntries(pending) + EvEntries(ev) :: c.distance <= Dist(q, e.0)
  {
    var d := EvPeek(ev);
    assert c.distance <= d.r;
    forall e | e in PendingEntries(pending) + EvEntries(ev)
      ensures c.distance <= Dist(q, e.0)
    {
      if e in PendingEntries(pending) {
        PendingBeyond(pending, q, k, d, e);
      } else {
        InEvEntries(ev, e);
        var j :| 0 <= j < |ev| && ev[j].entry == e;
      }
    }
  }

  /** When the loop of `next` stops with no candidate, nothing is left. */
  lemma {:induction false} NothingLeft<T>(pending: seq<Pending<T>>, ev: seq<Candidate<T>>)
    requires |ev| == 0 && Ordered(pending, PendingKey) && (forall x | x in pending :: !x.distance.NaN?)
    requires |pending| == 0 || !Le(Neg(pending[MaxIndex(pending, PendingKey)].distance), EvPeek(ev))
    ensures PendingEntries(pending) + EvEntries(ev) == multiset{}
  {
    OrderedTop(pending, PendingKey);
    assert EntriesOf(ev) == [];
  }

  /** What holds between calls of `next`: the frontier and the evaluated heap hold
    * exactly the entries not yielded yet; the entries yielded came nearest first, and
    * none is farther than one still left. */
  predicate IterInv<T(==)>(t: KdTree<T>, q: seq<real>, k: nat, pending: seq<Pending<T>>,
                           ev: seq<Candidate<T>>, yielded: seq<Entry<T>>) {
    |q| == k && Valid(t, k) &&
    PendingOK(pending, q, k) && Ordered(pending, PendingKey) &&
    (forall c | c in ev :: c.distance == Dist(q, c.entry.0)) &&
    Entries(t) == PendingEntries(pending) + EvEntries(ev) + multiset(yielded) &&
    InOrder(q, yielded) &&
    (|yielded| > 0 ==> forall e | e in PendingEntries(pending) + EvEntries(ev) ::
       Dist(q, yielded[|yielded| - 1].0) <= Dist(q, e.0))
  }

  /** The body of the loop of `next`: pop the frontier node with the nearest box, descend
    * from it to a leaf pushing every sibling, and add the leaf's candidates to the
    * evaluated heap. */
  method Expand<T(==)>(q: seq<real>, pending: seq<Pending<T>>, ev: seq<Candidate<T>>,
                       ghost k: nat, ghost t: KdTree<T>, ghost ys: seq<Entry<T>>)
      returns (pending': seq<Pending<T>>, ev': seq<Candidate<T>>)
    requires |pending| > 0 && IterInv(t, q, k, pending, ev, ys)
    ensures IterInv(t, q, k, pending', ev', ys)
    ensures PendingEntries(pending') + EvEntries(ev') == PendingEntries(pending) + EvEntries(ev)
    ensures NodeSum(pending') < NodeSum(pending)
  {
    PendingPop(pending, MaxFirst, q, k);
    var popped := Pop(pending, MaxFirst, PendingKey);
    assert popped.0 in [popped.0];
    var leaf;
    ghost var pr;
    pending', leaf, pr := PopulatePending(q, PosInf, popped.1, popped.0.node, k);
    LeafPairs(leaf, k);
    ev' := ev + LeafCandidates(q, leaf);
    ExtendEntries(q, ev, leaf);
    ExpandAccount(PendingEntries(pending), EvEntries(ev), PendingEntries(popped.1),
                  Entries(popped.0.node), PendingEntries(pending'), Entries(leaf), EvEntries(ev'));
    PendingOrdered(pending', q, k);
  }

  /** `evaluated.pop()`: the candidate with the greatest negated distance, the nearest. */
  method PopNearest<T(==)>(ev: seq<Candidate<T>>) returns (c: Candidate<T>, rest: seq<Candidate<T>>)
    requires |ev| > 0
    ensures c in ev && forall j :: 0 <= j < |ev| ==> c.distance <= ev[j].distance
    ensures EvEntries(rest) + multiset{c.entry} == EvEntries(ev)
    ensures forall x | x in rest :: x in ev
  {
    assert Ordered(ev, NegKey);
    var popped := Pop(ev, MaxFirst, NegKey);
    c, rest := popped.0, popped.1;
    forall j | 0 <= j < |ev|
      ensures c.distance <= ev[j].distance
    {
      assert Le(NegKey(ev[j]), NegKey(c));
    }
    ghost var m := MaxIndex(ev, NegKey);
    assert popped == (ev[m], RemoveIndex(ev, m));
    Yield(ev, m);
  }

  /** Handing out the nearest entry keeps the invariant, with that entry yielded. */
  lemma Advance<T>(t: KdTree<T>, q: seq<real>, k: nat, pending: seq<Pending<T>>, rest: seq<Candidate<T>>,
                   ys: seq<Entry<T>>, c: Candidate<T>, left: multiset<Entry<T>>)
    requires |q| == k && Valid(t, k) && PendingOK(pending, q, k) && Ordered(pending, PendingKey)
    requires forall x | x in rest :: x.distance == Dist(q, x.entry.0)
    requires Entries(t) == left + multiset(ys) && left == PendingEntries(pending) + EvEntries(rest) + multiset{c.entry}
    requires InOrder(q, ys) && (|ys| > 0 ==> forall x | x in left :: Dist(q, ys[|ys| - 1].0) <= Dist(q, x.0))
    requires c.distance == Dist(q, c.entry.0) && forall x | x in left :: c.distance <= Dist(q, x.0)
    ensures IterInv(t, q, k, pending, rest, ys + [c.entry])
  {
    YieldedKeepsOrder(q, ys, c.entry, left);
    assert multiset(ys + [c.entry]) == multiset(ys) + multiset{c.entry};
  }

  /** Handing out `c` moves its entry from the evaluated heap to the yielded ones. */
  lemma Yield<T>(ev: seq<Candidate<T>>, m: nat)
    requires m < |ev|
    ensures EvEntries(RemoveIndex(ev, m)) + multiset{ev[m].entry} == EvEntries(ev)
  {
    var es, rs := EntriesOf(ev), EntriesOf(RemoveIndex(ev, m));
    assert RemoveIndex(ev, m) == ev[..m] + ev[m + 1..];
    assert rs == es[..m] + es[m + 1..];
    assert es == es[..m] + [es[m]] + es[m + 1..];
  }

  lemma YieldedKeepsOrder<T>(q: seq<real>, ys: seq<Entry<T>>, e: Entry<T>, left: multiset<Entry<T>>)
    requires InOrder(q, ys) && e in left
    requires |ys| > 0 ==> forall x | x in left :: Dist(q, ys[|ys| - 1].0) <= Dist(q, x.0)
    ensures InOrder(q, ys + [e])
  {
  }

  /** The loop of `next`: expand while the nearest pending box is no farther than the
    * nearest candidate (always, while there is no candidate). */
  method ExpandAll<T(==)>(q: seq<real>, pending: seq<Pending<T>>, ev: seq<Candidate<T>>,
                          ghost k: nat, ghost t: KdTree<T>, ghost ys: seq<Entry<T>>)
      returns (pending': seq<Pending<T>>, ev': seq<Candidate<T>>)
    requires IterInv(t, q, k, pending, ev, ys)
    ensures IterInv(t, q, k, pending', ev', ys)
    ensures PendingEntries(pending') + EvEntries(ev') == PendingEntries(pending) + EvEntries(ev)
    ensures |pending'| == 0 || !Le(Neg(pending'[MaxIndex(pending', PendingKey)].distance), EvPeek(ev'))
  {
    pending', ev' := pending, ev;
    while |pending'| > 0 && Le(Neg(pending'[MaxIndex(pending', PendingKey)].distance), EvPeek(ev'))
      invariant IterInv(t, q, k, pending', ev', ys)
      invariant PendingEntries(pending') + EvEntries(ev') == PendingEntries(pending) + EvEntries(ev)
      decreases NodeSum(pending')
    {
      pending', ev' := Expand(q, pending', ev', k, t, ys);
    }
  }

  /** What one call of `next` does to the entries `left` not yielded yet: `None` when
    * there are none; otherwise one entry nearest the query among them is yielded, with its
    * distance and value, and leaves `left`. */
  ghost predicate Handed<T>(q: seq<real>, left: multiset<Entry<T>>, left': multiset<Entry<T>>,
                            r: Option<(real, T)>, ys: seq<Entry<T>>, ys': seq<Entry<T>>) {
    (r.None? <==> left == multiset{}) &&
    (r.None? ==> ys' == ys && left' == left) &&
    (r.Some? ==>
       |ys'| == |ys| + 1 && ys'[..|ys|] == ys &&
       var e := ys'[|ys|];
       e in left && r.value == (Dist(q, e.0), e.1) && left' == left - multiset{e} &&
       forall x | x in left :: Dist(q, e.0) <= Dist(q, x.0))
  }

  lemma HandedAgain<T>(q: seq<real>, left: multiset<Entry<T>>, l: multiset<Entry<T>>, left': multiset<Entry<T>>,
                       l': multiset<Entry<T>>, r: Option<(real, T)>, ys: seq<Entry<T>>, ys': seq<Entry<T>>)
    requires Handed(q, left, left', r, ys, ys') && left == l && left' == l'
    ensures Handed(q, l, l', r, ys, ys')
  {
  }

  /** A step of `next` on the frontier is a step on the entries not yet yielded. */
  lemma HandedRemaining<T>(t: KdTree<T>, q: seq<real>, k: nat, pending: seq<Pending<T>>, ev: seq<Candidate<T>>,
                           ys: seq<Entry<T>>, pending': seq<Pending<T>>, ev': seq<Candidate<T>>,
                           ys': seq<Entry<T>>, r: Option<(real, T)>)
    requires IterInv(t, q, k, pending, ev, ys) && IterInv(t, q, k, pending', ev', ys')
    requires Handed(q, PendingEntries(pending) + EvEntries(ev), PendingEntries(pending') + EvEntries(ev'), r, ys, ys')
    ensures Handed(q, Entries(t) - multiset(ys), Entries(t) - multiset(ys'), r, ys, ys')
  {
    RemainingIsFrontier(t, q, k, pending, ev, ys);
    RemainingIsFrontier(t, q, k, pending', ev', ys');
    HandedAgain(q, PendingEntries(pending) + EvEntries(ev), Entries(t) - multiset(ys),
                PendingEntries(pending') + EvEntries(ev'), Entries(t) - multiset(ys'), r, ys, ys');
  }

  /** `next` on the iterator's state: the loop, then `evaluated.pop()`. */
  method NextStep<T(==)>(q: seq<real>, pending: seq<Pending<T>>, ev: seq<Candidate<T>>,
                         ghost k: nat, ghost t: KdTree<T>, ghost ys: seq<Entry<T>>)
      returns (pending': seq<Pending<T>>, ev': seq<Candidate<T>>, r: Option<(real, T)>, ghost ys': seq<Entry<T>>)
    requires IterInv(t, q, k, pending, ev, ys)
    ensures IterInv(t, q, k, pending', ev', ys')
    ensures Handed(q, PendingEntries(pending) + EvEntries(ev), PendingEntries(pending') + EvEntries(ev'), r, ys, ys')
  {
    ghost var left := PendingEntries(pending) + EvEntries(ev);
    pending', ev' := ExpandAll(q, pending, ev, k, t, ys);
    if |ev'| == 0 {
      NothingLeft(pending', ev');
      r, ys' := None, ys;
    } else {
      var c, rest := PopNearest(ev');
      NearestCandidate(q, k, pending', ev', c);
      Advance(t, q, k, pending', rest, ys, c, left);
      TakeAccount(left, PendingEntries(pending'), EvEntries(rest), c.entry);
      ev', ys' := rest, ys + [c.entry];
      r := Some((c.distance, c.entry.1));
      HandedTake(q, left, PendingEntries(pending') + EvEntries(ev'), ys, c);
    }
  }

  /** Yielding a nearest remaining entry, and dropping it from what is left, is a step
    * of `next`. */
  lemma HandedTake<T>(q: seq<real>, left: multiset<Entry<T>>, left': multiset<Entry<T>>, ys: seq<Entry<T>>,
                      c: Candidate<T>)
    requires c.entry in left && left' == left - multiset{c.entry} && c.distance == Dist(q, c.entry.0)
    requires forall x | x in left :: c.distance <= Dist(q, x.0)
    ensures Handed(q, left, left', Some((c.distance, c.entry.1)), ys, ys + [c.entry])
  {
    assert (ys + [c.entry])[..|ys|] == ys;
  }

  lemma TakeAccount<X>(left: multiset<X>, pe: multiset<X>, rest: multiset<X>, e: X)
    requires left == pe + (rest + multiset{e})
    ensures pe + rest == left - multiset{e} && e in left
  {
  }

  /** Between calls, the entries not yielded are those beneath the frontier and in the
    * evaluated heap. */
  lemma RemainingIsFrontier<T>(t: KdTree<T>, q: seq<real>, k: nat, pending: seq<Pending<T>>,
                               ev: seq<Candidate<T>>, ys: seq<Entry<T>>)
    requires IterInv(t, q, k, pending, ev, ys)
    ensures Entries(t) - multiset(ys) == PendingEntries(pending) + EvEntries(ev)
  {
  }

  /** `NearestIter`: the query point, the frontier heap and the evaluated heap. The
    * tree, the dimension and the entries yielded so far are ghost. */
  class NearestIter<T(==)> {
    const point: seq<real>
    var pending: seq<Pending<T>>
    var evaluated: seq<Candidate<T>>
    ghost const tree: KdTree<T>
    ghost const k: nat
    ghost var yielded: seq<Entry<T>>

    /** The entries of the tree not yielded yet. */
    ghost function Remaining(): multiset<Entry<T>>
      reads this
    {
      Entries(tree) - multiset(yielded)
    }

    ghost predicate Valid()
      reads this
    {
      IterInv(tree, point, k, pending, evaluated, yielded)
    }

    /** The state `iter_nearest` builds: the root on the frontier, nothing evaluated. */
    constructor (t: KdTree<T>, q: seq<real>, ghost dim: nat)
      requires Tree.Valid(t, dim) && |q| == dim
      ensures Valid() && tree == t && point == q && yielded == []
      ensures Remaining() == Entries(t)
    {
      point, tree, k := q, t, dim;
      pending, evaluated, yielded := [Pending(Fin(0.0), t)], [], [];
      new;
      assert [Pending(Fin(0.0), t)][..0] == [];
      assert EntriesOf<T>([]) == [];
      PendingOrdered(pending, q, dim);
    }

    /** `next`: every entry comes out exactly once, nearest first; `None` means every
      * entry has been yielded. */
    method Next() returns (r: Option<(real, T)>)
      requires Valid()
      modifies this
      ensures Valid()
      ensures Handed(point, old(Remaining()), Remaining(), r, old(yielded), yielded)
    {
      var p0, e0 := pending, evaluated;
      ghost var y0 := yielded;
      pending, evaluated, r, yielded := NextStep(point, p0, e0, k, tree, y0);
      HandedRemaining(tree, point, k, p0, e0, y0, pending, evaluated, yielded, r);
    }
  }

  /** `iter_nearest`: a point with a non-finite coordinate is refused; otherwise the
    * iterator starts with the root on the frontier and nothing yielded. */
  method IterNearest<T(==)>(t: KdTree<T>, p: seq<Float>, ghost k: nat) returns (r: Result<NearestIter<T>>)
    requires Valid(t, k) && |p| == k
    ensures r.Ok? <==> AllFinite(p)
    ensures r.Err? ==> r.error == NonFiniteCoordinate
    ensures r.Ok? ==> fresh(r.value) && r.value.Valid() && r.value.tree == t
    ensures r.Ok? ==> r.value.point == Reals(p) && r.value.yielded == [] && r.value.Remaining() == Entries(t)
  {
    var checked := CheckPoint(p);
    if checked.Err? {
      return Err(checked.error);
    }
    var it := new NearestIter(t, Reals(p), k);
    r := Ok(it);
  }
}
