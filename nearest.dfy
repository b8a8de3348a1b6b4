/** The heap-driven queries of src/kiddo.rs: `nearest`, `within_impl`, `within` and
  * `within_unsorted`, all driven by `nearest_step`. The frontier is a max-heap on the
  * negated box distance, so the nearest box is expanded first; the candidates found in
  * leaves go to a max-heap on distance bounded to `num` entries. */
module Nearest {
  import opened Floats
  import opened Distance
  import opened Tree
  import opened Stacks
  import opened Frontier

  /** A `HeapElement` over a stored value: its distance to the query, and the entry
    * (the point is carried along to state which entry a distance belongs to). */
  datatype Candidate<T> = Candidate(distance: real, entry: Entry<T>)

  function CandKey<T>(c: Candidate<T>): Float {
    Fin(c.distance)
  }

  /** The distance at the top of the candidate heap: the greatest one. */
  function MaxD<T>(ev: seq<Candidate<T>>): (d: real)
    requires |ev| > 0
    ensures forall c | c in ev :: c.distance <= d
    ensures exists c | c in ev :: c.distance == d
  {
    assert Ordered(ev, CandKey);
    var m := MaxIndex(ev, CandKey);
    forall c | c in ev
      ensures c.distance <= ev[m].distance
    {
      var j :| 0 <= j < |ev| && ev[j] == c;
      assert Le(CandKey(ev[j]), CandKey(ev[m]));
    }
    assert ev[m] in ev;
    ev[m].distance
  }

  function EntriesOf<T>(ev: seq<Candidate<T>>): (s: seq<Entry<T>>)
    ensures |s| == |ev| && forall i :: 0 <= i < |ev| ==> s[i] == ev[i].entry
  {
    seq(|ev|, i requires 0 <= i < |ev| => ev[i].entry)
  }

  function EvEntries<T(==)>(ev: seq<Candidate<T>>): multiset<Entry<T>> {
    multiset(EntriesOf(ev))
  }

  /** What the candidate heap holds after the entries `seen` have been folded in: at most
    * `num` candidates, each an entry of `seen` with its true distance, within `maxDist`;
    * every seen entry left out lies beyond `maxDist`, or the heap is full and the entry
    * lies no nearer than the heap's top. */
  predicate EvalOK<T(==)>(ev: seq<Candidate<T>>, seen: multiset<Entry<T>>, q: seq<real>, num: nat, maxDist: Float) {
    |ev| <= num &&
    (forall c | c in ev :: c.distance == Dist(q, c.entry.0) && Le(Fin(c.distance), maxDist)) &&
    EvEntries(ev) <= seen &&
    (forall e | e in seen - EvEntries(ev) ::
       !Le(Fin(Dist(q, e.0)), maxDist) || (|ev| == num && |ev| > 0 && Dist(q, e.0) >= MaxD(ev)))
  }

  /** Entries left out of a search because their subtree lies beyond `maxDist`. */
  predicate PrunedOK<T(==)>(pruned: multiset<Entry<T>>, q: seq<real>, maxDist: Float) {
    forall e | e in pruned :: !Le(Fin(Dist(q, e.0)), maxDist)
  }

  /** The state of a heap-driven search of `t`: the frontier, the candidates, and the
    * seen and pruned entries account for every entry of `t`. */
  predicate SearchInv<T(==)>(t: KdTree<T>, q: seq<real>, k: nat, num: nat, maxDist: Float,
                             pending: seq<Pending<T>>, ev: seq<Candidate<T>>,
                             seen: multiset<Entry<T>>, pruned: multiset<Entry<T>>) {
    PendingOK(pending, q, k) && EvalOK(ev, seen, q, num, maxDist) && PrunedOK(pruned, q, maxDist) &&
    Entries(t) == PendingEntries(pending) + seen + pruned
  }

  /** A candidate the fold drops: beyond `maxDist`, or no nearer than a full heap's top. */
  lemma OfferDiscard<T>(ev: seq<Candidate<T>>, seen: multiset<Entry<T>>, c: Candidate<T>,
                        q: seq<real>, num: nat, maxDist: Float)
    requires EvalOK(ev, seen, q, num, maxDist) && num >= 1
    requires c.distance == Dist(q, c.entry.0)
    requires !Le(Fin(c.distance), maxDist) || (|ev| == num && c.distance >= MaxD(ev))
    ensures EvalOK(ev, seen + multiset{c.entry}, q, num, maxDist)
  {
    assert (seen + multiset{c.entry}) - EvEntries(ev) == (seen - EvEntries(ev)) + multiset{c.entry};
  }

  /** A candidate within `maxDist` pushed onto a heap with room. */
  lemma OfferPush<T>(ev: seq<Candidate<T>>, seen: multiset<Entry<T>>, c: Candidate<T>,
                     q: seq<real>, num: nat, maxDist: Float)
    requires EvalOK(ev, seen, q, num, maxDist) && |ev| < num
    requires c.distance == Dist(q, c.entry.0) && Le(Fin(c.distance), maxDist)
    ensures EvalOK(ev + [c], seen + multiset{c.entry}, q, num, maxDist)
  {
    assert EntriesOf(ev + [c]) == EntriesOf(ev) + [c.entry];
    assert (seen + multiset{c.entry}) - EvEntries(ev + [c]) == seen - EvEntries(ev);
  }

  /** Replacing the top by a strictly nearer candidate lowers the top, and the entry it
    * pushes out lies no nearer than the new top. */
  lemma OfferReplace<T>(ev: seq<Candidate<T>>, seen: multiset<Entry<T>>, c: Candidate<T>,
                        q: seq<real>, num: nat, maxDist: Float, m: nat)
    requires EvalOK(ev, seen, q, num, maxDist) && num >= 1 && |ev| >= num
    requires c.distance == Dist(q, c.entry.0) && Le(Fin(c.distance), maxDist)
    requires 0 <= m < |ev| && m == MaxIndex(ev, CandKey) && c.distance < ev[m].distance
    ensures EvalOK(ev[m := c], seen + multiset{c.entry}, q, num, maxDist)
  {
    ReplaceElems(ev, c, m);
    ReplaceLowersTop(ev, c, m);
    ReplaceLeftOut(ev, seen, c, m);
  }

  lemma ReplaceElems<T>(ev: seq<Candidate<T>>, c: Candidate<T>, m: nat)
    requires 0 <= m < |ev|
    ensures forall x | x in ev[m := c] :: x == c || x in ev
  {
    forall x | x in ev[m := c]
      ensures x == c || x in ev
    {
      var j :| 0 <= j < |ev| && ev[m := c][j] == x;
      if j != m {
        assert ev[j] in ev;
      }
    }
  }

  lemma ReplaceLowersTop<T>(ev: seq<Candidate<T>>, c: Candidate<T>, m: nat)
    requires 0 <= m < |ev| && m == MaxIndex(ev, CandKey) && c.distance < ev[m].distance
    ensures ev[m].distance == MaxD(ev)
    ensures MaxD(ev[m := c]) <= MaxD(ev)
  {
    var ev' := ev[m := c];
    assert ev[m] in ev;
    forall x | x in ev'
      ensures x.distance <= MaxD(ev)
    {
      var j :| 0 <= j < |ev'| && ev'[j] == x;
      if j != m {
        assert ev[j] in ev;
      }
    }
  }

  /** The entries left out after a replacement are those left out before, plus the
    * entry that was at the top. */
  lemma ReplaceLeftOut<T>(ev: seq<Candidate<T>>, seen: multiset<Entry<T>>, c: Candidate<T>, m: nat)
    requires 0 <= m < |ev| && EvEntries(ev) <= seen
    ensures EvEntries(ev[m := c]) <= seen + multiset{c.entry}
    ensures (seen + multiset{c.entry}) - EvEntries(ev[m := c]) == (seen - EvEntries(ev)) + multiset{ev[m].entry}
  {
    assert EntriesOf(ev[m := c]) == EntriesOf(ev)[m := c.entry];
  }

  /** One candidate through the fold of `nearest_step`: kept if within `maxDist` while
    * the heap has room, otherwise it replaces the top when strictly nearer. */
  method Offer<T(==)>(ev: seq<Candidate<T>>, c: Candidate<T>, num: nat, maxDist: Float,
                      ghost q: seq<real>, ghost seen: multiset<Entry<T>>)
      returns (ev': seq<Candidate<T>>)
    requires EvalOK(ev, seen, q, num, maxDist) && num >= 1
    requires c.distance == Dist(q, c.entry.0)
    ensures EvalOK(ev', seen + multiset{c.entry}, q, num, maxDist)
  {
    ev' := ev;
    if !Le(Fin(c.distance), maxDist) {
      OfferDiscard(ev, seen, c, q, num, maxDist);
    } else if |ev| < num {
      OfferPush(ev, seen, c, q, num, maxDist);
      ev' := ev + [c];
    } else {
      var m := MaxIndex(ev, CandKey);
      if c.distance < ev[m].distance {
        OfferReplace(ev, seen, c, q, num, maxDist, m);
        ev' := ev[m := c];
      } else {
        OfferDiscard(ev, seen, c, q, num, maxDist);
      }
    }
  }

  /** The leaf half of `nearest_step`: every entry of the leaf, in storage order, is
    * offered to the candidate heap. */
  method EvaluateLeaf<T(==)>(q: seq<real>, num: nat, maxDist: Float, leaf: KdTree<T>, ev: seq<Candidate<T>>,
                             ghost seen: multiset<Entry<T>>)
      returns (ev': seq<Candidate<T>>)
    requires leaf.content.Leaf? && |leaf.content.points| == |leaf.content.bucket|
    requires num >= 1 || |leaf.content.points| == 0
    requires EvalOK(ev, seen, q, num, maxDist)
    ensures EvalOK(ev', seen + Entries(leaf), q, num, maxDist)
  {
    var ps, bs := leaf.content.points, leaf.content.bucket;
    ev' := EvaluatePoints(q, num, maxDist, ps, bs, ev, seen);
    assert Entries(leaf) == multiset(Zip(ps, bs));
  }

  /** The fold over a leaf's points and items, in storage order. */
  method EvaluatePoints<T(==)>(q: seq<real>, num: nat, maxDist: Float, ps: seq<seq<real>>, bs: seq<T>,
                               ev: seq<Candidate<T>>, ghost seen: multiset<Entry<T>>)
      returns (ev': seq<Candidate<T>>)
    requires |ps| == |bs| && (num >= 1 || |ps| == 0)
    requires EvalOK(ev, seen, q, num, maxDist)
    ensures EvalOK(ev', seen + multiset(Zip(ps, bs)), q, num, maxDist)
  {
    ev' := ev;
    ghost var acc := seen;
    assert Zip(ps[..0], bs[..0]) == [];
    for i := 0 to |ps|
      invariant acc == seen + multiset(Zip(ps[..i], bs[..i]))
      invariant EvalOK(ev', acc, q, num, maxDist)
    {
      ev', acc := OfferPoint(q, num, maxDist, ps, bs, i, ev', seen, acc);
    }
    assert ps[..|ps|] == ps && bs[..|bs|] == bs;
  }

  /** One turn of the leaf fold: the i-th point with its item is offered. */
  method OfferPoint<T(==)>(q: seq<real>, num: nat, maxDist: Float, ps: seq<seq<real>>, bs: seq<T>, i: nat,
                           ev: seq<Candidate<T>>, ghost seen: multiset<Entry<T>>, ghost acc: multiset<Entry<T>>)
      returns (ev': seq<Candidate<T>>, ghost acc': multiset<Entry<T>>)
    requires |ps| == |bs| && i < |ps| && num >= 1
    requires acc == seen + multiset(Zip(ps[..i], bs[..i])) && EvalOK(ev, acc, q, num, maxDist)
    ensures acc' == seen + multiset(Zip(ps[..i + 1], bs[..i + 1])) && EvalOK(ev', acc', q, num, maxDist)
  {
    var c := Candidate(Dist(q, ps[i]), (ps[i], bs[i]));
    ev' := Offer(ev, c, num, maxDist, q, acc);
    ZipPrefix(ps, bs, i);
    acc' := acc + multiset{c.entry};
  }

  lemma ZipPrefix<T>(ps: seq<seq<real>>, bs: seq<T>, i: nat)
    requires |ps| == |bs| && i < |ps|
    ensures multiset(Zip(ps[..i + 1], bs[..i + 1])) == multiset(Zip(ps[..i], bs[..i])) + multiset{(ps[i], bs[i])}
  {
    assert ps[..i + 1] == ps[..i] + [ps[i]] && bs[..i + 1] == bs[..i] + [bs[i]];
    ZipSnoc(ps[..i], bs[..i], ps[i], bs[i]);
  }

  lemma LeafPairs<T>(leaf: KdTree<T>, k: nat)
    requires Valid(leaf, k) && leaf.content.Leaf?
    ensures |leaf.content.points| == |leaf.content.bucket|
  {
  }

  /** `nearest_step`: pop the frontier node with the nearest box, descend from it to a
    * leaf (pushing the siblings within `maxDist`), then evaluate that leaf. The search
    * invariant is kept, and the frontier shrinks by at least one node. */
  method NearestStep<T(==)>(q: seq<real>, num: nat, maxDist: Float, pending: seq<Pending<T>>, ev: seq<Candidate<T>>,
                            ghost k: nat, ghost t: KdTree<T>, ghost seen: multiset<Entry<T>>, ghost pruned: multiset<Entry<T>>)
      returns (pending': seq<Pending<T>>, ev': seq<Candidate<T>>, ghost seen': multiset<Entry<T>>, ghost pruned': multiset<Entry<T>>)
    requires |q| == k && |pending| > 0 && (num >= 1 || Entries(t) == multiset{})
    requires SearchInv(t, q, k, num, maxDist, pending, ev, seen, pruned)
    ensures SearchInv(t, q, k, num, maxDist, pending', ev', seen', pruned')
    ensures NodeSum(pending') < NodeSum(pending)
  {
    PendingOrdered(pending, q, k);
    PendingPop(pending, MaxFirst, q, k);
    var popped := Pop(pending, MaxFirst, PendingKey);
    var top, rest := popped.0, popped.1;
    assert top in [top];
    var leaf;
    ghost var pr;
    pending', leaf, pr := PopulatePending(q, maxDist, rest, top.node, k);
    LeafPairs(leaf, k);
    if num == 0 {
      NoEntriesNoPoints(Entries(t), PendingEntries(pending), PendingEntries(rest), Entries(top.node),
                        PendingEntries(pending'), pr, seen, pruned, leaf);
    }
    ev' := EvaluateLeaf(q, num, maxDist, leaf, ev, seen);
    seen', pruned' := seen + Entries(leaf), pruned + pr;
    Account(Entries(t), PendingEntries(pending), PendingEntries(rest), Entries(top.node),
            PendingEntries(pending'), Entries(leaf), pr, seen, pruned);
  }

  /** The bookkeeping of one step: what the frontier loses to the popped node is found
    * again in the new frontier, the evaluated leaf and the pruned entries. */
  lemma Account<X>(all: multiset<X>, pe: multiset<X>, rest: multiset<X>, top: multiset<X>,
                   pe': multiset<X>, leaf: multiset<X>, pr: multiset<X>, seen: multiset<X>, pruned: multiset<X>)
    requires all == pe + seen + pruned && pe == rest + top
    requires pe' + leaf + pr == rest + top
    ensures all == pe' + (seen + leaf) + (pruned + pr)
  {
  }

  /** With nothing left to find, the leaf a step reaches holds no points. */
  lemma NoEntriesNoPoints<T>(all: multiset<Entry<T>>, pe: multiset<Entry<T>>, rest: multiset<Entry<T>>,
                             top: multiset<Entry<T>>, pe': multiset<Entry<T>>, pr: multiset<Entry<T>>,
                             seen: multiset<Entry<T>>, pruned: multiset<Entry<T>>, leaf: KdTree<T>)
    requires all == multiset{} && all == pe + seen + pruned && pe == rest + top
    requires pe' + Entries(leaf) + pr == rest + top
    requires leaf.content.Leaf? && |leaf.content.points| == |leaf.content.bucket|
    ensures |leaf.content.points| == 0
  {
    assert Entries(leaf) == multiset{};
    assert |EntrySeq(leaf)| == |leaf.content.points|;
  }

  /** The candidate heap drained in ascending order of distance (`into_sorted_vec`). */
  predicate Ascending<T>(s: seq<Candidate<T>>) {
    forall i, j | 0 <= i < j < |s| :: s[i].distance <= s[j].distance
  }

  function InsertByDistance<T>(c: Candidate<T>, s: seq<Candidate<T>>): (r: seq<Candidate<T>>)
    requires Ascending(s)
    ensures Inserted(c, s, r)
  {
    if |s| == 0 || c.distance <= s[0].distance then
      InsertHere(c, s);
      [c] + s
    else
      var r' := InsertByDistance(c, s[1..]);
      InsertFurther(c, s, r');
      [s[0]] + r'
  }

  /** `r` is `s` with `c` inserted, in ascending order. */
  ghost predicate Inserted<T>(c: Candidate<T>, s: seq<Candidate<T>>, r: seq<Candidate<T>>) {
    Ascending(r) && |r| == |s| + 1 &&
    (forall x | x in r :: x == c || x in s) &&
    multiset(r) == multiset(s) + multiset{c} &&
    EvEntries(r) == EvEntries(s) + multiset{c.entry}
  }

  lemma InsertHere<T>(c: Candidate<T>, s: seq<Candidate<T>>)
    requires Ascending(s) && (|s| == 0 || c.distance <= s[0].distance)
    ensures Inserted(c, s, [c] + s)
  {
    ConsEntries(c, s);
    if |s| > 0 {
      assert s == [s[0]] + s[1..];
      AscendingHead(s);
    }
    ConsAscending(c, s);
  }

  lemma InsertFurther<T>(c: Candidate<T>, s: seq<Candidate<T>>, r': seq<Candidate<T>>)
    requires Ascending(s) && |s| > 0 && s[0].distance < c.distance
    requires Inserted(c, s[1..], r')
    ensures Inserted(c, s, [s[0]] + r')
  {
    ConsEntries(s[0], s[1..]);
    ConsEntries(s[0], r');
    assert s == [s[0]] + s[1..];
    AscendingHead(s);
    ConsAscending(s[0], r');
  }

  lemma ConsEntries<T>(c: Candidate<T>, s: seq<Candidate<T>>)
    ensures EvEntries([c] + s) == multiset{c.entry} + EvEntries(s)
  {
    assert EntriesOf([c] + s) == [c.entry] + EntriesOf(s);
  }

  lemma AscendingHead<T>(s: seq<Candidate<T>>)
    requires Ascending(s) && |s| > 0
    ensures forall x | x in s[1..] :: s[0].distance <= x.distance
  {
    forall x | x in s[1..]
      ensures s[0].distance <= x.distance
    {
      var j :| 0 <= j < |s[1..]| && s[1..][j] == x;
      assert s[j + 1] == x;
    }
  }

  lemma ConsAscending<T>(c: Candidate<T>, s: seq<Candidate<T>>)
    requires Ascending(s) && forall x | x in s :: c.distance <= x.distance
    ensures Ascending([c] + s)
  {
    forall i, j | 0 <= i < j < |[c] + s|
      ensures ([c] + s)[i].distance <= ([c] + s)[j].distance
    {
      assert ([c] + s)[j] == s[j - 1];
      assert s[j - 1] in s;
    }
  }

  function SortByDistance<T>(s: seq<Candidate<T>>): (r: seq<Candidate<T>>)
    ensures Ascending(r) && |r| == |s|
    ensures forall x | x in r :: x in s
    ensures multiset(r) == multiset(s)
    ensures EvEntries(r) == EvEntries(s)
  {
    if |s| == 0 then []
    else
      assert s == [s[0]] + s[1..];
      ConsEntries(s[0], s[1..]);
      InsertByDistance(s[0], SortByDistance(s[1..]))
  }

  /** `Into<(A, &T)>` of a heap element. */
  function ToPairs<T>(s: seq<Candidate<T>>): (r: seq<(real, T)>)
    ensures |r| == |s| && forall i | 0 <= i < |s| :: r[i] == (s[i].distance, s[i].entry.1)
  {
    seq(|s|, i requires 0 <= i < |s| => (s[i].distance, s[i].entry.1))
  }

  /** A query starts with the whole tree pending under key 0 and nothing evaluated. */
  lemma SearchStart<T>(t: KdTree<T>, q: seq<real>, k: nat, num: nat, maxDist: Float)
    requires Valid(t, k) && |q| == k
    ensures SearchInv(t, q, k, num, maxDist, [Pending(Fin(0.0), t)], [], multiset{}, multiset{})
    ensures Ordered([Pending(Fin(0.0), t)], PendingKey)
    ensures |Entries(t)| == t.size
  {
    assert [Pending(Fin(0.0), t)][..0] == [];
    assert EvEntries<T>([]) == multiset{};
    PendingOrdered([Pending(Fin(0.0), t)], q, k);
  }

  /** The top of a heap (`peek`) carries the greatest key. */
  lemma PeekIsMax<T>(ps: seq<Pending<T>>)
    requires |ps| > 0 && Ordered(ps, PendingKey)
    ensures forall x | x in ps :: Le(x.distance, ps[MaxIndex(ps, PendingKey)].distance)
  {
    var m := MaxIndex(ps, PendingKey);
    forall x | x in ps
      ensures Le(x.distance, ps[m].distance)
    {
      var j :| 0 <= j < |ps| && ps[j] == x;
      assert Le(PendingKey(ps[j]), PendingKey(ps[m]));
    }
  }

  /** Once the nearest pending box lies beyond a bound, so does every pending entry. */
  lemma PendingBeyond<T>(ps: seq<Pending<T>>, q: seq<real>, k: nat, bound: Float, e: Entry<T>)
    requires |q| == k && |ps| > 0 && PendingOK(ps, q, k) && Ordered(ps, PendingKey)
    requires !Le(Neg(ps[MaxIndex(ps, PendingKey)].distance), bound)
    requires e in PendingEntries(ps)
    ensures !Le(Fin(Dist(q, e.0)), bound)
  {
    var top := ps[MaxIndex(ps, PendingKey)].distance;
    PeekIsMax(ps);
    FrontierLowerBound(ps, q, k, top, e);
    LtIsStrictOrder(Neg(top), Fin(Dist(q, e.0)), bound);
  }

  /** A multiset strictly inside another is smaller. */
  lemma FullLeavesNothing<X>(a: multiset<X>, b: multiset<X>)
    requires a <= b && |b| <= |a|
    ensures b - a == multiset{}
  {
    assert b == a + (b - a);
  }

  lemma InEvEntries<T>(ev: seq<Candidate<T>>, e: Entry<T>)
    requires e in EvEntries(ev)
    ensures exists c | c in ev :: c.entry == e
  {
    var i :| 0 <= i < |ev| && EntriesOf(ev)[i] == e;
    assert ev[i] in ev;
  }

  /** How `nearest` stops: the candidate heap is full, and every entry it does not hold
    * lies no nearer than its top. */
  lemma NearestExit<T>(t: KdTree<T>, q: seq<real>, k: nat, n: nat, pending: seq<Pending<T>>, ev: seq<Candidate<T>>,
                       seen: multiset<Entry<T>>, pruned: multiset<Entry<T>>)
    requires |q| == k && 1 <= n <= |Entries(t)|
    requires SearchInv(t, q, k, n, PosInf, pending, ev, seen, pruned) && Ordered(pending, PendingKey)
    requires |pending| == 0 || (|ev| >= n && !Le(Neg(pending[MaxIndex(pending, PendingKey)].distance), Fin(MaxD(ev))))
    ensures |ev| == n && EvEntries(ev) <= Entries(t)
    ensures forall e | e in Entries(t) - EvEntries(ev) :: MaxD(ev) <= Dist(q, e.0)
  {
    NothingPrunedAtInfinity(pruned, q);
    if |ev| < n {
      NearestFull(t, q, k, n, pending, ev, seen, pruned);
    }
    forall e | e in Entries(t) - EvEntries(ev)
      ensures MaxD(ev) <= Dist(q, e.0)
    {
      if e in PendingEntries(pending) {
        PendingBeyond(pending, q, k, Fin(MaxD(ev)), e);
      } else {
        assert e in seen - EvEntries(ev);
      }
    }
  }

  lemma NothingPrunedAtInfinity<T>(pruned: multiset<Entry<T>>, q: seq<real>)
    requires PrunedOK(pruned, q, PosInf)
    ensures pruned == multiset{}
  {
    if pruned != multiset{} {
      assert false;
    }
  }

  /** Without a bound, a search that has seen everything has filled its heap. */
  lemma NearestFull<T>(t: KdTree<T>, q: seq<real>, k: nat, n: nat, pending: seq<Pending<T>>, ev: seq<Candidate<T>>,
                       seen: multiset<Entry<T>>, pruned: multiset<Entry<T>>)
    requires n <= |Entries(t)| && |pending| == 0 && pruned == multiset{}
    requires SearchInv(t, q, k, n, PosInf, pending, ev, seen, pruned)
    ensures |ev| == n
  {
    assert Entries(t) == seen;
    assert |EvEntries(ev)| == |ev|;
    ShortLeavesOut(EvEntries(ev), seen);
  }

  lemma ShortLeavesOut<X>(a: multiset<X>, b: multiset<X>)
    requires a <= b
    ensures |a| < |b| ==> exists e :: e in b - a
  {
    assert b == a + (b - a);
  }

  /** The answer of `nearest`, as it is stated of the sorted candidates. */
  ghost predicate NearestOK<T>(t: KdTree<T>, q: seq<real>, n: nat, r: seq<(real, T)>, picked: seq<Entry<T>>) {
    |r| == n && |picked| == n &&
    (forall i | 0 <= i < n :: r[i] == (Dist(q, picked[i].0), picked[i].1)) &&
    (forall i, j | 0 <= i < j < n :: r[i].0 <= r[j].0) &&
    multiset(picked) <= Entries(t) &&
    (forall e, i | e in Entries(t) - multiset(picked) && 0 <= i < n :: r[i].0 <= Dist(q, e.0))
  }

  lemma {:induction false} NearestResult<T>(t: KdTree<T>, q: seq<real>, n: nat, ev: seq<Candidate<T>>)
    requires |ev| == n >= 1 && EvEntries(ev) <= Entries(t)
    requires forall c | c in ev :: c.distance == Dist(q, c.entry.0)
    requires forall e | e in Entries(t) - EvEntries(ev) :: MaxD(ev) <= Dist(q, e.0)
    ensures NearestOK(t, q, n, ToPairs(SortByDistance(ev)), EntriesOf(SortByDistance(ev)))
  {
    var sorted := SortByDistance(ev);
    var r, picked := ToPairs(sorted), EntriesOf(sorted);
    forall i | 0 <= i < n
      ensures r[i] == (Dist(q, picked[i].0), picked[i].1) && r[i].0 <= MaxD(ev)
    {
      assert sorted[i] in sorted;
    }
  }

  /** `nearest`: the `num` entries nearest to the point (all of them when the tree holds
    * fewer), nearest first, each with its squared distance. */
  method Nearest<T(==)>(t: KdTree<T>, p: seq<Float>, num: nat, ghost k: nat)
      returns (r: Result<seq<(real, T)>>, ghost picked: seq<Entry<T>>)
    requires Valid(t, k) && |p| == k
    ensures r.Ok? <==> AllFinite(p)
    ensures r.Err? ==> r.error == NonFiniteCoordinate
    ensures r.Ok? ==> NearestOK(t, Reals(p), if num < t.size then num else t.size, r.value, picked)
  {
    var checked := CheckPoint(p);
    if checked.Err? {
      return Err(checked.error), [];
    }
    var q := Reals(p);
    var n := if num < t.size then num else t.size;
    if n == 0 {
      return Ok([]), [];
    }
    var pending := [Pending(Fin(0.0), t)];
    var ev: seq<Candidate<T>> := [];
    ghost var seen: multiset<Entry<T>>, pruned: multiset<Entry<T>> := multiset{}, multiset{};
    SearchStart(t, q, k, n, PosInf);
    while |pending| > 0 && (|ev| < n || Le(Neg(pending[MaxIndex(pending, PendingKey)].distance), Fin(MaxD(ev))))
      invariant SearchInv(t, q, k, n, PosInf, pending, ev, seen, pruned)
      invariant Ordered(pending, PendingKey)
      decreases NodeSum(pending)
    {
      pending, ev, seen, pruned := NearestStep(q, n, PosInf, pending, ev, k, t, seen, pruned);
      PendingOrdered(pending, q, k);
    }
    NearestExit(t, q, k, n, pending, ev, seen, pruned);
    NearestResult(t, q, n, ev);
    var sorted := SortByDistance(ev);
    r, picked := Ok(ToPairs(sorted)), EntriesOf(sorted);
  }

  /** The heap `within_impl` returns: every entry within `radius`, as many times as the
    * tree holds it, with its distance, and nothing else (an entry in neither multiset
    * counts 0 in both). */
  ghost predicate WithinOK<T>(t: KdTree<T>, q: seq<real>, radius: Float, ev: seq<Candidate<T>>) {
    (forall c | c in ev :: c.distance == Dist(q, c.entry.0)) &&
    forall e | e in Entries(t) + EvEntries(ev) :: EvEntries(ev)[e] == if Le(Fin(Dist(q, e.0)), radius) then Entries(t)[e] else 0
  }

  /** How `within_impl` stops: every entry within `radius` has been taken. */
  lemma WithinExit<T>(t: KdTree<T>, q: seq<real>, k: nat, radius: Float, pending: seq<Pending<T>>, ev: seq<Candidate<T>>,
                      seen: multiset<Entry<T>>, pruned: multiset<Entry<T>>)
    requires |q| == k && |Entries(t)| == t.size
    requires SearchInv(t, q, k, t.size, radius, pending, ev, seen, pruned) && Ordered(pending, PendingKey)
    requires |pending| == 0 || !Le(Neg(pending[MaxIndex(pending, PendingKey)].distance), radius)
    ensures WithinOK(t, q, radius, ev)
  {
    forall e | e in Entries(t) + EvEntries(ev)
      ensures EvEntries(ev)[e] == if Le(Fin(Dist(q, e.0)), radius) then Entries(t)[e] else 0
    {
      if Le(Fin(Dist(q, e.0)), radius) {
        WithinTaken(t, q, k, radius, pending, ev, seen, pruned, e);
      } else if e in EvEntries(ev) {
        InEvEntries(ev, e);
        assert false;
      }
    }
  }

  lemma WithinTaken<T>(t: KdTree<T>, q: seq<real>, k: nat, radius: Float, pending: seq<Pending<T>>, ev: seq<Candidate<T>>,
                       seen: multiset<Entry<T>>, pruned: multiset<Entry<T>>, e: Entry<T>)
    requires |q| == k && |Entries(t)| == t.size
    requires SearchInv(t, q, k, t.size, radius, pending, ev, seen, pruned) && Ordered(pending, PendingKey)
    requires |pending| == 0 || !Le(Neg(pending[MaxIndex(pending, PendingKey)].distance), radius)
    requires Le(Fin(Dist(q, e.0)), radius)
    ensures EvEntries(ev)[e] == Entries(t)[e]
  {
    assert e !in pruned;
    if e in PendingEntries(pending) {
      PendingBeyond(pending, q, k, radius, e);
    }
    if |ev| == t.size {
      assert |EvEntries(ev)| == |ev|;
      assert |seen| <= |Entries(t)|;
      FullLeavesNothing(EvEntries(ev), seen);
    }
  }

  /** `within_impl`: check the point, then run `nearest_step` with room for every entry
    * and `radius` as the bound, until the nearest pending box lies beyond `radius`. */
  method WithinImpl<T(==)>(t: KdTree<T>, p: seq<Float>, radius: Float, ghost k: nat)
      returns (r: Result<seq<Candidate<T>>>)
    requires Valid(t, k) && |p| == k
    ensures r.Ok? <==> AllFinite(p)
    ensures r.Err? ==> r.error == NonFiniteCoordinate
    ensures r.Ok? ==> WithinOK(t, Reals(p), radius, r.value)
  {
    var checked := CheckPoint(p);
    if checked.Err? {
      return Err(checked.error);
    }
    var q := Reals(p);
    var pending := [Pending(Fin(0.0), t)];
    var ev: seq<Candidate<T>> := [];
    ghost var seen: multiset<Entry<T>>, pruned: multiset<Entry<T>> := multiset{}, multiset{};
    SearchStart(t, q, k, t.size, radius);
    while |pending| > 0 && Le(Neg(pending[MaxIndex(pending, PendingKey)].distance), radius)
      invariant SearchInv(t, q, k, t.size, radius, pending, ev, seen, pruned)
      invariant Ordered(pending, PendingKey)
      decreases NodeSum(pending)
    {
      pending, ev, seen, pruned := NearestStep(q, t.size, radius, pending, ev, k, t, seen, pruned);
      PendingOrdered(pending, q, k);
    }
    WithinExit(t, q, k, radius, pending, ev, seen, pruned);
    return Ok(ev);
  }

  /** A `within` answer: each returned pair is the distance and value of the entry picked
    * for it, and the picked entries are exactly those within `radius`. */
  ghost predicate WithinResult<T>(t: KdTree<T>, q: seq<real>, radius: Float, r: seq<(real, T)>, picked: seq<Entry<T>>) {
    |r| == |picked| &&
    (forall i | 0 <= i < |r| :: r[i] == (Dist(q, picked[i].0), picked[i].1)) &&
    forall e | e in Entries(t) + multiset(picked) :: multiset(picked)[e] == if Le(Fin(Dist(q, e.0)), radius) then Entries(t)[e] else 0
  }

  lemma WithinPairs<T>(t: KdTree<T>, q: seq<real>, radius: Float, ev: seq<Candidate<T>>, out: seq<Candidate<T>>)
    requires WithinOK(t, q, radius, ev)
    requires (forall c | c in out :: c in ev) && EvEntries(out) == EvEntries(ev)
    ensures WithinResult(t, q, radius, ToPairs(out), EntriesOf(out))
  {
    forall i | 0 <= i < |out|
      ensures ToPairs(out)[i] == (Dist(q, EntriesOf(out)[i].0), EntriesOf(out)[i].1)
    {
      assert out[i] in out;
    }
  }

  lemma EmptyTreeWithin<T>(t: KdTree<T>, q: seq<real>, radius: Float, k: nat)
    requires Valid(t, k) && t.size == 0
    ensures WithinResult(t, q, radius, [], [])
  {
    assert |EntrySeq(t)| == 0;
  }

  /** `within`: an empty tree answers at once (whatever the point); otherwise the heap of
    * `within_impl` drained nearest first. */
  method Within<T(==)>(t: KdTree<T>, p: seq<Float>, radius: Float, ghost k: nat)
      returns (r: Result<seq<(real, T)>>, ghost picked: seq<Entry<T>>)
    requires Valid(t, k) && |p| == k
    ensures r.Err? <==> t.size > 0 && !AllFinite(p)
    ensures r.Err? ==> r.error == NonFiniteCoordinate
    ensures r.Ok? && t.size == 0 ==> r.value == []
    ensures r.Ok? && AllFinite(p) ==> WithinResult(t, Reals(p), radius, r.value, picked)
    ensures r.Ok? ==> forall i, j | 0 <= i < j < |r.value| :: r.value[i].0 <= r.value[j].0
  {
    if t.size == 0 {
      if AllFinite(p) {
        EmptyTreeWithin(t, Reals(p), radius, k);
      }
      return Ok([]), [];
    }
    var w := WithinImpl(t, p, radius, k);
    if w.Err? {
      return Err(w.error), [];
    }
    var sorted := SortByDistance(w.value);
    WithinPairs(t, Reals(p), radius, w.value, sorted);
    r, picked := Ok(ToPairs(sorted)), EntriesOf(sorted);
  }

  /** `within_unsorted`: as `within`, in the heap's own order. */
  method WithinUnsorted<T(==)>(t: KdTree<T>, p: seq<Float>, radius: Float, ghost k: nat)
      returns (r: Result<seq<(real, T)>>, ghost picked: seq<Entry<T>>)
    requires Valid(t, k) && |p| == k
    ensures r.Err? <==> t.size > 0 && !AllFinite(p)
    ensures r.Err? ==> r.error == NonFiniteCoordinate
    ensures r.Ok? && t.size == 0 ==> r.value == []
    ensures r.Ok? && AllFinite(p) ==> WithinResult(t, Reals(p), radius, r.value, picked)
  {
    if t.size == 0 {
      if AllFinite(p) {
        EmptyTreeWithin(t, Reals(p), radius, k);
      }
      return Ok([]), [];
    }
    var w := WithinImpl(t, p, radius, k);
    if w.Err? {
      return Err(w.error), [];
    }
    WithinPairs(t, Reals(p), radius, w.value, w.value);
    r, picked := Ok(ToPairs(w.value)), EntriesOf(w.value);
  }
}
