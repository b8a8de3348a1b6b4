/** Insertion into the tree: `add`, `add_unchecked`, `add_to_bucket`, `split` and `extend`
  * of src/kiddo.rs. The tree is a value; each operation returns the updated node. */
module Insert {
  import opened Floats
  import opened Util
  import opened Tree

  /** `extend`: widens the bounds, axis by axis, so they contain `p`. */
  method Extend(lo: seq<Float>, hi: seq<Float>, p: seq<real>) returns (lo': seq<Float>, hi': seq<Float>)
    requires |lo| == |hi| == |p|
    ensures (lo', hi') == Widen(lo, hi, p)
  {
    lo', hi' := lo, hi;
    for i := 0 to |p|
      invariant |lo'| == |hi'| == |p|
      invariant forall j :: 0 <= j < i ==> lo'[j] == WidenLo(lo[j], p[j]) && hi'[j] == WidenHi(hi[j], p[j])
      invariant forall j :: i <= j < |p| ==> lo'[j] == lo[j] && hi'[j] == hi[j]
    {
      if Lt(Fin(p[i]), lo'[i]) {
        lo' := lo'[i := Fin(p[i])];
      }
      if Lt(hi'[i], Fin(p[i])) {
        hi' := hi'[i := Fin(p[i])];
      }
    }
    assert lo' == Widen(lo, hi, p).0;
    assert hi' == Widen(lo, hi, p).1;
  }

  function Extent(lo: seq<Float>, hi: seq<Float>, d: nat): real
    requires d < |lo| == |hi|
    requires lo[d].Fin? && hi[d].Fin?
  {
    hi[d].r - lo[d].r
  }

  /** `sd` is the first axis of largest extent, and that extent is strictly positive. */
  predicate AxisRule(lo: seq<Float>, hi: seq<Float>, sd: nat) {
    |lo| == |hi| && AllFinite(lo) && AllFinite(hi) &&
    sd < |lo| && Extent(lo, hi, sd) > 0.0 &&
    (forall d :: 0 <= d < sd ==> Extent(lo, hi, d) < Extent(lo, hi, sd)) &&
    (forall d :: sd < d < |lo| ==> Extent(lo, hi, d) <= Extent(lo, hi, sd))
  }

  /** How `split` cuts a box: on the axis `AxisRule` picks, at the midpoint
    * `min + (max - min) / 2` of that axis. */
  predicate SplitRule(lo: seq<Float>, hi: seq<Float>, sd: nat, sv: real) {
    AxisRule(lo, hi, sd) && sv == lo[sd].r + (hi[sd].r - lo[sd].r) / 2.0
  }

  /** The axis choice of `split`: the first axis of largest extent, provided that extent
    * is strictly positive; none when every extent is zero or less. (Bounds of a leaf that
    * holds points are finite, so the source's NaN test never fires.) */
  method ChooseSplitAxis(lo: seq<Float>, hi: seq<Float>) returns (sd: Option<nat>)
    requires |lo| == |hi| && AllFinite(lo) && AllFinite(hi)
    ensures sd.None? <==> forall d :: 0 <= d < |lo| ==> Extent(lo, hi, d) <= 0.0
    ensures sd.Some? ==> AxisRule(lo, hi, sd.value)
  {
    sd := None;
    var max := 0.0;
    for dim := 0 to |lo|
      invariant sd.None? ==> max == 0.0 && forall d :: 0 <= d < dim ==> Extent(lo, hi, d) <= 0.0
      invariant sd.Some? ==> sd.value < dim && max == Extent(lo, hi, sd.value) && max > 0.0
      invariant sd.Some? ==> forall d :: 0 <= d < sd.value ==> Extent(lo, hi, d) < max
      invariant sd.Some? ==> forall d :: sd.value < d < dim ==> Extent(lo, hi, d) <= max
    {
      var diff := hi[dim].r - lo[dim].r;
      if diff > max {
        max := diff;
        sd := Some(dim);
      }
    }
  }

  /** `Vec::swap_remove(0)`: the last element takes the place of the first. */
  function SwapRemoveFirst<X>(s: seq<X>): (r: seq<X>)
    requires |s| > 0
    ensures |r| == |s| - 1
  {
    if |s| == 1 then [] else [s[|s| - 1]] + s[1..|s| - 1]
  }

  lemma SwapRemoveFirstMultiset<X>(s: seq<X>)
    requires |s| > 0
    ensures multiset(SwapRemoveFirst(s)) + multiset{s[0]} == multiset(s)
  {
    if |s| > 1 {
      assert s == [s[0]] + s[1..|s| - 1] + [s[|s| - 1]];
    }
  }

  lemma SwapRemoveZip<T>(ps: seq<seq<real>>, bs: seq<T>)
    requires |ps| == |bs| > 0
    ensures Zip(SwapRemoveFirst(ps), SwapRemoveFirst(bs)) == SwapRemoveFirst(Zip(ps, bs))
  {
  }

  /** A leaf's i-th point and value form one of its entries. */
  lemma LeafEntry<T>(t: KdTree<T>, i: nat)
    requires LeafShape(t) && i < |t.content.points|
    ensures (t.content.points[i], t.content.bucket[i]) in Entries(t)
  {
    assert EntrySeq(t)[i] == (t.content.points[i], t.content.bucket[i]);
  }

  /** Every entry of a leaf is one of its point/value pairs. */
  lemma LeafEntryIndex<T>(t: KdTree<T>, e: Entry<T>) returns (i: nat)
    requires LeafShape(t) && e in Entries(t)
    ensures i < |t.content.points| && e == (t.content.points[i], t.content.bucket[i])
  {
    assert e in EntrySeq(t);
    var j :| 0 <= j < |EntrySeq(t)| && EntrySeq(t)[j] == e;
    i := j;
  }

  lemma TwoDistinct<X>(m: multiset<X>, a: X, b: X)
    requires a in m && b in m && a != b
    ensures |m| >= 2
  {
    var m' := m - multiset{a};
    assert b in m';
    assert |m| == |m'| + 1;
  }

  /** A box with no positive extent that holds a point is that single point. */
  lemma DegenerateBox(lo: seq<Float>, hi: seq<Float>, q: seq<real>)
    requires InBox(q, lo, hi) && AllFinite(lo) && AllFinite(hi)
    requires forall d :: 0 <= d < |lo| ==> Extent(lo, hi, d) <= 0.0
    ensures lo == hi
  {
    forall d | 0 <= d < |lo|
      ensures lo[d] == hi[d]
    {
      assert Le(lo[d], Fin(q[d])) && Le(Fin(q[d]), hi[d]);
      assert Extent(lo, hi, d) <= 0.0;
      assert lo[d].r <= q[d] <= hi[d].r;
    }
  }

  /** Points inside a single-point box are that point. */
  lemma PointBox(lo: seq<Float>, q: seq<real>)
    requires InBox(q, lo, lo)
    ensures AllFinite(lo) && q == Reals(lo)
  {
  }

  /** The guarantees of `add_to_bucket` on a leaf `t` receiving (p, v): the result is
    * valid, holds one more entry, namely (p, v), and has the widened box; it is still a
    * leaf, with the entry appended, while the count stays within capacity, and it splits
    * when the count exceeds capacity unless all its points coincide; a tight leaf that is
    * not split stays tight. */
  predicate BucketAdded<T(==)>(t: KdTree<T>, p: seq<real>, v: T, k: nat, t': KdTree<T>)
    requires t.content.Leaf? && |t.minBounds| == |t.maxBounds| == |p|
  {
    Valid(t', k) &&
    Entries(t') == Entries(t) + multiset{(p, v)} &&
    t'.size == t.size + 1 &&
    (t'.minBounds, t'.maxBounds) == Widen(t.minBounds, t.maxBounds, p) &&
    (t.size + 1 <= t.content.capacity ==> t'.content.Leaf?) &&
    (t.size + 1 > t.content.capacity && t'.minBounds != t'.maxBounds ==> t'.content.Stem?) &&
    (Tight(t, k) && (forall e | e in Entries(t) :: e.0 == p) ==> t'.content.Leaf?) &&
    (t'.content.Leaf? ==>
       t'.content == Leaf(t.content.points + [p], t.content.bucket + [v], t.content.capacity)) &&
    (t'.content.Leaf? && Tight(t, k) ==> Tight(t', k)) &&
    LeafCapacities(t', t.content.capacity) &&
    (t'.content.Stem? ==>
       SplitRule(t'.minBounds, t'.maxBounds, t'.content.splitDimension, t'.content.splitValue))
  }

  /** `add_to_bucket`: extends the leaf's box, appends the entry, and splits when the
    * leaf then holds more than its capacity. */
  method AddToBucket<T(==)>(t: KdTree<T>, p: seq<real>, v: T, ghost k: nat) returns (t': KdTree<T>)
    requires Valid(t, k) && t.content.Leaf? && |p| == k
    ensures BucketAdded(t, p, v, k, t')
    decreases |t.content.points| + 1, TightBit(t, k), 5
  {
    var lo, hi := Extend(t.minBounds, t.maxBounds, p);
    var cap := t.content.capacity;
    var ps := t.content.points + [p];
    var bs := t.content.bucket + [v];
    t' := KdTree(t.size + 1, lo, hi, Leaf(ps, bs, cap));
    AppendedLeaf(t, p, v, k, t');
    if t'.size > cap {
      SplitPrecondition(t, t', p, v, k);
      t' := Split(t', k);
    }
  }

  /** The leaf with the entry appended and the box widened, before any split. */
  lemma AppendedLeaf<T>(t: KdTree<T>, p: seq<real>, v: T, k: nat, t': KdTree<T>)
    requires Valid(t, k) && t.content.Leaf? && |p| == k
    requires (t'.minBounds, t'.maxBounds) == Widen(t.minBounds, t.maxBounds, p)
    requires t'.size == t.size + 1
    requires t'.content == Leaf(t.content.points + [p], t.content.bucket + [v], t.content.capacity)
    ensures NodeBasics(t', k) && LeafShape(t')
    ensures Entries(t') == Entries(t) + multiset{(p, v)}
    ensures t'.size <= t'.content.capacity ==> Valid(t', k)
    ensures Tight(t, k) ==> Tight(t', k)
    ensures Tight(t, k) && (forall e | e in Entries(t) :: e.0 == p) ==> t'.minBounds == t'.maxBounds
  {
    ZipSnoc(t.content.points, t.content.bucket, p, v);
    WidenContains(t.minBounds, t.maxBounds, p);
    assert Entries(t') == Entries(t) + multiset{(p, v)};
    if PointsHaveDim(t.content.points, k) {
      TightSnoc(t.content.points, p, k);
    }
    if Tight(t, k) && (forall e | e in Entries(t) :: e.0 == p) {
      var ps := t'.content.points;
      forall i | 0 <= i < |ps|
        ensures ps[i] == p
      {
        if i < |t.content.points| {
          LeafEntry(t, i);
        }
      }
      TightAllSame(ps, p, k);
    }
  }

  /** The leaf `add_to_bucket` hands to `split` either holds one entry over capacity, or
    * holds entries that all share one point (a full leaf whose box is that point) plus
    * the new entry, and is then tight. */
  lemma SplitPrecondition<T>(t: KdTree<T>, t2: KdTree<T>, p: seq<real>, v: T, k: nat)
    requires Valid(t, k) && t.content.Leaf? && |p| == k
    requires (t2.minBounds, t2.maxBounds) == Widen(t.minBounds, t.maxBounds, p)
    requires t2.content == Leaf(t.content.points + [p], t.content.bucket + [v], t.content.capacity)
    ensures |t2.content.points| <= t2.content.capacity + 1 ||
      (Tight(t2, k) &&
       forall i :: 0 <= i < |t2.content.points| - 1 ==> t2.content.points[i] == t2.content.points[0])
  {
    var ps := t.content.points;
    if |ps| > t.content.capacity {
      OverfullLeafTight(t, k);
      TightSnoc(ps, p, k);
      var ps2 := t2.content.points;
      assert forall i :: 0 <= i < |ps2| - 1 ==> ps2[i] == ps[i];
    }
  }

  /** A leaf over capacity is a pile of one point: its box is that point, and tight. */
  lemma OverfullLeafTight<T>(t: KdTree<T>, k: nat)
    requires Valid(t, k) && t.content.Leaf? && |t.content.points| > t.content.capacity
    ensures forall i :: 0 <= i < |t.content.points| ==> t.content.points[i] == t.content.points[0]
    ensures Tight(t, k)
  {
    var ps := t.content.points;
    assert NodeBasics(t, k) && LeafShape(t) && t.minBounds == t.maxBounds;
    LeafEntry(t, 0);
    PointBox(t.minBounds, ps[0]);
    forall i | 0 <= i < |ps|
      ensures ps[i] == ps[0]
    {
      LeafEntry(t, i);
      PointBox(t.minBounds, ps[i]);
    }
    TightAllSame(ps, ps[0], k);
    assert Fins(ps[0]) == t.minBounds;
  }

  /** `split`: picks the axis of largest extent and cuts it at the midpoint of the box,
    * then drains the leaf into two fresh leaves of the same capacity. A leaf whose box
    * has no positive extent (all its points coincide) stays as it is. */
  method Split<T(==)>(t: KdTree<T>, ghost k: nat) returns (t': KdTree<T>)
    requires NodeBasics(t, k) && LeafShape(t) && |t.content.points| >= 1
    requires |t.content.points| <= t.content.capacity + 1 ||
      (Tight(t, k) &&
       forall i :: 0 <= i < |t.content.points| - 1 ==> t.content.points[i] == t.content.points[0])
    ensures Valid(t', k)
    ensures Entries(t') == Entries(t) && t'.size == t.size
    ensures t'.minBounds == t.minBounds && t'.maxBounds == t.maxBounds
    ensures t'.content.Leaf? <==> t.minBounds == t.maxBounds
    ensures t'.content.Leaf? ==> t' == t
    ensures t'.content.Stem? ==>
              SplitRule(t.minBounds, t.maxBounds, t'.content.splitDimension, t'.content.splitValue)
    ensures LeafCapacities(t', t.content.capacity)
    decreases |t.content.points|, TightBit(t, k), 4
  {
    var ps, bs := t.content.points, t.content.bucket;
    LeafEntry(t, 0);
    ValidBoxFinite(t, k, (ps[0], bs[0]));
    var sdOpt := ChooseSplitAxis(t.minBounds, t.maxBounds);
    if sdOpt.None? {
      DegenerateBox(t.minBounds, t.maxBounds, ps[0]);
      return t;
    }
    var sd := sdOpt.value;
    var min, max := t.minBounds[sd].r, t.maxBounds[sd].r;
    var sv := min + (max - min) / 2.0;
    assert min < sv < max;

    // In a tight leaf both sides receive an entry: the ones attaining the bounds.
    ghost var eL: Entry<T> := (ps[0], bs[0]);
    ghost var eR: Entry<T> := (ps[0], bs[0]);
    if Tight(t, k) {
      var i0, j0 := TightAttained(ps, k, sd);
      eL, eR := (ps[i0], bs[i0]), (ps[j0], bs[j0]);
      LeafEntry(t, i0);
      LeafEntry(t, j0);
    }
    if |ps| > t.content.capacity + 1 {
      CoincidentSides(t, k, sd, sv);
    }
    var left, right := Drain(t, k, sd, sv, eL, eR);
    t' := KdTree(t.size, t.minBounds, t.maxBounds, Stem(left, right, sv, sd));
    SplitStem(t, k, left, right, sd, sv, t');
  }

  /** The stem that `split` builds over the two drained leaves is a valid node holding the
    * leaf's entries, with the leaf's capacity throughout. */
  lemma SplitStem<T>(t: KdTree<T>, k: nat, left: KdTree<T>, right: KdTree<T>, sd: nat, sv: real,
                     t': KdTree<T>)
    requires NodeBasics(t, k) && LeafShape(t) && sd < k
    requires Valid(left, k) && Valid(right, k)
    requires Entries(left) + Entries(right) == Entries(t)
    requires forall e | e in Entries(left) :: e.0[sd] < sv
    requires forall e | e in Entries(right) :: sv <= e.0[sd]
    requires LeafCapacities(left, t.content.capacity) && LeafCapacities(right, t.content.capacity)
    requires t' == KdTree(t.size, t.minBounds, t.maxBounds, Stem(left, right, sv, sd))
    ensures Valid(t', k) && Entries(t') == Entries(t)
    ensures LeafCapacities(t', t.content.capacity)
  {
    assert |Entries(t')| == |Entries(t)|;
  }

  /** Entries on the same side of the cut share one point. */
  predicate SidesCoincide<T(==)>(t: KdTree<T>, sd: nat, sv: real) {
    (forall x, y | x in Entries(t) && y in Entries(t) && sd < |x.0| && sd < |y.0| && x.0[sd] < sv && y.0[sd] < sv
       :: x.0 == y.0) &&
    (forall x, y | x in Entries(t) && y in Entries(t) && sd < |x.0| && sd < |y.0| && sv <= x.0[sd] && sv <= y.0[sd]
       :: x.0 == y.0)
  }

  /** What the loop of `split` keeps: the entries still in the leaf and those in the two
    * children make up the leaf's entries; each child is valid, tight while it is a leaf,
    * holds only entries of its side, and is a stem only once nothing is left to hand out. */
  predicate DrainInv<T(==)>(t: KdTree<T>, k: nat, sd: nat, sv: real,
                             points: seq<seq<real>>, bucket: seq<T>, left: KdTree<T>, right: KdTree<T>)
    requires LeafShape(t)
  {
    |points| == |bucket| &&
    multiset(Zip(points, bucket)) + Entries(left) + Entries(right) == Entries(t) &&
    ChildOK(left, k, sd, sv, true, t.content.capacity) &&
    ChildOK(right, k, sd, sv, false, t.content.capacity) &&
    (left.content.Leaf? || |points| == 0) &&
    (right.content.Leaf? || |points| == 0)
  }

  /** A child under construction: valid, tight while it is a leaf, with the capacity of
    * the leaf being split, and holding only entries of its side. */
  predicate ChildOK<T(==)>(c: KdTree<T>, k: nat, sd: nat, sv: real, isLeft: bool, cap: nat) {
    Valid(c, k) &&
    (c.content.Leaf? ==> Tight(c, k)) && LeafCapacities(c, cap) &&
    forall e | e in Entries(c) :: OnSide(e.0, sd, sv, isLeft)
  }

  /** The loop of `split`: `swap_remove(0)` on the points and the bucket until they are
    * empty, handing each entry to `add_to_bucket` of the left child when its coordinate
    * on the split dimension is below the split value and of the right child otherwise. */
  method Drain<T(==)>(t: KdTree<T>, ghost k: nat, sd: nat, sv: real, ghost eL: Entry<T>, ghost eR: Entry<T>)
      returns (left: KdTree<T>, right: KdTree<T>)
    requires NodeBasics(t, k) && LeafShape(t) && sd < k
    requires Tight(t, k) ==> eL in Entries(t) && eL.0[sd] < sv && eR in Entries(t) && sv <= eR.0[sd]
    requires |t.content.points| <= t.content.capacity + 1 || (Tight(t, k) && SidesCoincide(t, sd, sv))
    ensures Valid(left, k) && Valid(right, k)
    ensures Entries(left) + Entries(right) == Entries(t)
    ensures forall e | e in Entries(left) :: e.0[sd] < sv
    ensures forall e | e in Entries(right) :: sv <= e.0[sd]
    ensures LeafCapacities(left, t.content.capacity) && LeafCapacities(right, t.content.capacity)
    decreases |t.content.points|, TightBit(t, k), 3
  {
    var cap := t.content.capacity;
    left := WithCapacity(cap, |t.minBounds|).value;
    right := WithCapacity(cap, |t.minBounds|).value;
    var points, bucket := t.content.points, t.content.bucket;
    DrainInvInit(t, k, sd, sv);
    while |points| > 0
      invariant DrainInv(t, k, sd, sv, points, bucket, left, right)
      decreases |points|
    {
      points, bucket, left, right := DrainStep(t, k, sd, sv, eL, eR, points, bucket, left, right);
    }
    DrainInvDone(t, k, sd, sv, points, bucket, left, right);
  }

  lemma DrainInvInit<T>(t: KdTree<T>, k: nat, sd: nat, sv: real)
    requires NodeBasics(t, k) && LeafShape(t)
    ensures DrainInv(t, k, sd, sv, t.content.points, t.content.bucket,
                     EmptyLeaf(t.content.capacity, |t.minBounds|), EmptyLeaf(t.content.capacity, |t.minBounds|))
  {
    var e: KdTree<T> := EmptyLeaf(t.content.capacity, k);
    assert WithCapacity(t.content.capacity, k) == Ok(e);
    assert Entries(e) == multiset{};
    assert Entries(t) == multiset(Zip(t.content.points, t.content.bucket));
  }

  lemma DrainInvDone<T>(t: KdTree<T>, k: nat, sd: nat, sv: real,
                        points: seq<seq<real>>, bucket: seq<T>, left: KdTree<T>, right: KdTree<T>)
    requires LeafShape(t) && DrainInv(t, k, sd, sv, points, bucket, left, right) && |points| == 0
    ensures Valid(left, k) && Valid(right, k)
    ensures Entries(left) + Entries(right) == Entries(t)
    ensures forall e | e in Entries(left) :: e.0[sd] < sv
    ensures forall e | e in Entries(right) :: sv <= e.0[sd]
  {
    assert Zip(points, bucket) == [];
  }

  /** One turn of the loop of `split`. */
  method DrainStep<T(==)>(t: KdTree<T>, ghost k: nat, sd: nat, sv: real, ghost eL: Entry<T>, ghost eR: Entry<T>,
                          points: seq<seq<real>>, bucket: seq<T>, left: KdTree<T>, right: KdTree<T>)
      returns (points': seq<seq<real>>, bucket': seq<T>, left': KdTree<T>, right': KdTree<T>)
    requires NodeBasics(t, k) && LeafShape(t) && sd < k
    requires Tight(t, k) ==> eL in Entries(t) && eL.0[sd] < sv && eR in Entries(t) && sv <= eR.0[sd]
    requires |t.content.points| <= t.content.capacity + 1 || (Tight(t, k) && SidesCoincide(t, sd, sv))
    requires DrainInv(t, k, sd, sv, points, bucket, left, right) && |points| > 0
    ensures DrainInv(t, k, sd, sv, points', bucket', left', right')
    ensures |points'| == |points| - 1
    decreases |t.content.points|, TightBit(t, k), 2
  {
    var point, data := points[0], bucket[0];
    points', bucket' := SwapRemoveFirst(points), SwapRemoveFirst(bucket);
    if point[sd] < sv {
      left' := DrainLeft(t, k, sd, sv, eL, eR, points, bucket, left, right);
      right' := right;
    } else {
      right' := DrainRight(t, k, sd, sv, eL, eR, points, bucket, left, right);
      left' := left;
    }
  }

  /** The turn of the loop of `split` that hands the first entry to the left child. */
  method DrainLeft<T(==)>(t: KdTree<T>, ghost k: nat, sd: nat, sv: real, ghost eL: Entry<T>, ghost eR: Entry<T>,
                          points: seq<seq<real>>, bucket: seq<T>, left: KdTree<T>, ghost right: KdTree<T>)
      returns (left': KdTree<T>)
    requires NodeBasics(t, k) && LeafShape(t) && sd < k
    requires Tight(t, k) ==> eL in Entries(t) && eL.0[sd] < sv && eR in Entries(t) && sv <= eR.0[sd]
    requires |t.content.points| <= t.content.capacity + 1 || (Tight(t, k) && SidesCoincide(t, sd, sv))
    requires DrainInv(t, k, sd, sv, points, bucket, left, right) && |points| > 0
    requires sd < |points[0]| && points[0][sd] < sv
    ensures DrainInv(t, k, sd, sv, SwapRemoveFirst(points), SwapRemoveFirst(bucket), left', right)
    decreases |t.content.points|, TightBit(t, k), 1
  {
    ghost var rest := DrainReady(t, k, sd, sv, eL, eR, points, bucket, left, right, left, right, eR, true);
    left' := HandOut(t, k, sd, sv, eR, rest, left, right, points[0], bucket[0], true);
    DrainShrink(points, bucket);
    DrainInvLeft(t, k, sd, sv, points, bucket, left, right, left');
  }

  /** The turn of the loop of `split` that hands the first entry to the right child. */
  method DrainRight<T(==)>(t: KdTree<T>, ghost k: nat, sd: nat, sv: real, ghost eL: Entry<T>, ghost eR: Entry<T>,
                           points: seq<seq<real>>, bucket: seq<T>, ghost left: KdTree<T>, right: KdTree<T>)
      returns (right': KdTree<T>)
    requires NodeBasics(t, k) && LeafShape(t) && sd < k
    requires Tight(t, k) ==> eL in Entries(t) && eL.0[sd] < sv && eR in Entries(t) && sv <= eR.0[sd]
    requires |t.content.points| <= t.content.capacity + 1 || (Tight(t, k) && SidesCoincide(t, sd, sv))
    requires DrainInv(t, k, sd, sv, points, bucket, left, right) && |points| > 0
    requires sd < |points[0]| && sv <= points[0][sd]
    ensures DrainInv(t, k, sd, sv, SwapRemoveFirst(points), SwapRemoveFirst(bucket), left, right')
    decreases |t.content.points|, TightBit(t, k), 1
  {
    ghost var rest := DrainReady(t, k, sd, sv, eL, eR, points, bucket, left, right, right, left, eL, false);
    right' := HandOut(t, k, sd, sv, eL, rest, right, left, points[0], bucket[0], false);
    DrainShrink(points, bucket);
    DrainInvRight(t, k, sd, sv, points, bucket, left, right, right');
  }

  /** Before one turn of the loop of `split`, the first entry may be handed to the child
    * `mine` on its side; `w`, in a tight leaf, is an entry of the other side. */
  lemma DrainReady<T>(t: KdTree<T>, k: nat, sd: nat, sv: real, eL: Entry<T>, eR: Entry<T>,
                      points: seq<seq<real>>, bucket: seq<T>, left: KdTree<T>, right: KdTree<T>,
                      mine: KdTree<T>, other: KdTree<T>, w: Entry<T>, isLeft: bool)
      returns (rest: multiset<Entry<T>>)
    requires NodeBasics(t, k) && LeafShape(t) && sd < k
    requires Tight(t, k) ==> eL in Entries(t) && eL.0[sd] < sv && eR in Entries(t) && sv <= eR.0[sd]
    requires |t.content.points| <= t.content.capacity + 1 || (Tight(t, k) && SidesCoincide(t, sd, sv))
    requires DrainInv(t, k, sd, sv, points, bucket, left, right) && |points| > 0
    requires if isLeft then mine == left && other == right && w == eR
             else mine == right && other == left && w == eL
    requires sd < |points[0]| && (isLeft <==> points[0][sd] < sv)
    ensures |rest| == |points| == |bucket|
    ensures HandOutPre(t, k, sd, sv, w, rest, mine, other, points[0], bucket[0], isLeft)
  {
    rest := DrainTake(t, k, sd, sv, points, bucket, left, right);
    if isLeft {
      assert ChildOK(mine, k, sd, sv, true, t.content.capacity);
    } else {
      assert rest + Entries(mine) + Entries(other) == Entries(t);
    }
  }

  /** Which side of the cut a point belongs to: left when its coordinate on the split
    * dimension is below the split value. */
  predicate OnSide(p: seq<real>, sd: nat, sv: real, isLeft: bool) {
    sd < |p| && (if isLeft then p[sd] < sv else sv <= p[sd])
  }

  /** What `split` knows when it hands the entry (point, data), still among the `rest`
    * to hand out, to the child `mine` on its side, the other child being `other`: the
    * leaf either holds at most one entry over capacity or is tight with each side's
    * entries sharing one point, and in a tight leaf `w` is an entry of the other side. */
  predicate HandOutPre<T(==)>(t: KdTree<T>, k: nat, sd: nat, sv: real, w: Entry<T>,
                              rest: multiset<Entry<T>>, mine: KdTree<T>, other: KdTree<T>,
                              point: seq<real>, data: T, isLeft: bool) {
    NodeBasics(t, k) && LeafShape(t) && sd < k && |point| == k &&
    (|t.content.points| <= t.content.capacity + 1 || (Tight(t, k) && SidesCoincide(t, sd, sv))) &&
    rest + Entries(mine) + Entries(other) == Entries(t) && (point, data) in rest &&
    ChildOK(mine, k, sd, sv, isLeft, t.content.capacity) && mine.content.Leaf? &&
    OnSide(point, sd, sv, isLeft) &&
    (Tight(t, k) ==> w in Entries(t) && OnSide(w.0, sd, sv, !isLeft))
  }

  /** Hands one entry to the child on its side through `add_to_bucket`. A child that
    * splits on its way receives no further entry, so `add_to_bucket` is never handed a
    * stem: with at most one entry over capacity only the last entry can make a child
    * split, and in a leaf of coinciding points plus one more each child receives copies
    * of a single point and never splits. */
  method HandOut<T(==)>(t: KdTree<T>, ghost k: nat, sd: nat, sv: real, ghost w: Entry<T>,
                        ghost rest: multiset<Entry<T>>, mine: KdTree<T>, ghost other: KdTree<T>,
                        point: seq<real>, data: T, ghost isLeft: bool)
      returns (mine': KdTree<T>)
    requires HandOutPre(t, k, sd, sv, w, rest, mine, other, point, data, isLeft)
    ensures ChildOK(mine', k, sd, sv, isLeft, t.content.capacity)
    ensures Entries(mine') == Entries(mine) + multiset{(point, data)}
    ensures mine'.content.Leaf? || |rest| == 1
    decreases |t.content.points|, TightBit(t, k), 0
  {
    HandOutMeasure(t, k, sd, sv, w, rest, mine, other, point, data, isLeft);
    mine' := AddToBucket(mine, point, data, k);
    HandOutDone(t, k, sd, sv, rest, mine, other, point, data, isLeft, mine');
  }

  /** The child may receive the entry, and holds fewer entries than the leaf being
    * split, or as many when that leaf is not tight while the child is. */
  lemma HandOutMeasure<T>(t: KdTree<T>, k: nat, sd: nat, sv: real, w: Entry<T>,
                          rest: multiset<Entry<T>>, mine: KdTree<T>, other: KdTree<T>,
                          point: seq<real>, data: T, isLeft: bool)
    requires HandOutPre(t, k, sd, sv, w, rest, mine, other, point, data, isLeft)
    ensures Valid(mine, k) && mine.content.Leaf? && |point| == k
    ensures TightBit(mine, k) == 0
    ensures |mine.content.points| + 1 < |t.content.points| ||
            (|mine.content.points| + 1 == |t.content.points| && TightBit(t, k) == 1)
  {
    ghost var e := (point, data);
    if Tight(t, k) {
      assert w !in Entries(mine) && w != e;
    }
    DrainMeasure(t, k, mine, rest, other, e, w, Tight(t, k));
  }

  /** After `add_to_bucket`, the child is still a child of its side, holds the entry,
    * and is a stem only when nothing remains to hand out. */
  lemma HandOutDone<T>(t: KdTree<T>, k: nat, sd: nat, sv: real,
                       rest: multiset<Entry<T>>, mine: KdTree<T>, other: KdTree<T>,
                       point: seq<real>, data: T, isLeft: bool, mine': KdTree<T>)
    requires NodeBasics(t, k) && LeafShape(t) && |point| == k
    requires |t.content.points| <= t.content.capacity + 1 || (Tight(t, k) && SidesCoincide(t, sd, sv))
    requires rest + Entries(mine) + Entries(other) == Entries(t) && (point, data) in rest
    requires ChildOK(mine, k, sd, sv, isLeft, t.content.capacity) && mine.content.Leaf?
    requires OnSide(point, sd, sv, isLeft)
    requires BucketAdded(mine, point, data, k, mine')
    ensures ChildOK(mine', k, sd, sv, isLeft, t.content.capacity)
    ensures Entries(mine') == Entries(mine) + multiset{(point, data)}
    ensures mine'.content.Leaf? || |rest| == 1
  {
    ghost var e := (point, data);
    assert (rest - multiset{e}) + multiset{e} == rest;
    ChildLeaf(mine, k, sd, sv, isLeft, t.content.capacity);
    DrainNoStem(t, k, sd, sv, rest - multiset{e}, mine, mine', other, e, isLeft);
    ChildGains(mine, mine', k, sd, sv, isLeft, t.content.capacity, e);
  }

  /** What a leaf child of a split holds: a tight valid leaf of the split's capacity whose
      entries lie on its side. */
  lemma ChildLeaf<T>(mine: KdTree<T>, k: nat, sd: nat, sv: real, isLeft: bool, cap: nat)
    requires ChildOK(mine, k, sd, sv, isLeft, cap) && mine.content.Leaf?
    ensures Valid(mine, k) && Tight(mine, k) && mine.content.capacity == cap
    ensures forall x | x in Entries(mine) :: OnSide(x.0, sd, sv, isLeft)
  {
  }

  /** A child that gains an entry of its side is still a child of that side. */
  lemma ChildGains<T>(mine: KdTree<T>, mine': KdTree<T>, k: nat, sd: nat, sv: real, isLeft: bool, cap: nat,
                      e: Entry<T>)
    requires ChildOK(mine, k, sd, sv, isLeft, cap) && mine.content.Leaf? && |e.0| == k
    requires BucketAdded(mine, e.0, e.1, k, mine') && OnSide(e.0, sd, sv, isLeft)
    ensures ChildOK(mine', k, sd, sv, isLeft, cap)
  {
  }

  /** Taking the first entry out of the leaf under `swap_remove(0)`. */
  lemma DrainTake<T>(t: KdTree<T>, k: nat, sd: nat, sv: real,
                     points: seq<seq<real>>, bucket: seq<T>, left: KdTree<T>, right: KdTree<T>)
      returns (rest: multiset<Entry<T>>)
    requires NodeBasics(t, k) && LeafShape(t) && sd < k
    requires DrainInv(t, k, sd, sv, points, bucket, left, right) && |points| > 0
    ensures rest == multiset(Zip(points, bucket))
    ensures (points[0], bucket[0]) in rest && (points[0], bucket[0]) in Entries(t)
    ensures |points[0]| == k
    ensures rest + Entries(left) + Entries(right) == Entries(t)
    ensures |rest| == |points|
    ensures left.content.Leaf? && right.content.Leaf?
  {
    rest := multiset(Zip(points, bucket));
    assert Zip(points, bucket)[0] == (points[0], bucket[0]);
  }

  /** `swap_remove(0)` on both vectors takes exactly the first entry out. */
  lemma DrainShrink<T>(points: seq<seq<real>>, bucket: seq<T>)
    requires |points| == |bucket| > 0
    ensures multiset(Zip(SwapRemoveFirst(points), SwapRemoveFirst(bucket))) + multiset{(points[0], bucket[0])}
            == multiset(Zip(points, bucket))
  {
    assert Zip(points, bucket)[0] == (points[0], bucket[0]);
    SwapRemoveZip(points, bucket);
    SwapRemoveFirstMultiset(Zip(points, bucket));
  }

  /** The child receiving the entry holds fewer entries than the leaf being split, or as
    * many when that leaf is not tight. */
  lemma DrainMeasure<T>(t: KdTree<T>, k: nat, mine: KdTree<T>, rest: multiset<Entry<T>>, other: KdTree<T>,
                        e: Entry<T>, w: Entry<T>, tight: bool)
    requires LeafShape(t) && LeafShape(mine)
    requires rest + Entries(mine) + Entries(other) == Entries(t) && e in rest
    requires tight ==> w in Entries(t) && w !in Entries(mine) && w != e
    ensures |mine.content.points| + 1 <= |t.content.points|
    ensures tight ==> |mine.content.points| + 1 < |t.content.points|
  {
    LeafCount(mine);
    LeafCount(t);
    if tight {
      CountBound(Entries(t), Entries(mine), rest, Entries(other), e, w);
    }
  }

  /** After receiving an entry, a child is a stem only if nothing remains to hand out. */
  lemma DrainNoStem<T>(t: KdTree<T>, k: nat, sd: nat, sv: real, remaining: multiset<Entry<T>>,
                       mine: KdTree<T>, mine': KdTree<T>, other: KdTree<T>, e: Entry<T>, isLeft: bool)
    requires NodeBasics(t, k) && LeafShape(t)
    requires |t.content.points| <= t.content.capacity + 1 || (Tight(t, k) && SidesCoincide(t, sd, sv))
    requires Valid(mine, k) && mine.content.Leaf? && Tight(mine, k)
    requires mine.content.capacity == t.content.capacity
    requires remaining + multiset{e} + Entries(mine) + Entries(other) == Entries(t)
    requires OnSide(e.0, sd, sv, isLeft) && forall x | x in Entries(mine) :: OnSide(x.0, sd, sv, isLeft)
    requires mine.size + 1 <= mine.content.capacity ==> mine'.content.Leaf?
    requires Tight(mine, k) && (forall x | x in Entries(mine) :: x.0 == e.0) ==> mine'.content.Leaf?
    ensures mine'.content.Leaf? || |remaining| == 0
  {
    LeafCount(t);
    if |t.content.points| > t.content.capacity + 1 {
      assert e in Entries(t);
      forall x | x in Entries(mine)
        ensures x.0 == e.0
      {
        assert x in Entries(t);
      }
    }
  }

  lemma DrainInvLeft<T>(t: KdTree<T>, k: nat, sd: nat, sv: real,
                        points: seq<seq<real>>, bucket: seq<T>, left: KdTree<T>, right: KdTree<T>, left': KdTree<T>)
    requires LeafShape(t) && DrainInv(t, k, sd, sv, points, bucket, left, right) && |points| > 0
    requires ChildOK(left', k, sd, sv, true, t.content.capacity)
    requires Entries(left') == Entries(left) + multiset{(points[0], bucket[0])}
    requires left'.content.Leaf? || |points| == 1
    requires multiset(Zip(SwapRemoveFirst(points), SwapRemoveFirst(bucket))) + multiset{(points[0], bucket[0])}
          == multiset(Zip(points, bucket))
    ensures DrainInv(t, k, sd, sv, SwapRemoveFirst(points), SwapRemoveFirst(bucket), left', right)
  {
  }


  lemma DrainInvRight<T>(t: KdTree<T>, k: nat, sd: nat, sv: real,
                        points: seq<seq<real>>, bucket: seq<T>, left: KdTree<T>, right: KdTree<T>, right': KdTree<T>)
    requires LeafShape(t) && DrainInv(t, k, sd, sv, points, bucket, left, right) && |points| > 0
    requires ChildOK(right', k, sd, sv, false, t.content.capacity)
    requires Entries(right') == Entries(right) + multiset{(points[0], bucket[0])}
    requires right'.content.Leaf? || |points| == 1
    requires multiset(Zip(SwapRemoveFirst(points), SwapRemoveFirst(bucket))) + multiset{(points[0], bucket[0])}
          == multiset(Zip(points, bucket))
    ensures DrainInv(t, k, sd, sv, SwapRemoveFirst(points), SwapRemoveFirst(bucket), left, right')
  {
  }


  lemma ValidBoxFinite<T>(t: KdTree<T>, k: nat, e: Entry<T>)
    requires NodeBasics(t, k) && e in Entries(t)
    ensures AllFinite(t.minBounds) && AllFinite(t.maxBounds)
  {
  }

  lemma LeafCount<T>(t: KdTree<T>)
    requires LeafShape(t)
    ensures |Entries(t)| == |t.content.points|
  {
  }

  /** When `w` is known not to be among `mine`, moving `e` into `mine` leaves it short of
    * the whole. */
  lemma CountBound<E>(all: multiset<E>, mine: multiset<E>, rest: multiset<E>, other: multiset<E>, e: E, w: E)
    requires rest + mine + other == all
    requires e in rest && w in all && w !in mine && w != e
    ensures |mine| + 1 < |all|
  {
    if w in rest {
      TwoDistinct(rest, e, w);
    } else {
      assert w in other;
    }
  }

  /** In a tight leaf of coinciding points plus one more point, the split separates the
    * two distinct points: all entries on one side share a single point. */
  lemma CoincidentSides<T>(t: KdTree<T>, k: nat, sd: nat, sv: real)
    requires NodeBasics(t, k) && LeafShape(t) && Tight(t, k) && |t.content.points| >= 2
    requires forall i :: 0 <= i < |t.content.points| - 1 ==> t.content.points[i] == t.content.points[0]
    requires sd < k && t.minBounds[sd].Fin? && t.maxBounds[sd].Fin?
    requires t.minBounds[sd].r < sv < t.maxBounds[sd].r
    ensures SidesCoincide(t, sd, sv)
  {
    var ps := t.content.points;
    var n := |ps| - 1;
    var c, q := ps[0], ps[n];
    TightAllSame(ps[..n], c, k);
    assert TightBounds(ps, k) == Widen(Fins(c), Fins(c), q);
    assert t.minBounds[sd] == WidenLo(Fin(c[sd]), q[sd]);
    assert t.maxBounds[sd] == WidenHi(Fin(c[sd]), q[sd]);
    forall x | x in Entries(t)
      ensures x.0 == c || x.0 == q
    {
      var i := LeafEntryIndex(t, x);
    }
  }

  /** The guarantees of `add_unchecked` of (p, v) into `t`: the result is valid, holds
    * exactly one more entry, (p, v), counts it, has the widened box, and a stem keeps its
    * split. */
  predicate Added<T(==)>(t: KdTree<T>, p: seq<real>, v: T, k: nat, t': KdTree<T>)
    requires |t.minBounds| == |t.maxBounds| == |p|
  {
    Valid(t', k) &&
    Entries(t') == Entries(t) + multiset{(p, v)} &&
    t'.size == t.size + 1 &&
    (t'.minBounds, t'.maxBounds) == Widen(t.minBounds, t.maxBounds, p) &&
    (t.content.Stem? ==>
       t'.content.Stem? && t'.content.splitDimension == t.content.splitDimension &&
       t'.content.splitValue == t.content.splitValue)
  }

  /** A leaf stays a leaf, of the same capacity, while it holds at most its capacity and
    * splits on the entry that takes it over capacity, unless all its points coincide. */
  predicate LeafSplitRule<T>(t: KdTree<T>, t': KdTree<T>) {
    t.content.Leaf? ==>
      (t.size + 1 <= t.content.capacity ==> t'.content.Leaf?) &&
      (t'.content.Leaf? ==> t'.content.capacity == t.content.capacity) &&
      (t.size + 1 > t.content.capacity && t'.minBounds != t'.maxBounds ==> t'.content.Stem?) &&
      (t'.content.Stem? ==>
         SplitRule(t'.minBounds, t'.maxBounds, t'.content.splitDimension, t'.content.splitValue))
  }

  /** `add_unchecked`: a leaf takes the entry through `add_to_bucket`; a stem passes it
    * to the child `belongs_in_left` picks, then widens its own box and counts it. */
  method AddUnchecked<T(==)>(t: KdTree<T>, p: seq<real>, v: T, ghost k: nat) returns (t': KdTree<T>)
    requires Valid(t, k) && |p| == k
    ensures Added(t, p, v, k, t') && LeafSplitRule(t, t')
    ensures forall c: nat :: LeafCapacities(t, c) ==> LeafCapacities(t', c)
    decreases t
  {
    if t.content.Leaf? {
      t' := AddToBucket(t, p, v, k);
      return;
    }
    var l, r := t.content.left, t.content.right;
    var l', r' := l, r;
    if p[t.content.splitDimension] < t.content.splitValue {
      l' := AddUnchecked(l, p, v, k);
    } else {
      r' := AddUnchecked(r, p, v, k);
    }
    var lo, hi := Extend(t.minBounds, t.maxBounds, p);
    t' := KdTree(t.size + 1, lo, hi, Stem(l', r', t.content.splitValue, t.content.splitDimension));
    StemAdded(t, p, v, k, t');
  }

  /** A stem whose one child received (p, v) on its side, with its box widened and its
    * count raised, has received (p, v). */
  lemma StemAdded<T>(t: KdTree<T>, p: seq<real>, v: T, k: nat, t': KdTree<T>)
    requires Valid(t, k) && t.content.Stem? && |p| == k
    requires (t'.minBounds, t'.maxBounds) == Widen(t.minBounds, t.maxBounds, p)
    requires t'.size == t.size + 1
    requires t'.content.Stem? && t'.content.splitDimension == t.content.splitDimension
    requires t'.content.splitValue == t.content.splitValue
    requires |t.content.left.minBounds| == |t.content.left.maxBounds| == k
    requires |t.content.right.minBounds| == |t.content.right.maxBounds| == k
    requires BelongsInLeft(t, p) ==>
      t'.content.right == t.content.right && Added(t.content.left, p, v, k, t'.content.left)
    requires !BelongsInLeft(t, p) ==>
      t'.content.left == t.content.left && Added(t.content.right, p, v, k, t'.content.right)
    ensures Added(t, p, v, k, t')
  {
    var l, r, l', r' := t.content.left, t.content.right, t'.content.left, t'.content.right;
    var sd, sv := t.content.splitDimension, t.content.splitValue;
    StemCount(t, p, v, t');
    StemInBox(t, p, v, k, t');
    StemSides(t, p, v, k, t');
    assert NodeBasics(t', k);
  }

  lemma StemSides<T>(t: KdTree<T>, p: seq<real>, v: T, k: nat, t': KdTree<T>)
    requires Valid(t, k) && t.content.Stem? && |p| == k
    requires t'.content.Stem? && t'.content.splitDimension == t.content.splitDimension
    requires t'.content.splitValue == t.content.splitValue
    requires |t.content.left.minBounds| == |t.content.left.maxBounds| == k
    requires |t.content.right.minBounds| == |t.content.right.maxBounds| == k
    requires BelongsInLeft(t, p) ==>
      t'.content.right == t.content.right && Added(t.content.left, p, v, k, t'.content.left)
    requires !BelongsInLeft(t, p) ==>
      t'.content.left == t.content.left && Added(t.content.right, p, v, k, t'.content.right)
    ensures t'.content.splitDimension < k
    ensures Valid(t'.content.left, k) && Valid(t'.content.right, k)
    ensures forall e | e in Entries(t'.content.left) :: e.0[t'.content.splitDimension] < t'.content.splitValue
    ensures forall e | e in Entries(t'.content.right) :: t'.content.splitValue <= e.0[t'.content.splitDimension]
  {
    var l, r, l', r' := t.content.left, t.content.right, t'.content.left, t'.content.right;
    var sd, sv := t.content.splitDimension, t.content.splitValue;
    if BelongsInLeft(t, p) {
      forall e | e in Entries(l')
        ensures e.0[sd] < sv
      {
        if e != (p, v) {
          assert e in Entries(l);
        }
      }
    } else {
      forall e | e in Entries(r')
        ensures sv <= e.0[sd]
      {
        if e != (p, v) {
          assert e in Entries(r);
        }
      }
    }
  }

  lemma StemCount<T>(t: KdTree<T>, p: seq<real>, v: T, t': KdTree<T>)
    requires t.content.Stem? && t'.content.Stem?
    requires t.size == |EntrySeq(t)| && t'.size == t.size + 1
    requires (t'.content.right == t.content.right &&
              Entries(t'.content.left) == Entries(t.content.left) + multiset{(p, v)}) ||
             (t'.content.left == t.content.left &&
              Entries(t'.content.right) == Entries(t.content.right) + multiset{(p, v)})
    ensures Entries(t') == Entries(t) + multiset{(p, v)}
    ensures t'.size == |EntrySeq(t')|
  {
    var l, r, l', r' := t.content.left, t.content.right, t'.content.left, t'.content.right;
    assert Entries(t) == Entries(l) + Entries(r);
    assert Entries(t') == Entries(l') + Entries(r');
    assert |Entries(t')| == |Entries(t)| + 1;
  }

  lemma StemInBox<T>(t: KdTree<T>, p: seq<real>, v: T, k: nat, t': KdTree<T>)
    requires NodeBasics(t, k) && |p| == k
    requires (t'.minBounds, t'.maxBounds) == Widen(t.minBounds, t.maxBounds, p)
    requires Entries(t') == Entries(t) + multiset{(p, v)}
    ensures BoundsShape(t'.minBounds, t'.maxBounds)
    ensures forall e | e in Entries(t') :: InBox(e.0, t'.minBounds, t'.maxBounds)
  {
    WidenContains(t.minBounds, t.maxBounds, p);
    forall e | e in Entries(t')
      ensures InBox(e.0, t'.minBounds, t'.maxBounds)
    {
      if e != (p, v) {
        assert e in Entries(t);
      }
    }
  }

  /** `add`: rejects a point with a non-finite coordinate, leaving the tree as it was;
    * otherwise adds the entry. */
  method Add<T(==)>(t: KdTree<T>, p: seq<Float>, v: T, ghost k: nat) returns (t': KdTree<T>, r: Result<()>)
    requires Valid(t, k) && |p| == k
    ensures r.Ok? <==> AllFinite(p)
    ensures r.Err? ==> r.error == NonFiniteCoordinate && t' == t
    ensures r.Ok? ==> Added(t, Reals(p), v, k, t') && LeafSplitRule(t, t')
    ensures forall c: nat :: LeafCapacities(t, c) ==> LeafCapacities(t', c)
  {
    r := CheckPoint(p);
    if r.Err? {
      return t, r;
    }
    t' := AddUnchecked(t, Reals(p), v, k);
  }
}
