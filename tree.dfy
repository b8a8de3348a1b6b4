/** The bucketed point-region k-d tree of src/kiddo.rs: its shape, its entries, the
  * invariant every public operation keeps, and the bounding-box arithmetic of `extend`. */
module Tree {
  import opened Floats
  import opened Util

  datatype ErrorKind = NonFiniteCoordinate | ZeroCapacity | Empty

  datatype Result<R> = Ok(value: R) | Err(error: ErrorKind)

  datatype Option<X> = None | Some(value: X)

  /** How a call ends: with a value, or in a panic (an `unwrap` of `None`, an
    * `unreachable!()`). */
  datatype Outcome<X> = Returns(value: X) | Panics

  /** A node: its entry count, its bounding box and its content. The dimension K is the
    * length of the bounds; a Stem's split dimension is an index below K. */
  datatype KdTree<T> = KdTree(size: nat, minBounds: seq<Float>, maxBounds: seq<Float>, content: Node<T>)

  datatype Node<T> =
    | Stem(left: KdTree<T>, right: KdTree<T>, splitValue: real, splitDimension: nat)
    | Leaf(points: seq<seq<real>>, bucket: seq<T>, capacity: nat)

  /** A stored (point, value) pair. */
  type Entry<T> = (seq<real>, T)

  /** The default bucket capacity of `new`. */
  const DefaultCapacity: nat := 16

  function Zip<T>(ps: seq<seq<real>>, bs: seq<T>): (z: seq<Entry<T>>)
    requires |ps| == |bs|
    ensures |z| == |ps|
    ensures forall i :: 0 <= i < |z| ==> z[i] == (ps[i], bs[i])
  {
    seq(|ps|, i requires 0 <= i < |ps| => (ps[i], bs[i]))
  }

  lemma ZipSnoc<T>(ps: seq<seq<real>>, bs: seq<T>, p: seq<real>, v: T)
    requires |ps| == |bs|
    ensures Zip(ps + [p], bs + [v]) == Zip(ps, bs) + [(p, v)]
  {
  }

  /** The entries of a node in storage order: a leaf's points zipped with its bucket, a
    * stem's left entries then its right entries. */
  function EntrySeq<T>(t: KdTree<T>): seq<Entry<T>>
    decreases t
  {
    match t.content
    case Leaf(ps, bs, _) => if |ps| == |bs| then Zip(ps, bs) else []
    case Stem(l, r, _, _) => EntrySeq(l) + EntrySeq(r)
  }

  function Entries<T(==)>(t: KdTree<T>): multiset<Entry<T>> {
    multiset(EntrySeq(t))
  }

  /** Lower bounds are finite or +inf (untouched), upper bounds finite or -inf. */
  predicate BoundsShape(lo: seq<Float>, hi: seq<Float>) {
    |lo| == |hi| &&
    forall i :: 0 <= i < |lo| ==> (lo[i].Fin? || lo[i].PosInf?) && (hi[i].Fin? || hi[i].NegInf?)
  }

  /** What holds of every node: K-dimensional bounds that contain every entry, and a
    * size that counts the entries. */
  predicate NodeBasics<T(==)>(t: KdTree<T>, k: nat) {
    |t.minBounds| == k && BoundsShape(t.minBounds, t.maxBounds) &&
    t.size == |EntrySeq(t)| &&
    forall e | e in Entries(t) :: InBox(e.0, t.minBounds, t.maxBounds)
  }

  /** A leaf holds as many points as values, has a non-zero capacity, and exceeds that
    * capacity only when all its points coincide (its box is a single point). */
  predicate LeafShape<T>(t: KdTree<T>) {
    t.content.Leaf? && |t.content.points| == |t.content.bucket| && t.content.capacity >= 1
  }

  /** The tree invariant: every node satisfies the basics; a stem's left entries lie
    * strictly below its split value on its split dimension and its right entries on or
    * above it. */
  predicate Valid<T(==)>(t: KdTree<T>, k: nat)
    decreases t
  {
    NodeBasics(t, k) &&
    match t.content
    case Leaf(ps, bs, cap) =>
      LeafShape(t) && (|ps| > cap ==> t.minBounds == t.maxBounds)
    case Stem(l, r, sv, sd) =>
      sd < k && Valid(l, k) && Valid(r, k) &&
      (forall e | e in Entries(l) :: e.0[sd] < sv) &&
      (forall e | e in Entries(r) :: sv <= e.0[sd])
  }

  /** Every leaf below `t` has capacity `c`: `split` builds both children with the
    * capacity of the leaf it splits. */
  predicate LeafCapacities<T>(t: KdTree<T>, c: nat)
    decreases t
  {
    match t.content
    case Leaf(_, _, cap) => cap == c
    case Stem(l, r, _, _) => LeafCapacities(l, c) && LeafCapacities(r, c)
  }

  /** `t'` has the shape of `t` at every node: the same box, the same kind, a stem the
    * same split and a leaf the same capacity. */
  predicate SameShape<T>(t: KdTree<T>, t': KdTree<T>)
    decreases t
  {
    t'.minBounds == t.minBounds && t'.maxBounds == t.maxBounds &&
    match t.content
    case Leaf(_, _, cap) => t'.content.Leaf? && t'.content.capacity == cap
    case Stem(l, r, sv, sd) =>
      t'.content.Stem? && t'.content.splitValue == sv && t'.content.splitDimension == sd &&
      SameShape(l, t'.content.left) && SameShape(r, t'.content.right)
  }

  /** A tree of the same shape has the same leaf capacities. */
  lemma {:induction false} SameShapeCapacities<T>(t: KdTree<T>, t': KdTree<T>, c: nat)
    requires SameShape(t, t') && LeafCapacities(t, c)
    ensures LeafCapacities(t', c)
    decreases t
  {
    if t.content.Stem? {
      SameShapeCapacities(t.content.left, t'.content.left, c);
      SameShapeCapacities(t.content.right, t'.content.right, c);
    }
  }

  /** The box of an empty tree: +inf below, -inf above. */
  function EmptyLo(k: nat): (s: seq<Float>)
    ensures |s| == k && forall i :: 0 <= i < k ==> s[i] == PosInf
  {
    seq(k, _ => PosInf)
  }

  function EmptyHi(k: nat): (s: seq<Float>)
    ensures |s| == k && forall i :: 0 <= i < k ==> s[i] == NegInf
  {
    seq(k, _ => NegInf)
  }

  /** One axis of `extend`: lower the minimum when `v < l`, raise the maximum when `v > h`. */
  function WidenLo(l: Float, v: real): Float {
    if Lt(Fin(v), l) then Fin(v) else l
  }

  function WidenHi(h: Float, v: real): Float {
    if Lt(h, Fin(v)) then Fin(v) else h
  }

  /** The bounds after `extend(p)`. */
  function Widen(lo: seq<Float>, hi: seq<Float>, p: seq<real>): (r: (seq<Float>, seq<Float>))
    requires |lo| == |hi| == |p|
    ensures |r.0| == |r.1| == |p|
  {
    (seq(|p|, i requires 0 <= i < |p| => WidenLo(lo[i], p[i])),
     seq(|p|, i requires 0 <= i < |p| => WidenHi(hi[i], p[i])))
  }

  /** Widening keeps the shape, contains the added point and everything the old box
    * contained, and is the least such box on every axis. */
  lemma WidenContains(lo: seq<Float>, hi: seq<Float>, p: seq<real>)
    requires |lo| == |hi| == |p| && BoundsShape(lo, hi)
    ensures BoundsShape(Widen(lo, hi, p).0, Widen(lo, hi, p).1)
    ensures InBox(p, Widen(lo, hi, p).0, Widen(lo, hi, p).1)
    ensures forall q :: InBox(q, lo, hi) ==> InBox(q, Widen(lo, hi, p).0, Widen(lo, hi, p).1)
    ensures forall i :: 0 <= i < |p| ==>
      Widen(lo, hi, p).0[i] == (if Le(lo[i], Fin(p[i])) then lo[i] else Fin(p[i])) &&
      Widen(lo, hi, p).1[i] == (if Le(Fin(p[i]), hi[i]) then hi[i] else Fin(p[i]))
  {
  }

  function PointsHaveDim(ps: seq<seq<real>>, k: nat): bool {
    forall i :: 0 <= i < |ps| ==> |ps[i]| == k
  }

  /** The box `extend` builds from the empty box by adding `ps` in order. */
  function TightBounds(ps: seq<seq<real>>, k: nat): (r: (seq<Float>, seq<Float>))
    requires PointsHaveDim(ps, k)
    ensures |r.0| == |r.1| == k
    decreases |ps|
  {
    if |ps| == 0 then (EmptyLo(k), EmptyHi(k))
    else
      var b := TightBounds(ps[..|ps| - 1], k);
      Widen(b.0, b.1, ps[|ps| - 1])
  }

  /** A leaf whose box is exactly the one its points span. */
  predicate Tight<T>(t: KdTree<T>, k: nat) {
    t.content.Leaf? && PointsHaveDim(t.content.points, k) &&
    (t.minBounds, t.maxBounds) == TightBounds(t.content.points, k)
  }

  /** 0 for a tight leaf, 1 otherwise: the second component of the termination measure
    * of splitting. */
  function TightBit<T>(t: KdTree<T>, k: nat): nat {
    if Tight(t, k) then 0 else 1
  }

  /** Adding a point to a tight leaf keeps it tight. */
  lemma TightSnoc(ps: seq<seq<real>>, p: seq<real>, k: nat)
    requires PointsHaveDim(ps, k) && |p| == k
    ensures PointsHaveDim(ps + [p], k)
    ensures TightBounds(ps + [p], k) == Widen(TightBounds(ps, k).0, TightBounds(ps, k).1, p)
  {
    assert (ps + [p])[..|ps|] == ps;
  }

  /** The tight box of points that all coincide with `c` is the single point `c`. */
  lemma {:induction false} TightAllSame(ps: seq<seq<real>>, c: seq<real>, k: nat)
    requires |c| == k && |ps| > 0
    requires forall i :: 0 <= i < |ps| ==> ps[i] == c
    ensures PointsHaveDim(ps, k)
    ensures TightBounds(ps, k) == (Fins(c), Fins(c))
    decreases |ps|
  {
    var n := |ps| - 1;
    if n > 0 {
      TightAllSame(ps[..n], c, k);
      var w := Widen(Fins(c), Fins(c), c);
      assert w.0 == Fins(c) && w.1 == Fins(c);
    } else {
      var w := Widen(EmptyLo(k), EmptyHi(k), c);
      assert w.0 == Fins(c) && w.1 == Fins(c);
    }
  }

  /** Every bound of a non-empty tight box is attained by one of its points. */
  lemma {:induction false} TightAttained(ps: seq<seq<real>>, k: nat, d: nat) returns (i: nat, j: nat)
    requires PointsHaveDim(ps, k) && |ps| > 0 && d < k
    ensures i < |ps| && j < |ps|
    ensures TightBounds(ps, k).0[d] == Fin(ps[i][d])
    ensures TightBounds(ps, k).1[d] == Fin(ps[j][d])
    decreases |ps|
  {
    var n := |ps| - 1;
    if n == 0 {
      i, j := 0, 0;
    } else {
      var b := TightBounds(ps[..n], k);
      i, j := TightAttained(ps[..n], k, d);
      if Lt(Fin(ps[n][d]), b.0[d]) {
        i := n;
      }
      if Lt(b.1[d], Fin(ps[n][d])) {
        j := n;
      }
    }
  }

  /** A tight box has the bounds shape and contains every one of its points. */
  lemma {:induction false} TightContains(ps: seq<seq<real>>, k: nat)
    requires PointsHaveDim(ps, k)
    ensures BoundsShape(TightBounds(ps, k).0, TightBounds(ps, k).1)
    ensures forall i :: 0 <= i < |ps| ==> InBox(ps[i], TightBounds(ps, k).0, TightBounds(ps, k).1)
    decreases |ps|
  {
    if |ps| > 0 {
      var n := |ps| - 1;
      TightContains(ps[..n], k);
      var b := TightBounds(ps[..n], k);
      WidenContains(b.0, b.1, ps[n]);
      assert forall i :: 0 <= i < n ==> ps[i] == ps[..n][i];
    }
  }

  /** `check_point`: every coordinate of the query or insertion point must be finite. */
  function CheckPoint(p: seq<Float>): (r: Result<()>)
    ensures r.Ok? <==> AllFinite(p)
    ensures r.Err? ==> r.error == NonFiniteCoordinate
  {
    if AllFinite(p) then Ok(()) else Err(NonFiniteCoordinate)
  }

  /** An empty leaf with the given capacity. */
  function EmptyLeaf<T>(cap: nat, k: nat): KdTree<T> {
    KdTree(0, EmptyLo(k), EmptyHi(k), Leaf([], [], cap))
  }

  /** `with_capacity`: a zero capacity is refused; otherwise an empty leaf whose box
    * is the empty box. */
  function WithCapacity<T(==)>(capacity: nat, k: nat): (r: Result<KdTree<T>>)
    ensures r.Err? <==> capacity == 0
    ensures r.Err? ==> r.error == ZeroCapacity
    ensures r.Ok? ==> Valid(r.value, k) && r.value.size == 0 && Entries(r.value) == multiset{}
    ensures r.Ok? ==> r.value.content.Leaf? && r.value.content.capacity == capacity
    ensures r.Ok? ==> LeafCapacities(r.value, capacity)
    ensures r.Ok? ==> Tight(r.value, k)
  {
    if capacity == 0 then Err(ZeroCapacity) else Ok(EmptyLeaf(capacity, k))
  }

  /** `new`: `with_capacity(16)`, which cannot fail. */
  function New<T(==)>(k: nat): (t: KdTree<T>)
    ensures Valid(t, k) && t.size == 0 && Entries(t) == multiset{}
    ensures t.content.Leaf? && t.content.capacity == DefaultCapacity
    ensures LeafCapacities(t, DefaultCapacity)
  {
    WithCapacity(DefaultCapacity, k).value
  }

  /** `size`: the number of stored entries. */
  function Size<T(==)>(t: KdTree<T>): (n: nat)
    ensures Valid(t, |t.minBounds|) ==> n == |Entries(t)|
  {
    t.size
  }

  /** `is_leaf`. */
  function IsLeaf<T>(t: KdTree<T>): (b: bool)
    ensures b <==> t.content.Leaf?
  {
    match t.content
    case Leaf(_, _, _) => true
    case Stem(_, _, _, _) => false
  }

  /** In a valid tree every stored point is finite and K-dimensional, and a non-empty
    * tree has a finite box. */
  lemma ValidEntriesInBox<T>(t: KdTree<T>, k: nat, e: Entry<T>)
    requires Valid(t, k) && e in Entries(t)
    ensures |e.0| == k
    ensures AllFinite(t.minBounds) && AllFinite(t.maxBounds)
    ensures forall i :: 0 <= i < k ==> t.minBounds[i].r <= e.0[i] <= t.maxBounds[i].r
  {
  }

  /** `belongs_in_left`: a point goes to the left child of a stem when its coordinate on
    * the split dimension is below the split value. */
  function BelongsInLeft<T>(t: KdTree<T>, p: seq<real>): bool
    requires t.content.Stem? && t.content.splitDimension < |p|
  {
    p[t.content.splitDimension] < t.content.splitValue
  }

  /** In a valid stem, `belongs_in_left` sends every stored point to the child holding it. */
  lemma BelongsInLeftSeparates<T>(t: KdTree<T>, k: nat, e: Entry<T>)
    requires Valid(t, k) && t.content.Stem? && e in Entries(t)
    ensures t.content.splitDimension < |e.0|
    ensures BelongsInLeft(t, e.0) <==> e in Entries(t.content.left)
    ensures !BelongsInLeft(t, e.0) <==> e in Entries(t.content.right)
  {
    ValidEntriesInBox(t, k, e);
    var l, r := t.content.left, t.content.right;
    assert Entries(t) == Entries(l) + Entries(r);
  }
}
