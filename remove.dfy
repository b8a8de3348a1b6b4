/** Removal: `remove` of src/kiddo.rs. A leaf drops the entries that match both the point
  * and the value; a stem asks its right child, then its left child, and subtracts what
  * they removed from its count. Bounds are never shrunk and no stem becomes a leaf. */
module Remove {
  import opened Floats
  import opened Util
  import opened Tree

  /** `Iterator::position`: the first index holding `x`. */
  function Position<X(==)>(s: seq<X>, x: X): (r: Option<nat>)
    ensures r.None? <==> x !in s
    ensures r.Some? ==> r.value < |s| && s[r.value] == x && x !in s[..r.value]
  {
    if |s| == 0 then None
    else if s[0] == x then Some(0)
    else
      match Position(s[1..], x)
      case None => None
      case Some(i) =>
        assert s[..i + 1] == [s[0]] + s[1..][..i];
        Some(i + 1)
  }

  /** Reference definition: the sequence with every occurrence of `x` left out. */
  function Without<X(==)>(s: seq<X>, x: X): (r: seq<X>)
    ensures x !in r
    ensures multiset(r) == multiset(s)[x := 0]
    ensures |r| + multiset(s)[x] == |s|
  {
    if |s| == 0 then []
    else
      assert s == [s[0]] + s[1..];
      if s[0] == x then Without(s[1..], x) else [s[0]] + Without(s[1..], x)
  }

  /** `Vec::remove(i)`: the element at `i` is taken out and the rest shift down. */
  function RemoveAt<X>(s: seq<X>, i: nat): (r: seq<X>)
    requires i < |s|
    ensures |r| == |s| - 1
  {
    s[..i] + s[i + 1..]
  }

  /** Taking out one occurrence of `x` leaves the sequence without `x` as it was, and one
    * occurrence fewer. */
  lemma {:induction false} WithoutRemoveAt<X>(s: seq<X>, i: nat, x: X)
    requires i < |s| && s[i] == x
    ensures Without(RemoveAt(s, i), x) == Without(s, x)
    ensures multiset(RemoveAt(s, i))[x] + 1 == multiset(s)[x]
    decreases i
  {
    assert s == s[..i] + [x] + s[i + 1..];
    if i == 0 {
      assert RemoveAt(s, i) == s[1..];
    } else {
      assert RemoveAt(s, i)[1..] == RemoveAt(s[1..], i - 1);
      assert s[1..][i - 1] == x;
      WithoutRemoveAt(s[1..], i - 1, x);
    }
  }

  lemma ZipRemoveAt<T>(ps: seq<seq<real>>, bs: seq<T>, i: nat)
    requires |ps| == |bs| && i < |ps|
    ensures Zip(RemoveAt(ps, i), RemoveAt(bs, i)) == RemoveAt(Zip(ps, bs), i)
  {
  }

  /** The corrected leaf loop of `remove`: repeatedly finds the first entry whose point
    * AND value match and takes it out of both vectors. */
  method LeafRemove<T(==)>(points: seq<seq<real>>, bucket: seq<T>, p: seq<real>, v: T)
      returns (points': seq<seq<real>>, bucket': seq<T>, removed: nat)
    requires |points| == |bucket|
    ensures |points'| == |bucket'|
    ensures Zip(points', bucket') == Without(Zip(points, bucket), (p, v))
    ensures removed == multiset(Zip(points, bucket))[(p, v)]
  {
    points', bucket', removed := points, bucket, 0;
    while true
      invariant |points'| == |bucket'|
      invariant Without(Zip(points', bucket'), (p, v)) == Without(Zip(points, bucket), (p, v))
      invariant removed + multiset(Zip(points', bucket'))[(p, v)] == multiset(Zip(points, bucket))[(p, v)]
      decreases |points'|
    {
      var found := Position(Zip(points', bucket'), (p, v));
      if found.None? {
        break;
      }
      var i := found.value;
      WithoutRemoveAt(Zip(points', bucket'), i, (p, v));
      ZipRemoveAt(points', bucket', i);
      points', bucket' := RemoveAt(points', i), RemoveAt(bucket', i);
      removed := removed + 1;
    }
    assert Without(Zip(points', bucket'), (p, v)) == Zip(points', bucket') by {
      WithoutAbsent(Zip(points', bucket'), (p, v));
    }
  }

  lemma {:induction false} WithoutAbsent<X>(s: seq<X>, x: X)
    requires x !in s
    ensures Without(s, x) == s
  {
    if |s| > 0 {
      assert x !in s[1..];
      WithoutAbsent(s[1..], x);
    }
  }

  /** One turn of the leaf loop of `remove` as written: it finds the first entry whose
    * POINT matches and takes it out only when its value matches too; otherwise nothing
    * changes. None when no point matches and the loop ends. */
  function LeafRemoveStep<T(==)>(points: seq<seq<real>>, bucket: seq<T>, p: seq<real>, v: T)
      : (r: Option<(seq<seq<real>>, seq<T>)>)
    requires |points| == |bucket|
    ensures r.None? <==> p !in points
    ensures r.Some? ==> |r.value.0| == |r.value.1|
  {
    match Position(points, p)
    case None => None
    case Some(i) =>
      if bucket[i] == v then Some((RemoveAt(points, i), RemoveAt(bucket, i)))
      else Some((points, bucket))
  }

  /** The loop as written never ends once the first point match carries another value:
    * the turn changes nothing and the loop condition still holds. */
  lemma LeafRemoveStalls<T>(points: seq<seq<real>>, bucket: seq<T>, p: seq<real>, v: T)
    requires |points| == |bucket|
    requires Position(points, p).Some? && bucket[Position(points, p).value] != v
    ensures LeafRemoveStep(points, bucket, p, v) == Some((points, bucket))
  {
  }

  /** A concrete leaf on which `remove` does not terminate: the point [1] is stored with
    * value 7, and the value 8 is removed at the same point. */
  lemma LeafRemoveStallsExample()
    ensures LeafRemoveStep([[1.0]], [7], [1.0], 8) == Some(([[1.0]], [7]))
    ensures LeafRemoveStep([[1.0]], [7], [1.0], 8).Some?
  {
    assert Position([[1.0]], [1.0]) == Some(0);
  }

  /** The leaf loop of `remove` as written, on the leaves where it terminates: those in
    * which every entry at the point carries the value. It then removes exactly the
    * matching entries, like the corrected loop. */
  method LeafRemoveAsWritten<T(==)>(points: seq<seq<real>>, bucket: seq<T>, p: seq<real>, v: T)
      returns (points': seq<seq<real>>, bucket': seq<T>, removed: nat)
    requires |points| == |bucket|
    requires forall i :: 0 <= i < |points| && points[i] == p ==> bucket[i] == v
    ensures |points'| == |bucket'|
    ensures Zip(points', bucket') == Without(Zip(points, bucket), (p, v))
    ensures removed == multiset(Zip(points, bucket))[(p, v)]
  {
    points', bucket', removed := points, bucket, 0;
    while true
      invariant |points'| == |bucket'|
      invariant forall i :: 0 <= i < |points'| && points'[i] == p ==> bucket'[i] == v
      invariant Without(Zip(points', bucket'), (p, v)) == Without(Zip(points, bucket), (p, v))
      invariant removed + multiset(Zip(points', bucket'))[(p, v)] == multiset(Zip(points, bucket))[(p, v)]
      decreases |points'|
    {
      var found := Position(points', p);
      if found.None? {
        break;
      }
      var i := found.value;
      if bucket'[i] == v {
        assert Zip(points', bucket')[i] == (p, v);
        WithoutRemoveAt(Zip(points', bucket'), i, (p, v));
        ZipRemoveAt(points', bucket', i);
        points', bucket' := RemoveAt(points', i), RemoveAt(bucket', i);
        removed := removed + 1;
      }
    }
    assert (p, v) !in Zip(points', bucket');
    WithoutAbsent(Zip(points', bucket'), (p, v));
  }

  /** The guarantees of `remove` of (p, v) from `t`, which reports `n` removed entries:
    * the result is valid, has lost every entry equal to (p, v) and nothing else, `n`
    * counts those entries, the size drops by `n`, and every node keeps its box and its
    * kind, every stem its split and every leaf its capacity. */
  predicate Removed<T(==)>(t: KdTree<T>, p: seq<real>, v: T, k: nat, t': KdTree<T>, n: nat) {
    Valid(t', k) &&
    Entries(t') == Entries(t)[(p, v) := 0] &&
    n == Entries(t)[(p, v)] &&
    t'.size + n == t.size &&
    SameShape(t, t')
  }

  /** `remove` after the point check: a leaf runs its loop and lowers its count; a stem
    * removes from its right child, then from its left child, and subtracts both counts. */
  method RemoveUnchecked<T(==)>(t: KdTree<T>, p: seq<real>, v: T, ghost k: nat) returns (t': KdTree<T>, removed: nat)
    requires Valid(t, k)
    ensures Removed(t, p, v, k, t', removed)
    ensures forall c: nat :: LeafCapacities(t, c) ==> LeafCapacities(t', c)
    decreases t
  {
    match t.content {
    case Leaf(ps, bs, cap) =>
      var ps', bs', n := LeafRemove(ps, bs, p, v);
      LeafRemoved(t, p, v, k, ps', bs', n);
      t' := KdTree(t.size - n, t.minBounds, t.maxBounds, Leaf(ps', bs', cap));
      removed := n;
    case Stem(l, r, sv, sd) =>
      var r', rightRemoved := RemoveUnchecked(r, p, v, k);
      var l', leftRemoved := RemoveUnchecked(l, p, v, k);
      StemRemovedCount(t, p, v, k, l', r', leftRemoved, rightRemoved);
      t' := KdTree(t.size - rightRemoved - leftRemoved, t.minBounds, t.maxBounds, Stem(l', r', sv, sd));
      StemRemoved(t, p, v, k, l', r', leftRemoved, rightRemoved, t');
      removed := rightRemoved + leftRemoved;
    }
    forall c: nat | LeafCapacities(t, c)
      ensures LeafCapacities(t', c)
    {
      SameShapeCapacities(t, t', c);
    }
  }

  lemma LeafRemoved<T>(t: KdTree<T>, p: seq<real>, v: T, k: nat, ps': seq<seq<real>>, bs': seq<T>, n: nat)
    requires Valid(t, k) && t.content.Leaf?
    requires |ps'| == |bs'|
    requires Zip(ps', bs') == Without(Zip(t.content.points, t.content.bucket), (p, v))
    requires n == multiset(Zip(t.content.points, t.content.bucket))[(p, v)]
    ensures n <= t.size
    ensures Removed(t, p, v, k, KdTree(t.size - n, t.minBounds, t.maxBounds, Leaf(ps', bs', t.content.capacity)), n)
  {
    var t' := KdTree(t.size - n, t.minBounds, t.maxBounds, Leaf(ps', bs', t.content.capacity));
    assert EntrySeq(t') == Zip(ps', bs');
    assert Entries(t') == Entries(t)[(p, v) := 0];
    SubEntriesInBox(t, t', k);
  }

  lemma StemRemoved<T>(t: KdTree<T>, p: seq<real>, v: T, k: nat, l': KdTree<T>, r': KdTree<T>, ln: nat, rn: nat,
                       t': KdTree<T>)
    requires Valid(t, k) && t.content.Stem?
    requires Removed(t.content.left, p, v, k, l', ln)
    requires Removed(t.content.right, p, v, k, r', rn)
    requires t'.size + rn + ln == t.size && t'.minBounds == t.minBounds && t'.maxBounds == t.maxBounds
    requires t'.content == Stem(l', r', t.content.splitValue, t.content.splitDimension)
    ensures Removed(t, p, v, k, t', rn + ln)
  {
    StemRemovedCount(t, p, v, k, l', r', ln, rn);
    assert t' == KdTree(t'.size, t.minBounds, t.maxBounds, Stem(l', r', t.content.splitValue, t.content.splitDimension));
    StemRemovedValid(t, k, l', r', t'.size);
    StemRemovedShape(t, l', r', t'.size);
  }

  /** A stem over valid children holding some of the entries of the old children, in the
    * old box and split, is valid. */
  lemma StemRemovedValid<T>(t: KdTree<T>, k: nat, l': KdTree<T>, r': KdTree<T>, n: nat)
    requires Valid(t, k) && t.content.Stem?
    requires Valid(l', k) && Valid(r', k)
    requires Entries(l') <= Entries(t.content.left) && Entries(r') <= Entries(t.content.right)
    requires n == |EntrySeq(l')| + |EntrySeq(r')|
    ensures Valid(KdTree(n, t.minBounds, t.maxBounds, Stem(l', r', t.content.splitValue, t.content.splitDimension)), k)
  {
    var l, r, sd, sv := t.content.left, t.content.right, t.content.splitDimension, t.content.splitValue;
    var t' := KdTree(n, t.minBounds, t.maxBounds, Stem(l', r', sv, sd));
    assert Entries(t) == Entries(l) + Entries(r);
    assert Entries(t') == Entries(l') + Entries(r');
    SubEntriesInBox(t, t', k);
    forall e | e in Entries(l')
      ensures e.0[sd] < sv
    {
      assert e in Entries(l);
    }
    forall e | e in Entries(r')
      ensures sv <= e.0[sd]
    {
      assert e in Entries(r);
    }
    assert NodeBasics(t', k);
  }

  lemma StemRemovedShape<T>(t: KdTree<T>, l': KdTree<T>, r': KdTree<T>, n: nat)
    requires t.content.Stem? && SameShape(t.content.left, l') && SameShape(t.content.right, r')
    ensures SameShape(t, KdTree(n, t.minBounds, t.maxBounds,
                                Stem(l', r', t.content.splitValue, t.content.splitDimension)))
  {
  }

  lemma StemRemovedCount<T>(t: KdTree<T>, p: seq<real>, v: T, k: nat, l': KdTree<T>, r': KdTree<T>, ln: nat, rn: nat)
    requires Valid(t, k) && t.content.Stem?
    requires Removed(t.content.left, p, v, k, l', ln)
    requires Removed(t.content.right, p, v, k, r', rn)
    ensures rn + ln <= t.size
    ensures Entries(KdTree(t.size - rn - ln, t.minBounds, t.maxBounds,
                           Stem(l', r', t.content.splitValue, t.content.splitDimension)))
         == Entries(t)[(p, v) := 0]
    ensures rn + ln == Entries(t)[(p, v)]
    ensures t.size - rn - ln == |EntrySeq(l')| + |EntrySeq(r')|
  {
    var l, r := t.content.left, t.content.right;
    assert Entries(t) == Entries(l) + Entries(r);
    assert |EntrySeq(t)| == |EntrySeq(l)| + |EntrySeq(r)|;
  }

  /** A node holding some of the entries of another, in the same box, keeps them in it. */
  lemma SubEntriesInBox<T>(t: KdTree<T>, t': KdTree<T>, k: nat)
    requires NodeBasics(t, k) && Entries(t') <= Entries(t)
    requires t'.minBounds == t.minBounds && t'.maxBounds == t.maxBounds
    ensures forall e | e in Entries(t') :: InBox(e.0, t'.minBounds, t'.maxBounds)
  {
    forall e | e in Entries(t')
      ensures InBox(e.0, t'.minBounds, t'.maxBounds)
    {
      assert e in Entries(t);
    }
  }

  /** `remove`: rejects a point with a non-finite coordinate, leaving the tree as it was;
    * otherwise removes every entry matching both the point and the value and returns
    * how many there were. */
  method Remove<T(==)>(t: KdTree<T>, p: seq<Float>, v: T, ghost k: nat) returns (t': KdTree<T>, r: Result<nat>)
    requires Valid(t, k) && |p| == k
    ensures r.Ok? <==> AllFinite(p)
    ensures r.Err? ==> r.error == NonFiniteCoordinate && t' == t
    ensures r.Ok? ==> Removed(t, Reals(p), v, k, t', r.value)
    ensures forall c: nat :: LeafCapacities(t, c) ==> LeafCapacities(t', c)
  {
    var c := CheckPoint(p);
    if c.Err? {
      return t, Err(c.error);
    }
    var n;
    t', n := RemoveUnchecked(t, Reals(p), v, k);
    r := Ok(n);
  }
}
