/** `util::distance_to_space`: the squared Euclidean distance from a point to the
  * nearest point of an axis-aligned box, the lower bound that every query prunes with. */
module Util {
  import opened Floats
  import opened Distance

  /** Bounds that carry no NaN (node boxes never do). */
  predicate NoNaN(s: seq<Float>) {
    forall i :: 0 <= i < |s| ==> !s[i].NaN?
  }

  /** One axis of the clamp: the bound the coordinate lies beyond, else the coordinate. */
  function ClampAxis(x: real, lo: Float, hi: Float): Float {
    if Lt(hi, Fin(x)) then hi
    else if Lt(Fin(x), lo) then lo
    else Fin(x)
  }

  function Clamp(p: seq<real>, lo: seq<Float>, hi: seq<Float>): (c: seq<Float>)
    requires |p| == |lo| == |hi|
    ensures |c| == |p|
  {
    seq(|p|, i requires 0 <= i < |p| => ClampAxis(p[i], lo[i], hi[i]))
  }

  /** The squared difference of a finite coordinate and an extended one. */
  function SquaredGap(x: real, y: Float): Float {
    match y
    case Fin(v) => Fin((x - v) * (x - v))
    case NaN => NaN
    case _ => PosInf
  }

  /** `squared_euclidean` applied to a finite point and a point that may hold infinities:
    * the same left fold, in IEEE addition. */
  function SquaredEuclideanExt(a: seq<real>, b: seq<Float>): (r: Float)
    requires |a| == |b|
    ensures NoNaN(b) ==> r == PosInf || (r.Fin? && r.r >= 0.0)
    decreases |a|
  {
    if |a| == 0 then Fin(0.0)
    else
      var n := |a| - 1;
      Add(SquaredEuclideanExt(a[..n], b[..n]), SquaredGap(a[n], b[n]))
  }

  /** On finite points the extended fold is the plain metric. */
  lemma {:induction false} SquaredEuclideanExtFinite(a: seq<real>, b: seq<real>)
    requires |a| == |b|
    ensures SquaredEuclideanExt(a, Fins(b)) == Fin(SquaredEuclidean(a, b))
    decreases |a|
  {
    if |a| > 0 {
      var n := |a| - 1;
      assert Fins(b)[..n] == Fins(b[..n]);
      SquaredEuclideanExtFinite(a[..n], b[..n]);
      assert SquaredGap(a[n], Fins(b)[n]) == Fin((a[n] - b[n]) * (a[n] - b[n]));
    }
  }

  /** The specification of `distance_to_space` with the squared Euclidean metric. */
  function BoxDistance(p: seq<real>, lo: seq<Float>, hi: seq<Float>): Float
    requires |p| == |lo| == |hi|
  {
    SquaredEuclideanExt(p, Clamp(p, lo, hi))
  }

  /** A finite point lies in the box [lo, hi]. */
  predicate InBox(q: seq<real>, lo: seq<Float>, hi: seq<Float>) {
    |q| == |lo| == |hi| &&
    forall i :: 0 <= i < |q| ==> Le(lo[i], Fin(q[i])) && Le(Fin(q[i]), hi[i])
  }

  /** `distance_to_space`: fills a scratch array, initialised to NaN, with the clamp of
    * `p1` into the box, one axis at a time, then measures the distance to it. */
  method DistanceToSpace(p1: seq<real>, minBounds: seq<Float>, maxBounds: seq<Float>) returns (d: Float)
    requires |p1| == |minBounds| == |maxBounds|
    ensures d == BoxDistance(p1, minBounds, maxBounds)
    ensures NoNaN(minBounds) && NoNaN(maxBounds) ==> d == PosInf || (d.Fin? && d.r >= 0.0)
  {
    var k := |p1|;
    var p2 := new Float[k](_ => NaN);
    for i := 0 to k
      invariant forall j :: 0 <= j < i ==> p2[j] == ClampAxis(p1[j], minBounds[j], maxBounds[j])
    {
      if Lt(maxBounds[i], Fin(p1[i])) {
        p2[i] := maxBounds[i];
      } else if Lt(Fin(p1[i]), minBounds[i]) {
        p2[i] := minBounds[i];
      } else {
        p2[i] := Fin(p1[i]);
      }
    }
    assert p2[..] == Clamp(p1, minBounds, maxBounds);
    if NoNaN(minBounds) && NoNaN(maxBounds) {
      ClampHasNoNaN(p1, minBounds, maxBounds);
    }
    d := SquaredEuclideanExt(p1, p2[..]);
  }

  /** Every slot of the clamp is overwritten: no NaN placeholder survives. */
  lemma ClampHasNoNaN(p: seq<real>, lo: seq<Float>, hi: seq<Float>)
    requires |p| == |lo| == |hi|
    requires NoNaN(lo) && NoNaN(hi)
    ensures NoNaN(Clamp(p, lo, hi))
  {
  }

  /** When lo <= hi on every axis, the clamped point lies inside the box. */
  lemma ClampInBox(p: seq<real>, lo: seq<Float>, hi: seq<Float>)
    requires |p| == |lo| == |hi|
    requires forall i :: 0 <= i < |p| ==> Le(lo[i], hi[i])
    ensures forall i :: 0 <= i < |p| ==>
      Le(lo[i], Clamp(p, lo, hi)[i]) && Le(Clamp(p, lo, hi)[i], hi[i])
  {
    forall i | 0 <= i < |p|
      ensures Le(lo[i], Clamp(p, lo, hi)[i]) && Le(Clamp(p, lo, hi)[i], hi[i])
    {
      LtIsStrictOrder(lo[i], hi[i], Fin(p[i]));
      LtIsStrictOrder(Fin(p[i]), lo[i], hi[i]);
    }
  }

  /** A point inside the box is its own clamp, so its distance to the box is zero. */
  lemma InsideBoxDistanceZero(p: seq<real>, lo: seq<Float>, hi: seq<Float>)
    requires InBox(p, lo, hi)
    ensures Clamp(p, lo, hi) == Fins(p)
    ensures BoxDistance(p, lo, hi) == Fin(0.0)
  {
    assert Clamp(p, lo, hi) == Fins(p);
    SquaredEuclideanExtFinite(p, p);
    SquaredEuclideanSelfZero(p);
  }

  /** Per axis, the clamp is at least as close to x as any coordinate y of the box. */
  lemma SquaredGapLowerBound(x: real, y: real, lo: Float, hi: Float)
    requires Le(lo, Fin(y)) && Le(Fin(y), hi)
    ensures ClampAxis(x, lo, hi).Fin?
    ensures ClampAxis(x, lo, hi).r - x <= y - x || x - ClampAxis(x, lo, hi).r <= x - y
    ensures Le(SquaredGap(x, ClampAxis(x, lo, hi)), Fin((x - y) * (x - y)))
  {
    var c := ClampAxis(x, lo, hi);
    if Lt(hi, Fin(x)) {
      SquareMonotone(x - hi.r, x - y);
    } else if Lt(Fin(x), lo) {
      SquareMonotone(lo.r - x, y - x);
      assert (x - lo.r) * (x - lo.r) == (lo.r - x) * (lo.r - x);
      assert (x - y) * (x - y) == (y - x) * (y - x);
    } else {
      assert (x - y) * (x - y) >= 0.0;
    }
  }

  lemma SquareMonotone(a: real, b: real)
    requires 0.0 <= a <= b
    ensures a * a <= b * b
  {
    assert a * a <= a * b;
    assert a * b <= b * b;
  }

  /** Pruning soundness: the distance to the box never exceeds the distance to any point
    * inside it. */
  lemma {:induction false} BoxDistanceLowerBound(p: seq<real>, lo: seq<Float>, hi: seq<Float>, q: seq<real>)
    requires |p| == |q|
    requires InBox(q, lo, hi)
    ensures BoxDistance(p, lo, hi).Fin?
    ensures Le(BoxDistance(p, lo, hi), Fin(SquaredEuclidean(p, q)))
    decreases |p|
  {
    if |p| > 0 {
      var n := |p| - 1;
      assert InBox(q[..n], lo[..n], hi[..n]);
      BoxDistanceLowerBound(p[..n], lo[..n], hi[..n], q[..n]);
      assert Clamp(p, lo, hi)[..n] == Clamp(p[..n], lo[..n], hi[..n]);
      SquaredGapLowerBound(p[n], q[n], lo[n], hi[n]);
    }
  }

  lemma SquaredEuclideanExtPair(x0: real, x1: real, c0: Float, c1: Float)
    ensures SquaredEuclideanExt([x0, x1], [c0, c1])
         == Add(Add(Fin(0.0), SquaredGap(x0, c0)), SquaredGap(x1, c1))
  {
    assert [x0, x1][..1] == [x0] && [c0, c1][..1] == [c0];
    assert [x0][..0] == [] && [c0][..0] == [];
    assert SquaredEuclideanExt([], []) == Fin(0.0);
    assert SquaredEuclideanExt([x0], [c0]) == Add(Fin(0.0), SquaredGap(x0, c0));
  }

  lemma BoxDistancePair(x0: real, x1: real, lo0: Float, lo1: Float, hi0: Float, hi1: Float)
    ensures BoxDistance([x0, x1], [lo0, lo1], [hi0, hi1])
         == Add(Add(Fin(0.0), SquaredGap(x0, ClampAxis(x0, lo0, hi0))),
                SquaredGap(x1, ClampAxis(x1, lo1, hi1)))
  {
    assert Clamp([x0, x1], [lo0, lo1], [hi0, hi1]) == [ClampAxis(x0, lo0, hi0), ClampAxis(x1, lo1, hi1)];
    SquaredEuclideanExtPair(x0, x1, ClampAxis(x0, lo0, hi0), ClampAxis(x1, lo1, hi1));
  }

  /** The unit tests of src/util.rs: a box beside the query point, and the same box
    * unbounded above. */
  lemma BoxDistanceExamplesOutside()
    ensures BoxDistance([0.0, 0.0], [Fin(1.0), Fin(1.0)], [Fin(2.0), Fin(2.0)]) == Fin(2.0)
    ensures BoxDistance([0.0, 0.0], [Fin(1.0), Fin(1.0)], [PosInf, PosInf]) == Fin(2.0)
    ensures BoxDistance([-2.0, 0.0], [Fin(0.0), NegInf], [PosInf, PosInf]) == Fin(4.0)
  {
    assert ClampAxis(0.0, Fin(1.0), Fin(2.0)) == Fin(1.0);
    assert ClampAxis(0.0, Fin(1.0), PosInf) == Fin(1.0);
    assert ClampAxis(-2.0, Fin(0.0), PosInf) == Fin(0.0);
    assert ClampAxis(0.0, NegInf, PosInf) == Fin(0.0);
    assert SquaredGap(0.0, Fin(1.0)) == Fin(1.0);
    assert SquaredGap(-2.0, Fin(0.0)) == Fin(4.0);
    assert SquaredGap(0.0, Fin(0.0)) == Fin(0.0);
    BoxDistancePair(0.0, 0.0, Fin(1.0), Fin(1.0), Fin(2.0), Fin(2.0));
    BoxDistancePair(0.0, 0.0, Fin(1.0), Fin(1.0), PosInf, PosInf);
    BoxDistancePair(-2.0, 0.0, Fin(0.0), NegInf, PosInf, PosInf);
  }

  /** The unit tests of src/util.rs: a point inside the unbounded box and inside a
    * bounded one. */
  lemma BoxDistanceExamplesInside()
    ensures BoxDistance([2.0, 2.0], [NegInf, NegInf], [PosInf, PosInf]) == Fin(0.0)
    ensures BoxDistance([2.0, 2.0], [Fin(0.0), Fin(0.0)], [Fin(3.0), Fin(3.0)]) == Fin(0.0)
  {
    assert ClampAxis(2.0, NegInf, PosInf) == Fin(2.0);
    assert ClampAxis(2.0, Fin(0.0), Fin(3.0)) == Fin(2.0);
    assert SquaredGap(2.0, Fin(2.0)) == Fin(0.0);
    BoxDistancePair(2.0, 2.0, NegInf, NegInf, PosInf, PosInf);
    BoxDistancePair(2.0, 2.0, Fin(0.0), Fin(0.0), Fin(3.0), Fin(3.0));
  }
}
