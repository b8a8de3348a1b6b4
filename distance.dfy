/** The plain distance metrics of src/distance.rs (the SIMD variants are not modelled). */
module Distance {

  /** `squared_euclidean`: the zip/map/fold that adds (a[i] - b[i])^2 to an accumulator
    * starting at 0, left to right. The debug assertion demands equal lengths. */
  function SquaredEuclidean(a: seq<real>, b: seq<real>): (r: real)
    requires |a| == |b|
    ensures r >= 0.0
    decreases |a|
  {
    if |a| == 0 then 0.0
    else
      var n := |a| - 1;
      SquaredEuclidean(a[..n], b[..n]) + (a[n] - b[n]) * (a[n] - b[n])
  }

  /** Reference definition: the sum of squared differences, head first. */
  function SumSquares(a: seq<real>, b: seq<real>): real
    requires |a| == |b|
  {
    if |a| == 0 then 0.0 else (a[0] - b[0]) * (a[0] - b[0]) + SumSquares(a[1..], b[1..])
  }

  lemma {:induction false} SquaredEuclideanIsSumSquares(a: seq<real>, b: seq<real>)
    requires |a| == |b|
    ensures SquaredEuclidean(a, b) == SumSquares(a, b)
    decreases |a|
  {
    if |a| > 0 {
      var n := |a| - 1;
      SquaredEuclideanIsSumSquares(a[..n], b[..n]);
      SumSquaresSnoc(a[..n], b[..n], a[n], b[n]);
      assert a[..n] + [a[n]] == a && b[..n] + [b[n]] == b;
    }
  }

  lemma {:induction false} SumSquaresSnoc(a: seq<real>, b: seq<real>, x: real, y: real)
    requires |a| == |b|
    ensures SumSquares(a + [x], b + [y]) == SumSquares(a, b) + (x - y) * (x - y)
    decreases |a|
  {
    if |a| > 0 {
      assert (a + [x])[1..] == a[1..] + [x] && (b + [y])[1..] == b[1..] + [y];
      SumSquaresSnoc(a[1..], b[1..], x, y);
    }
  }

  /** The metric is symmetric. */
  lemma {:induction false} SquaredEuclideanSymmetric(a: seq<real>, b: seq<real>)
    requires |a| == |b|
    ensures SquaredEuclidean(a, b) == SquaredEuclidean(b, a)
    decreases |a|
  {
    if |a| > 0 {
      var n := |a| - 1;
      SquaredEuclideanSymmetric(a[..n], b[..n]);
      assert (a[n] - b[n]) * (a[n] - b[n]) == (b[n] - a[n]) * (b[n] - a[n]);
    }
  }

  /** The distance from a point to itself is zero. */
  lemma {:induction false} SquaredEuclideanSelfZero(a: seq<real>)
    ensures SquaredEuclidean(a, a) == 0.0
    decreases |a|
  {
    if |a| > 0 {
      SquaredEuclideanSelfZero(a[..|a| - 1]);
    }
  }

  /** The doc examples: 0, 2 and 1. */
  lemma SquaredEuclideanExamples()
    ensures SquaredEuclidean([0.0, 0.0], [0.0, 0.0]) == 0.0
    ensures SquaredEuclidean([0.0, 0.0], [1.0, 1.0]) == 2.0
    ensures SquaredEuclidean([0.0, 0.0], [1.0, 0.0]) == 1.0
  {
    assert [0.0, 0.0][..1] == [0.0];
    assert [1.0, 1.0][..1] == [1.0];
    assert [1.0, 0.0][..1] == [1.0];
  }

  /** `dot_product`: the fold starts at 0 and SUBTRACTS each product, left to right, so a
    * vector against itself yields its negated squared length, never a positive value. */
  function DotProduct(a: seq<real>, b: seq<real>): (r: real)
    requires |a| == |b|
    ensures a == b ==> r <= 0.0
    decreases |a|
  {
    if |a| == 0 then 0.0
    else
      var n := |a| - 1;
      DotProduct(a[..n], b[..n]) - a[n] * b[n]
  }

  /** Reference definition: the ordinary inner product, head first. */
  function InnerProduct(a: seq<real>, b: seq<real>): real
    requires |a| == |b|
  {
    if |a| == 0 then 0.0 else a[0] * b[0] + InnerProduct(a[1..], b[1..])
  }

  lemma {:induction false} InnerProductSnoc(a: seq<real>, b: seq<real>, x: real, y: real)
    requires |a| == |b|
    ensures InnerProduct(a + [x], b + [y]) == InnerProduct(a, b) + x * y
    decreases |a|
  {
    if |a| > 0 {
      assert (a + [x])[1..] == a[1..] + [x] && (b + [y])[1..] == b[1..] + [y];
      InnerProductSnoc(a[1..], b[1..], x, y);
    }
  }

  /** `dot_product` yields the NEGATED inner product. */
  lemma {:induction false} DotProductIsNegatedInnerProduct(a: seq<real>, b: seq<real>)
    requires |a| == |b|
    ensures DotProduct(a, b) == -InnerProduct(a, b)
    decreases |a|
  {
    if |a| > 0 {
      var n := |a| - 1;
      var a', b', x := a[..n], b[..n], a[n] * b[n];
      assert DotProduct(a, b) == DotProduct(a', b') - x;
      DotProductIsNegatedInnerProduct(a', b');
      InnerProductSnoc(a', b', a[n], b[n]);
      assert a' + [a[n]] == a && b' + [b[n]] == b;
      assert InnerProduct(a, b) == InnerProduct(a', b') + x;
    }
  }

  /** Which path `dot_product_sse` takes: the SSE intrinsic, for slices of length 3 or 4,
    * or the scalar fallback with its value. */
  datatype SsePath = Intrinsic | Fallback(value: real)

  /** `dot_product_sse`: lengths 3 and 4 go to the intrinsic; every other length falls
    * back to `dot_product`, and so yields the negated inner product. */
  function DotProductSse(a: seq<real>, b: seq<real>): (r: SsePath)
    requires |a| == |b|
    ensures r.Intrinsic? <==> |a| == 3 || |a| == 4
    ensures r.Fallback? ==> r.value == -InnerProduct(a, b)
  {
    DotProductIsNegatedInnerProduct(a, b);
    if |a| == 3 || |a| == 4 then Intrinsic else Fallback(DotProduct(a, b))
  }
}
