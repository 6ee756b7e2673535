/**
  The smoothing wrapper `bspline_for_d4line` of src/bsc.rs: it builds the
  clamped knot vector of a cubic B-spline over a stroke's control points and
  samples the curve at 10 * n parameters. The spline itself belongs to the
  `bspline` crate and is represented here by the two operations the wrapper
  calls on it, passed in as a SplineLib.
*/
module Smoothing {
  import opened Glyph

  /** A curve as handed to `bspline::BSpline::new(degree, control_points, knots)`. */
  datatype BSpline = BSpline(degree: nat, controlPoints: D4Line, knots: seq<real>)

  /** The crate's `BSpline::point` and `BSpline::knot_domain`. */
  datatype SplineLib = SplineLib(point: (BSpline, real) -> Vec4, knotDomain: BSpline -> (real, real))

  /** The degree of the curve and the sampling density: fixed design constants. */
  const Degree: nat := 3
  const SamplesPerPoint: nat := 10

  /** Interior knot `i` of `n`: (i + 1) / n * 4 - 2. */
  function InteriorKnot(n: nat, i: nat): real
    requires n > 0
  {
    (i + 1) as real / n as real * 4.0 - 2.0
  }

  /** The knot vector: -2, -2, the n interior knots, 2, 2. */
  function KnotVector(n: nat): (knots: seq<real>)
    requires n > 0
    ensures |knots| == n + 4
  {
    [-2.0, -2.0] + seq(n, i requires 0 <= i < n => InteriorKnot(n, i)) + [2.0, 2.0]
  }

  /** Sample parameter `i` of `count` spread over the domain [first, last): the first sample is at first, none reaches last. */
  function SampleParam(domain: (real, real), count: nat, i: nat): (param: real)
    requires count > 0
    ensures i == 0 ==> param == domain.0
    ensures i < count && domain.0 < domain.1 ==> domain.0 <= param < domain.1
  {
    var q := i as real / count as real;
    assert q * count as real == i as real;
    if i < count && domain.0 < domain.1 then
      assert 0.0 <= q < 1.0;
      ScaledBelow(domain.1 - domain.0, q);
      (domain.1 - domain.0) * q + domain.0
    else
      (domain.1 - domain.0) * q + domain.0
  }

  /** The spline the wrapper builds over a stroke of at least four points. */
  function SplineOf(row: D4Line): BSpline
    requires |row| >= 4
  {
    BSpline(Degree, row, KnotVector(|row|))
  }

  /**
    The dense stroke: empty below four control points, otherwise the curve
    evaluated at 10 * n parameters spread evenly over its knot domain.
  */
  function Smooth(row: D4Line, lib: SplineLib): (dense: D4Line)
    ensures |row| < 4 ==> dense == []
    ensures |row| >= 4 ==> |dense| == SamplesPerPoint * |row|
    ensures |row| >= 4 ==> forall i :: 0 <= i < |dense| ==>
      dense[i] == lib.point(SplineOf(row),
                            SampleParam(lib.knotDomain(SplineOf(row)), SamplesPerPoint * |row|, i))
  {
    if |row| < 4 then []
    else
      var spline := SplineOf(row);
      seq(SamplesPerPoint * |row|, i requires 0 <= i < SamplesPerPoint * |row| =>
        lib.point(spline, SampleParam(lib.knotDomain(spline), SamplesPerPoint * |row|, i)))
  }

  lemma InteriorKnotMonotone(n: nat, i: nat, j: nat)
    requires n > 0 && i <= j
    ensures InteriorKnot(n, i) <= InteriorKnot(n, j)
  {
    var a := (i + 1) as real;
    var b := (j + 1) as real;
    var m := n as real;
    assert a / m <= b / m by {
      assert a / m * m == a && b / m * m == b;
    }
  }

  lemma InteriorKnotBounds(n: nat, i: nat)
    requires n > 0 && i < n
    ensures -2.0 < InteriorKnot(n, i) <= 2.0
    ensures i == n - 1 ==> InteriorKnot(n, i) == 2.0
  {
    var a := (i + 1) as real;
    var m := n as real;
    assert 0.0 < a / m <= 1.0 by {
      assert a / m * m == a;
    }
  }

  /**
    The knot vector satisfies BSpline::new: n + degree + 1 knots, in
    non-decreasing order, clamped at -2 and at 2, and its last interior knot
    is 2.
  */
  lemma KnotVectorShape(n: nat)
    requires n > 0
    ensures |KnotVector(n)| == n + Degree + 1
    ensures KnotVector(n)[0] == -2.0 && KnotVector(n)[1] == -2.0
    ensures KnotVector(n)[n + 1] == 2.0 && KnotVector(n)[n + 2] == 2.0 && KnotVector(n)[n + 3] == 2.0
    ensures forall i, j :: 0 <= i <= j < n + 4 ==> KnotVector(n)[i] <= KnotVector(n)[j]
  {
    var kv := KnotVector(n);
    assert forall i :: 2 <= i < n + 2 ==> kv[i] == InteriorKnot(n, i - 2);
    InteriorKnotBounds(n, n - 1);
    forall i, j | 0 <= i <= j < n + 4 ensures kv[i] <= kv[j] {
      if 2 <= i < n + 2 {
        InteriorKnotBounds(n, i - 2);
      }
      if 2 <= j < n + 2 {
        InteriorKnotBounds(n, j - 2);
      }
      if 2 <= i < n + 2 && 2 <= j < n + 2 {
        InteriorKnotMonotone(n, i - 2, j - 2);
      }
    }
  }

  /**
    On a non-empty domain first < last, the sample parameters are strictly
    increasing and lie in [first, last).
  */
  lemma SampleParamsIncreasing(domain: (real, real), count: nat, i: nat, j: nat)
    requires count > 0 && domain.0 < domain.1
    requires i < j < count
    ensures SampleParam(domain, count, i) < SampleParam(domain, count, j)
    ensures domain.0 <= SampleParam(domain, count, i)
    ensures SampleParam(domain, count, j) < domain.1
  {
    var w := domain.1 - domain.0;
    var a := i as real / count as real;
    var b := j as real / count as real;
    FractionsIncreasing(i, j, count);
    ScaledFractions(w, a, b);
  }

  lemma FractionsIncreasing(i: nat, j: nat, count: nat)
    requires i < j < count
    ensures 0.0 <= i as real / count as real < j as real / count as real < 1.0
  {
    var m := count as real;
    var a := i as real / m;
    var b := j as real / m;
    assert a * m == i as real && b * m == j as real;
  }

  lemma ScaledBelow(w: real, q: real)
    requires w > 0.0 && 0.0 <= q < 1.0
    ensures 0.0 <= w * q < w
  {
  }

  lemma ScaledFractions(w: real, a: real, b: real)
    requires w > 0.0 && 0.0 <= a < b < 1.0
    ensures 0.0 <= w * a < w * b < w
  {
  }

  /**
    bspline_for_d4line: strokes under four points give an empty result;
    otherwise the knot vector is built point by point and the curve is
    sampled 10 * n times.
  */
  method BsplineForD4Line(row: D4Line, lib: SplineLib) returns (dense: D4Line)
    ensures dense == Smooth(row, lib)
  {
    dense := [];
    if |row| < 4 {
    } else {
      var knots: seq<real> := [-2.0, -2.0];
      var n := |row|;
      for i := 0 to n
        invariant |knots| == i + 2
        invariant knots == KnotVector(n)[..i + 2]
      {
        knots := knots + [(i + 1) as real / n as real * 4.0 - 2.0];
      }
      knots := knots + [2.0, 2.0];
      assert knots == KnotVector(n);
      var spline := BSpline(Degree, row, knots);
      for i := 0 to SamplesPerPoint * n
        invariant |dense| == i
        invariant forall k :: 0 <= k < i ==>
          dense[k] == lib.point(spline, SampleParam(lib.knotDomain(spline), SamplesPerPoint * n, k))
      {
        var domain := lib.knotDomain(spline);
        var first := domain.0;
        var last := domain.1;
        var para := (last - first) * (i as real / (SamplesPerPoint * n) as real) + first;
        assert para == SampleParam(domain, SamplesPerPoint * n, i);
        dense := dense + [lib.point(spline, para)];
      }
    }
  }
}
