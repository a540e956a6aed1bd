/** The basis-spline evaluator (`basis`, `spline`) and the channel-wise colour
    interpolator built on it (`rgb_spline`, `interpolate_spectral`). */
module Spline {
  import opened Wrappers
  import opened ColorTypes
  import opened Palette

  /** `basis`: the uniform cubic B-spline blend of four control values at the
      local parameter `u`. */
  function Basis(u: real, v0: real, v1: real, v2: real, v3: real): real
  {
    var u2 := u * u;
    var u3 := u2 * u;
    ((1.0 - 3.0 * u + 3.0 * u2 - u3) * v0
    + (4.0 - 6.0 * u2 + 3.0 * u3) * v1
    + (1.0 + 3.0 * u + 3.0 * u2 - 3.0 * u3) * v2
    + u3 * v3) / 6.0
  }

  /** The four weight polynomials sum to 6, so a constant is reproduced for
      every `u`. */
  lemma BasisReproducesConstants(u: real, c: real)
    ensures Basis(u, c, c, c, c) == c
  {
    var u2 := u * u;
    var u3 := u2 * u;
    assert (1.0 - 3.0 * u + 3.0 * u2 - u3) + (4.0 - 6.0 * u2 + 3.0 * u3)
      + (1.0 + 3.0 * u + 3.0 * u2 - 3.0 * u3) + u3 == 6.0;
  }

  lemma Distribute(w: real, a: real, v: real, b: real)
    ensures w * (a * v + b) == a * (w * v) + w * b
  {
  }

  /** The blend commutes with an affine map of the control values. */
  lemma BasisAffine(u: real, a: real, b: real, v0: real, v1: real, v2: real, v3: real)
    ensures Basis(u, a * v0 + b, a * v1 + b, a * v2 + b, a * v3 + b) == a * Basis(u, v0, v1, v2, v3) + b
  {
    var u2 := u * u;
    var u3 := u2 * u;
    var w0, w1, w2, w3 := 1.0 - 3.0 * u + 3.0 * u2 - u3, 4.0 - 6.0 * u2 + 3.0 * u3,
      1.0 + 3.0 * u + 3.0 * u2 - 3.0 * u3, u3;
    assert w0 + w1 + w2 + w3 == 6.0;
    Distribute(w0, a, v0, b);
    Distribute(w1, a, v1, b);
    Distribute(w2, a, v2, b);
    Distribute(w3, a, v3, b);
    var s := w0 * v0 + w1 * v1 + w2 * v2 + w3 * v3;
    assert a * (w0 * v0) + a * (w1 * v1) + a * (w2 * v2) + a * (w3 * v3) == a * s;
    assert w0 * b + w1 * b + w2 * b + w3 * b == 6.0 * b;
    assert (a * s + 6.0 * b) / 6.0 == a * (s / 6.0) + b;
  }

  /** At the knots the blend is the familiar 1-4-1 average of neighbours. */
  lemma BasisAtKnots(v0: real, v1: real, v2: real, v3: real)
    ensures Basis(0.0, v0, v1, v2, v3) == (v0 + 4.0 * v1 + v2) / 6.0
    ensures Basis(1.0, v0, v1, v2, v3) == (v1 + 4.0 * v2 + v3) / 6.0
  {
  }

  lemma MulLeftMono(w: real, x: real, y: real)
    requires 0.0 <= w && x <= y
    ensures w * x <= w * y
  {
    assert w * y - w * x == w * (y - x);
  }

  /** On [0, 1] the second weight is `1 + 3 (1 - u)(1 + u - u^2)` and so at
      least 1. */
  lemma SecondWeightBound(u: real)
    requires 0.0 <= u <= 1.0
    ensures 1.0 <= 4.0 - 6.0 * (u * u) + 3.0 * (u * u * u)
  {
    var m := 1.0 - u;
    var k := 1.0 + u - u * u;
    MulLeftMono(u, u, 1.0);
    assert u * 1.0 == u;
    assert u * u <= u;
    assert 1.0 <= k;
    MulLeftMono(m, 0.0, k);
    assert m * k == 1.0 - 2.0 * (u * u) + u * u * u;
  }

  lemma NonNegProduct(w: real, d: real)
    requires 0.0 <= w && 0.0 <= d
    ensures 0.0 <= w * d
  {
    MulLeftMono(w, 0.0, d);
    assert w * 0.0 == 0.0;
  }

  lemma NonNegAverage(a: real, b: real, c: real, d: real)
    requires 0.0 <= a && 0.0 <= b && 0.0 <= c && 0.0 <= d
    ensures 0.0 <= (a + b + c + d) / 6.0
  {
  }

  /** On [0, 1], `0 <= u^3 <= u^2`. */
  lemma CubeBounds(u: real)
    requires 0.0 <= u <= 1.0
    ensures 0.0 <= u * u * u <= u * u
  {
    var u2 := u * u;
    MulLeftMono(u, 0.0, u);
    assert u * 0.0 == 0.0;
    MulLeftMono(u2, 0.0, u);
    MulLeftMono(u2, u, 1.0);
    assert u2 * 0.0 == 0.0 && u2 * 1.0 == u2;
  }

  /** On [0, 1] the first weight is `(1 - u)^3` and so non-negative. */
  lemma FirstWeightBound(u: real)
    requires 0.0 <= u <= 1.0
    ensures 0.0 <= 1.0 - 3.0 * u + 3.0 * (u * u) - u * u * u
  {
    var m := 1.0 - u;
    MulLeftMono(m, 0.0, m);
    assert m * 0.0 == 0.0;
    MulLeftMono(m * m, 0.0, m);
    assert m * m * 0.0 == 0.0;
    assert 1.0 - 3.0 * u + 3.0 * (u * u) - u * u * u == m * m * m;
  }

  /** On [0, 1] the third weight is non-negative. */
  lemma ThirdWeightBound(u: real)
    requires 0.0 <= u <= 1.0
    ensures 0.0 <= 1.0 + 3.0 * u + 3.0 * (u * u) - 3.0 * (u * u * u)
  {
    CubeBounds(u);
  }

  /** For `u` in [0, 1] every weight is non-negative, so the blend of
      non-negative values is non-negative. */
  lemma BasisNonNegative(u: real, d0: real, d1: real, d2: real, d3: real)
    requires 0.0 <= u <= 1.0
    requires 0.0 <= d0 && 0.0 <= d1 && 0.0 <= d2 && 0.0 <= d3
    ensures 0.0 <= Basis(u, d0, d1, d2, d3)
  {
    var u2 := u * u;
    var u3 := u2 * u;
    var w0, w1, w2 := 1.0 - 3.0 * u + 3.0 * u2 - u3, 4.0 - 6.0 * u2 + 3.0 * u3,
      1.0 + 3.0 * u + 3.0 * u2 - 3.0 * u3;
    CubeBounds(u);
    FirstWeightBound(u);
    SecondWeightBound(u);
    ThirdWeightBound(u);
    NonNegProduct(w0, d0);
    NonNegProduct(w1, d1);
    NonNegProduct(w2, d2);
    NonNegProduct(u3, d3);
    NonNegAverage(w0 * d0, w1 * d1, w2 * d2, u3 * d3);
  }

  /** The blend of `v` is `a` times the blend of `d` plus `b` when every
      `v_k` is `a * d_k + b`. */
  lemma BasisAffineAt(u: real, a: real, b: real, v0: real, v1: real, v2: real, v3: real,
                      d0: real, d1: real, d2: real, d3: real)
    requires v0 == a * d0 + b && v1 == a * d1 + b && v2 == a * d2 + b && v3 == a * d3 + b
    ensures Basis(u, v0, v1, v2, v3) == a * Basis(u, d0, d1, d2, d3) + b
  {
    BasisAffine(u, a, b, d0, d1, d2, d3);
  }

  /** For `u` in [0, 1] the blend stays within the range of its control
      values: shifted by the lower bound, or reflected at the upper one, the
      values are non-negative, and so is their blend. */
  lemma BasisConvex(u: real, lo: real, hi: real, v0: real, v1: real, v2: real, v3: real)
    requires 0.0 <= u <= 1.0
    requires lo <= v0 <= hi && lo <= v1 <= hi && lo <= v2 <= hi && lo <= v3 <= hi
    ensures lo <= Basis(u, v0, v1, v2, v3) <= hi
  {
    BasisNonNegative(u, v0 - lo, v1 - lo, v2 - lo, v3 - lo);
    BasisAffineAt(u, 1.0, lo, v0, v1, v2, v3, v0 - lo, v1 - lo, v2 - lo, v3 - lo);
    BasisNonNegative(u, hi - v0, hi - v1, hi - v2, hi - v3);
    BasisAffineAt(u, -1.0, hi, v0, v1, v2, v3, hi - v0, hi - v1, hi - v2, hi - v3);
  }

  /** The segment `spline` picks: 0 for `t <= 0`, else `floor(t * n)` (the
      original converts that float to `usize`, which is exact here since it
      is non-negative). */
  function SegmentIndex(t: real, n: nat): (i: nat)
    ensures t <= 0.0 ==> i == 0
    ensures t > 0.0 ==> i as real <= t * n as real < i as real + 1.0
  {
    if t <= 0.0 then 0
    else
      assert 0.0 <= t * n as real;
      (t * n as real).Floor
  }

  /** Every read `spline` makes is inside a sequence of length `n`. */
  predicate SplineInBounds(t: real, n: nat)
  {
    4 <= n && SegmentIndex(t, n) + 1 < n
  }

  /** The positions `spline` reads: the segment's two ends, its left
      neighbour when there is one, and always position 3 (`values[1 + 2]`). */
  function ReadIndices(t: real, n: nat): set<int>
  {
    var i := SegmentIndex(t, n);
    {i, i + 1, 3} + (if i > 0 then {i - 1} else {})
  }

  /** All reads are in bounds exactly when the segment and its right end fit
      and there are at least four values. */
  lemma ReadIndicesInBounds(t: real, n: nat)
    ensures (forall k :: k in ReadIndices(t, n) ==> 0 <= k < n) <==> SplineInBounds(t, n)
  {
    var i := SegmentIndex(t, n);
    assert i in ReadIndices(t, n) && i + 1 in ReadIndices(t, n) && 3 in ReadIndices(t, n);
  }

  /** The bound in terms of `t`: at least four values and `t * n < n - 1`. */
  lemma SplineInBoundsIff(t: real, n: nat)
    ensures SplineInBounds(t, n) <==> 4 <= n && t * n as real < (n - 1) as real
  {
    var i := SegmentIndex(t, n);
    if t <= 0.0 {
      MulLeftMono(n as real, t, 0.0);
      assert t * n as real <= 0.0;
    } else if i + 1 < n {
      assert i as real <= (n - 2) as real;
    } else {
      assert (n - 1) as real <= i as real;
    }
  }

  /** `spline` as the original runs it: the reads happen in order and the first
      one out of bounds panics, which is `None` here. `t_prime` inside the
      `t <= 0` block shadows the outer one, so the local parameter is
      `t * (n - i)` on both branches; the `v3` fallback is unreachable since
      `i < n` holds once `values[i]` has been read. */
  function TrySpline(t: real, values: seq<real>): (r: Option<real>)
    ensures r.Some? <==> SplineInBounds(t, |values|)
  {
    var n := |values|;
    var i := SegmentIndex(t, n);
    if n <= i || n <= i + 1 then None
    else
      var v1 := values[i];
      var v2 := values[i + 1];
      var v0 := if i > 0 then values[i - 1] else 2.0 * v1 - v2;
      if i < n && n <= 1 + 2 then None
      else
        var v3 := if i < n then values[1 + 2] else 2.0 * v2 - v1;
        Some(Basis(t * (n - i) as real, v0, v1, v2, v3))
  }

  /** `spline` where its reads are in bounds. */
  function SplineAt(t: real, values: seq<real>): real
    requires SplineInBounds(t, |values|)
  {
    TrySpline(t, values).value
  }

  /** The result depends only on the positions in `ReadIndices`. */
  lemma SplineLocal(t: real, p: seq<real>, q: seq<real>)
    requires |p| == |q| && SplineInBounds(t, |p|)
    requires forall k :: k in ReadIndices(t, |p|) ==> p[k] == q[k]
    ensures SplineAt(t, p) == SplineAt(t, q)
  {
    ReadIndicesInBounds(t, |p|);
    var i := SegmentIndex(t, |p|);
    assert i in ReadIndices(t, |p|) && i + 1 in ReadIndices(t, |p|) && 3 in ReadIndices(t, |p|);
    if i > 0 {
      assert i - 1 in ReadIndices(t, |p|);
    }
  }

  /** At `t = 0` the first value is reproduced exactly: the extrapolated
      `v0 = 2 v1 - v2` cancels against `v2` in the 1-4-1 average. */
  lemma SplineAtOrigin(values: seq<real>)
    requires 4 <= |values|
    ensures SplineInBounds(0.0, |values|)
    ensures SplineAt(0.0, values) == values[0]
  {
    BasisAtKnots(2.0 * values[0] - values[1], values[0], values[1], values[3]);
  }

  /** For `t <= 0` the segment is 0 and the local parameter `u = t * n` runs
      negative: the curve is the cubic through the first stops, continued to
      the left, not a clamp at the first stop. */
  lemma SplineLeftEdge(t: real, values: seq<real>)
    requires t <= 0.0 && 4 <= |values|
    ensures SplineInBounds(t, |values|)
    ensures var u := t * |values| as real;
      SplineAt(t, values) == values[0] + u * (values[1] - values[0])
        + u * u * u * (values[0] - 2.0 * values[1] + values[3]) / 6.0
  {
    var u := t * |values| as real;
    var a, b, d := values[0], values[1], values[3];
    var u2 := u * u;
    var u3 := u2 * u;
    assert SplineAt(t, values) == Basis(u, 2.0 * a - b, a, b, d);
    calc {
      (1.0 - 3.0 * u + 3.0 * u2 - u3) * (2.0 * a - b) + (4.0 - 6.0 * u2 + 3.0 * u3) * a
        + (1.0 + 3.0 * u + 3.0 * u2 - 3.0 * u3) * b + u3 * d;
      a * (6.0 - 6.0 * u + u3) + b * (6.0 * u - 2.0 * u3) + d * u3;
      6.0 * (a + u * (b - a)) + u3 * (a - 2.0 * b + d);
    }
  }

  /** A constant sequence is reproduced wherever the spline is defined. */
  lemma SplineConstant(t: real, values: seq<real>, c: real)
    requires SplineInBounds(t, |values|)
    requires forall k :: 0 <= k < |values| ==> values[k] == c
    ensures SplineAt(t, values) == c
  {
    var n := |values|;
    var i := SegmentIndex(t, n);
    BasisReproducesConstants(t * (n - i) as real, c);
  }

  /** With the source's local parameter `t * (n - i)` rather than the
      fractional position inside the segment, the curve can leave the range
      of its values: eleven values in [0, 1] give 4.5 at `t = 1/2`. */
  lemma SplineOvershoots()
    ensures var values := [0.0, 0.0, 0.0, 1.0, 0.0, 0.0, 0.0, 0.0, 0.0, 0.0, 0.0];
      && SplineInBounds(0.5, |values|)
      && SplineAt(0.5, values) == 4.5
  {
    var values := [0.0, 0.0, 0.0, 1.0, 0.0, 0.0, 0.0, 0.0, 0.0, 0.0, 0.0];
    assert SegmentIndex(0.5, 11) == 5;
    assert SplineAt(0.5, values) == Basis(3.0, 0.0, 0.0, 0.0, 1.0);
  }

  /** The values of one colour channel across a palette. */
  function ChannelValues(colors: seq<Rgba>, ch: Channel): (vs: seq<real>)
    ensures |vs| == |colors|
    ensures forall i :: 0 <= i < |colors| ==> vs[i] == colors[i].Get(ch)
  {
    seq(|colors|, i requires 0 <= i < |colors| => colors[i].Get(ch))
  }

  /** `rgb_spline`: the spline run on the red, green and blue values of the
      stops separately; alpha is always 1. */
  function RgbSpline(t: real, colors: seq<Rgba>): (c: Rgba)
    requires SplineInBounds(t, |colors|)
    ensures c.a == 1.0
    ensures forall ch :: c.Get(ch) == SplineAt(t, ChannelValues(colors, ch))
  {
    Rgba(SplineAt(t, ChannelValues(colors, Red)), SplineAt(t, ChannelValues(colors, Green)),
      SplineAt(t, ChannelValues(colors, Blue)), 1.0)
  }

  /** A channel of the result depends only on that channel of the stops. */
  lemma RgbSplineChannelwise(t: real, p: seq<Rgba>, q: seq<Rgba>, ch: Channel)
    requires |p| == |q| && SplineInBounds(t, |p|)
    requires forall k :: 0 <= k < |p| ==> p[k].Get(ch) == q[k].Get(ch)
    ensures RgbSpline(t, p).Get(ch) == RgbSpline(t, q).Get(ch)
  {
    assert ChannelValues(p, ch) == ChannelValues(q, ch);
  }

  /** At `t = 0` the interpolated colour is the first stop, made opaque. */
  lemma RgbSplineAtOrigin(colors: seq<Rgba>)
    requires 4 <= |colors|
    ensures SplineInBounds(0.0, |colors|)
    ensures RgbSpline(0.0, colors) == colors[0].Opaque()
  {
    SplineAtOrigin(ChannelValues(colors, Red));
    SplineAtOrigin(ChannelValues(colors, Green));
    SplineAtOrigin(ChannelValues(colors, Blue));
  }

  /** A palette of one repeated colour interpolates to that colour, opaque. */
  lemma RgbSplineConstant(t: real, colors: seq<Rgba>, c: Rgba)
    requires SplineInBounds(t, |colors|)
    requires forall k :: 0 <= k < |colors| ==> colors[k] == c
    ensures RgbSpline(t, colors) == c.Opaque()
  {
    SplineConstant(t, ChannelValues(colors, Red), c.r);
    SplineConstant(t, ChannelValues(colors, Green), c.g);
    SplineConstant(t, ChannelValues(colors, Blue), c.b);
  }

  /** `interpolate_spectral`: the channel-wise spline over the engine's palette. */
  function InterpolateSpectral(sc: SpectralColors, t: real): Rgba
    requires SplineInBounds(t, |sc.stops|)
  {
    RgbSpline(t, sc.stops)
  }

  /** On the eleven-stop spectral palette the spline is defined exactly for
      `t < 10/11`, and at `t = 0` it gives the first stop. */
  lemma SpectralInterpolation(t: real)
    ensures SplineInBounds(t, |New().stops|) <==> t < 10.0 / 11.0
    ensures InterpolateSpectral(New(), 0.0) == Rgba(158.0 / 255.0, 1.0 / 255.0, 66.0 / 255.0, 1.0)
  {
    SplineInBoundsIff(t, 11);
    RgbSplineAtOrigin(New().stops);
  }
}
