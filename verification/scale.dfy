/** `scale_sequential` and the two spectral scales built on it: map a domain
    value to the interpolator's parameter, optionally clamp it, interpolate
    and quantize the colour to bytes. */
module Scale {
  import opened Wrappers
  import opened ColorTypes
  import opened Palette
  import opened Spline

  /** Rust's `f as u8`: truncation toward zero, then saturation to [0, 255]
      (NaN, which reals do not have, would give 0). */
  function ToByte(v: real): (b: Byte)
    ensures v <= 0.0 ==> b == 0
    ensures 255.0 <= v ==> b == 255
    ensures 0.0 <= v < 256.0 ==> b as real <= v < b as real + 1.0
  {
    if v <= 0.0 then 0
    else if 255.0 <= v then 255
    else v.Floor
  }

  /** A byte read back as a real converts to itself. */
  lemma ToByteOfByte(b: Byte)
    ensures ToByte(b as real) == b
  {
  }

  /** Conversion preserves order. */
  lemma ToByteMonotone(v: real, w: real)
    requires v <= w
    ensures ToByte(v) <= ToByte(w)
  {
  }

  /** The byte colour of a floating colour: every channel, alpha included,
      scaled by 255 and converted. */
  function Quantize(c: Rgba): (q: Rgba8)
    ensures InUnitRange(c) ==> q.r as real <= c.r * 255.0 < q.r as real + 1.0
    ensures InUnitRange(c) ==> q.g as real <= c.g * 255.0 < q.g as real + 1.0
    ensures InUnitRange(c) ==> q.b as real <= c.b * 255.0 < q.b as real + 1.0
    ensures c.a == 1.0 ==> q.a == 255
  {
    Rgba8(ToByte(c.r * 255.0), ToByte(c.g * 255.0), ToByte(c.b * 255.0), ToByte(c.a * 255.0))
  }

  /** A stop parsed from the bytes of a triple quantizes back to those bytes,
      fully opaque. */
  lemma QuantizeStop(c: Triplet)
    ensures Quantize(StopOf(c)) == Rgba8(c.r, c.g, c.b, 255)
  {
    assert ChannelOf(c.r) * 255.0 == c.r as real;
    assert ChannelOf(c.g) * 255.0 == c.g as real;
    assert ChannelOf(c.b) * 255.0 == c.b as real;
    ToByteOfByte(c.r);
    ToByteOfByte(c.g);
    ToByteOfByte(c.b);
  }

  /** The clamp of `scale_sequential` as written: below 0 gives 0, [0, 1)
      gives 1 and anything from 1 up passes through. */
  function Clamp(t: real): (r: real)
    ensures t < 0.0 ==> r == 0.0
    ensures 0.0 <= t < 1.0 ==> r == 1.0
    ensures 1.0 <= t ==> r == t
  {
    if 0.0 > t then 0.0 else if 1.0 > t then 1.0 else t
  }

  /** The clamped parameter is never strictly inside (0, 1), and is 0 only
      for parameters below 0. */
  lemma ClampNeverInterior(t: real)
    ensures Clamp(t) == 0.0 <==> t < 0.0
    ensures !(0.0 < Clamp(t) < 1.0)
  {
  }

  /** Clamping a second time changes nothing exactly for non-negative
      parameters: a negative one clamps to 0, and 0 clamps again to 1. */
  lemma ClampIdempotentIff(t: real)
    ensures Clamp(Clamp(t)) == Clamp(t) <==> 0.0 <= t
  {
    ClampNeverInterior(t);
  }

  /** The position of `x` in the domain `[x0, x1]`. */
  function DomainParameter(x: real, x0: real, x1: real): (t: real)
    requires x0 != x1
    ensures t * (x1 - x0) == x - x0
    ensures x == x0 ==> t == 0.0
  {
    (x - x0) / (x1 - x0)
  }

  /** The parameter handed to the interpolator. */
  function InterpolatorParameter(x: real, clamp: bool, x0: real, x1: real): (p: real)
    requires x0 != x1
    ensures !clamp ==> p * (x1 - x0) == x - x0
    ensures clamp ==> p == 0.0 || 1.0 <= p
    ensures clamp ==> (p == 0.0 <==> DomainParameter(x, x0, x1) < 0.0)
  {
    var t := DomainParameter(x, x0, x1);
    if clamp then Clamp(t) else t
  }

  /** `scale_sequential`: interpolate at the (possibly clamped) domain
      parameter and quantize. An interpolator that panics is one that returns
      `None`; the scale then panics too. */
  function ScaleSequential(x: real, clamp: bool, x0: real, x1: real,
                           interpolator: real -> Option<Rgba>): (r: Option<Rgba8>)
    requires x0 != x1
    ensures var c := interpolator(InterpolatorParameter(x, clamp, x0, x1));
      && (r.Some? <==> c.Some?)
      && (r.Some? ==> r.value == Quantize(c.value))
  {
    match interpolator(InterpolatorParameter(x, clamp, x0, x1))
    case None => None
    case Some(c) => Some(Quantize(c))
  }

  /** The spline interpolator over a palette, panicking where a read would
      be out of bounds. */
  function SplineInterpolator(stops: seq<Rgba>): real -> Option<Rgba>
  {
    t => if SplineInBounds(t, |stops|) then Some(RgbSpline(t, stops)) else None
  }

  /** The spline interpolator panics exactly where a read is out of bounds. */
  lemma SplineInterpolatorDefined(stops: seq<Rgba>)
    ensures forall t :: SplineInterpolator(stops)(t).Some? <==> SplineInBounds(t, |stops|)
  {
  }

  /** Over a palette's stops the spline interpolator is `interpolate_spectral`
      wherever that does not panic. */
  lemma SplineInterpolatorSpectral(sc: SpectralColors, t: real)
    ensures SplineInterpolator(sc.stops)(t).Some? <==> SplineInBounds(t, |sc.stops|)
    ensures SplineInBounds(t, |sc.stops|) ==>
      SplineInterpolator(sc.stops)(t) == Some(InterpolateSpectral(sc, t))
  {
  }

  /** At 0 the spline interpolator gives the first stop, made opaque. */
  lemma SplineInterpolatorAtOrigin(stops: seq<Rgba>)
    requires 4 <= |stops|
    ensures SplineInterpolator(stops)(0.0) == Some(stops[0].Opaque())
  {
    RgbSplineAtOrigin(stops);
  }

  /** Unclamped, a scale whose interpolator panics exactly where a spline over
      `n` values would is defined exactly when `n >= 4` and the domain
      parameter `t` has `t * n < n - 1`. */
  lemma UnclampedDefinedFor(x: real, x0: real, x1: real, f: real -> Option<Rgba>, n: nat)
    requires x0 != x1
    requires forall t :: f(t).Some? <==> SplineInBounds(t, n)
    ensures var t := DomainParameter(x, x0, x1);
      ScaleSequential(x, false, x0, x1, f).Some? <==> (4 <= n && t * n as real < (n - 1) as real)
  {
    SplineInBoundsIff(DomainParameter(x, x0, x1), n);
  }

  /** Clamped, such a scale is defined exactly when `n >= 4` and the domain
      parameter is negative (`x` beyond `x0`, away from `x1`): a parameter in
      [0, 1) is clamped to 1, past the last segment a spline can read. */
  lemma ClampedDefinedFor(x: real, x0: real, x1: real, f: real -> Option<Rgba>, n: nat)
    requires x0 != x1
    requires forall t :: f(t).Some? <==> SplineInBounds(t, n)
    ensures ScaleSequential(x, true, x0, x1, f).Some? <==> (4 <= n && DomainParameter(x, x0, x1) < 0.0)
  {
    var t := DomainParameter(x, x0, x1);
    SplineInBoundsIff(Clamp(t), n);
    if 0.0 <= t {
      MulLeftMono(n as real, 1.0, Clamp(t));
      assert n as real * 1.0 == n as real;
    }
  }

  /** Clamped, where it is defined such a scale gives the interpolator's
      colour at 0. */
  lemma ClampedValueFor(x: real, x0: real, x1: real, f: real -> Option<Rgba>, n: nat, first: Rgba)
    requires x0 != x1 && 4 <= n
    requires forall t :: f(t).Some? <==> SplineInBounds(t, n)
    requires f(0.0) == Some(first)
    ensures var r := ScaleSequential(x, true, x0, x1, f);
      r.Some? ==> r.value == Quantize(first)
  {
    ClampedDefinedFor(x, x0, x1, f, n);
  }

  /** Unclamped, the scale at the domain start is the first stop, opaque. */
  lemma ScaleAtDomainStart(x0: real, x1: real, stops: seq<Rgba>)
    requires x0 != x1 && 4 <= |stops|
    ensures ScaleSequential(x0, false, x0, x1, SplineInterpolator(stops)) == Some(Quantize(stops[0].Opaque()))
  {
    SplineInterpolatorAtOrigin(stops);
  }

  /** Clamped, the spline scale is defined only where the domain parameter is
      negative (`x` beyond `x0`, away from `x1`), and there it gives the first
      stop, opaque. */
  lemma ScaleClamped(x: real, x0: real, x1: real, stops: seq<Rgba>)
    requires x0 != x1
    ensures var r := ScaleSequential(x, true, x0, x1, SplineInterpolator(stops));
      && (r.Some? <==> 4 <= |stops| && DomainParameter(x, x0, x1) < 0.0)
      && (r.Some? ==> r.value == Quantize(stops[0].Opaque()))
  {
    SplineInterpolatorDefined(stops);
    ClampedDefinedFor(x, x0, x1, SplineInterpolator(stops), |stops|);
    if 4 <= |stops| {
      SplineInterpolatorAtOrigin(stops);
      ClampedValueFor(x, x0, x1, SplineInterpolator(stops), |stops|, stops[0].Opaque());
    }
  }

  /** `scale_spectral`: the unclamped scale over [0, 1] with the spectral
      interpolator. */
  function ScaleSpectral(sc: SpectralColors, x: real): Option<Rgba8>
  {
    ScaleSequential(x, false, 0.0, 1.0, SplineInterpolator(sc.stops))
  }

  /** `scale_spectral_clamp`: the same with the clamp on. */
  function ScaleSpectralClamp(sc: SpectralColors, x: real): Option<Rgba8>
  {
    ScaleSequential(x, true, 0.0, 1.0, SplineInterpolator(sc.stops))
  }

  /** On the engine's eleven-stop palette the unclamped scale is defined for
      `x < 10/11` and gives `#9e0142` at 0; the clamped scale is defined only
      for `x < 0`, and there it gives `#9e0142` too. */
  lemma SpectralScales(x: real)
    ensures ScaleSpectral(New(), x).Some? <==> x < 10.0 / 11.0
    ensures ScaleSpectral(New(), 0.0) == Some(Rgba8(0x9e, 0x01, 0x42, 255))
    ensures ScaleSpectralClamp(New(), x).Some? <==> x < 0.0
    ensures x < 0.0 ==> ScaleSpectralClamp(New(), x) == Some(Rgba8(0x9e, 0x01, 0x42, 255))
  {
    var stops := New().stops;
    assert DomainParameter(x, 0.0, 1.0) == x;
    SplineInterpolatorDefined(stops);
    UnclampedDefinedFor(x, 0.0, 1.0, SplineInterpolator(stops), |stops|);
    ScaleAtDomainStart(0.0, 1.0, stops);
    ScaleClamped(x, 0.0, 1.0, stops);
    assert x * 11.0 < 10.0 <==> x < 10.0 / 11.0;
    assert stops[0] == StopOf(Triplet(0x9e, 0x01, 0x42));
    QuantizeStop(Triplet(0x9e, 0x01, 0x42));
  }
}
