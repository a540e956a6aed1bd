/** The two colour records the engine works with: a floating colour with four
    channels (the `rgb::RGBA<f32>` of the original, with `f32` read as `real`)
    and a byte colour (`rgb::RGBA8`). */
module ColorTypes {

  /** An 8-bit unsigned channel value. */
  type Byte = x: int | 0 <= x < 256

  /** A colour with real-valued channels; parsed palette stops have every
      channel in [0, 1] and alpha 1. */
  datatype Rgba = Rgba(r: real, g: real, b: real, a: real)
  {
    /** The value of one of the three colour channels. */
    function Get(ch: Channel): real
    {
      match ch
      case Red => r
      case Green => g
      case Blue => b
    }

    /** The same colour made opaque. */
    function Opaque(): Rgba
    {
      this.(a := 1.0)
    }
  }

  /** A colour with byte channels, ready to hand to a paint. */
  datatype Rgba8 = Rgba8(r: Byte, g: Byte, b: Byte, a: Byte)

  /** The three colour channels the spline is run on (alpha is not). */
  datatype Channel = Red | Green | Blue

  /** Every channel of `c`, alpha included, lies in [0, 1]. */
  predicate InUnitRange(c: Rgba)
  {
    && 0.0 <= c.r <= 1.0
    && 0.0 <= c.g <= 1.0
    && 0.0 <= c.b <= 1.0
    && 0.0 <= c.a <= 1.0
  }
}
