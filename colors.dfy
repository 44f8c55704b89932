/**
 * The colour types the palette engine works with, and the colour science it
 * borrows from foreign crates.
 *
 * The `lab` crate (sRGB <-> CIE L*a*b* conversion) and the `delta_e` crate
 * (the CIEDE2000 colour difference) are floating-point code outside this
 * model. They are represented here by a `ColorSpace` value whose fields are
 * arbitrary functions: every result proved in this project holds whatever
 * those functions are, except that a colour difference is never negative.
 */
module Colors {

  /** An unsigned 8-bit value (Rust `u8`). */
  type byte = b: int | 0 <= b < 256

  /** A packed colour, the `[u8; 3]` arrays of the source. */
  datatype Rgb = Rgb(r: byte, g: byte, b: byte)

  /** A colour in CIE L*a*b*, the `Lab` struct of the `lab` crate. */
  datatype Lab = Lab(l: real, a: real, b: real)

  /** A perceptual colour difference; CIEDE2000 never yields a negative one. */
  type Distance = d: real | 0.0 <= d

  /**
   * The foreign colour functions the engine calls:
   * fromRgb is `Lab::from_rgb` (and `Lab::from_rgba`, which ignores alpha),
   * toRgb is `Lab::to_rgb`, and delta is `DE2000::new`.
   */
  datatype ColorSpace = ColorSpace(
    fromRgb: Rgb -> Lab,
    toRgb: Lab -> Rgb,
    delta: (Lab, Lab) -> Distance
  )
}
