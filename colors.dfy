/** The colour values that flow between the swatch renderer's components. */
module Colors {

  /** An 8-bit channel value (Rust `u8`). */
  type Byte = x: int | 0 <= x < 256

  /** An sRGB colour with 8-bit channels, as parsed from a hex code. */
  datatype Rgb8 = Rgb8(r: Byte, g: Byte, b: Byte)

  /** An sRGB colour with floating channels (Rust `Srgb<f32>`), modelled on reals. */
  datatype RgbF = RgbF(red: real, green: real, blue: real)

  /** An HSL colour (Rust `Hsl`): hue in degrees, saturation and lightness. */
  datatype Hsl = Hsl(hue: real, saturation: real, lightness: real)
}
