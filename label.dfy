/** `pick_label_color` and `luminance`: the label on a swatch is a half-saturated
    tint of the background's own hue, light or dark, whichever contrasts better,
    with a hue-dependent override for dark colourful backgrounds. The colour
    conversions of the palette library are parameters: `toHsl` (sRGB to HSL),
    `toRgb` (HSL to sRGB) and `toRgb8` (to 8-bit channels). */
module Label {

  import opened Colors

  const LIGHT_LIGHTNESS: real := 0.775
  const DARK_LIGHTNESS: real := 0.28
  /** Below this luminance a colourful background counts as visually dark. */
  const DARK_LUMINANCE: real := 0.62
  /** Above this saturation times lightness a background counts as colourful. */
  const COLORFULNESS: real := 0.1

  function Abs(x: real): real {
    if x < 0.0 then -x else x
  }

  /** `luminance`: the weighted sum of the sRGB channels of an HSL colour. With
      channels in [0, 1] it lies in [0, 1], since the weights add up to 1. */
  function Luminance(h: Hsl, toRgb: Hsl -> RgbF): (l: real)
    ensures var c := toRgb(h);
      0.0 <= c.red <= 1.0 && 0.0 <= c.green <= 1.0 && 0.0 <= c.blue <= 1.0 ==> 0.0 <= l <= 1.0
  {
    var c := toRgb(h);
    0.299 * c.red + 0.587 * c.green + 0.114 * c.blue
  }

  /** Hue wrapped into [0, 360): a negative hue gets one turn added. */
  function NormalizeHue(hue: real): (r: real)
    ensures r == hue || r == hue + 360.0
    ensures -360.0 < hue < 360.0 ==> 0.0 <= r < 360.0
    ensures 0.0 <= hue ==> r == hue
  {
    if hue < 0.0 then hue + 360.0 else hue
  }

  /** The hue bands (yellow to chartreuse, greens and teals, purples) in which a
      dark colourful background takes a light label. Bounds are inclusive. */
  predicate HuePrefersLight(hue: real) {
    (36.0 <= hue <= 80.0) || (90.0 <= hue <= 185.0) || (300.0 <= hue <= 340.0)
  }

  predicate VisuallyDarkBg(bg: Hsl, toRgb: Hsl -> RgbF) {
    Luminance(bg, toRgb) < DARK_LUMINANCE && bg.saturation * bg.lightness > COLORFULNESS
  }

  /** The override: a light label, whatever the luminances say. */
  predicate ForcedLight(bg: Hsl, toRgb: Hsl -> RgbF) {
    VisuallyDarkBg(bg, toRgb) && HuePrefersLight(NormalizeHue(bg.hue))
  }

  /** The background with half its saturation and the given lightness. The hue
      is the background's own, as the source copies the whole HSL value. */
  function Tint(bg: Hsl, lightness: real): Hsl {
    Hsl(bg.hue, bg.saturation * 0.5, lightness)
  }

  function Lightened(bg: Hsl): Hsl {
    Tint(bg, LIGHT_LIGHTNESS)
  }

  function Darkened(bg: Hsl): Hsl {
    Tint(bg, DARK_LIGHTNESS)
  }

  /** How far a colour's luminance is from the background's. */
  function Contrast(c: Hsl, bg: Hsl, toRgb: Hsl -> RgbF): real {
    Abs(Luminance(c, toRgb) - Luminance(bg, toRgb))
  }

  /** The decision of `pick_label_color`, on the background's HSL form. */
  function LabelHsl(bg: Hsl, toRgb: Hsl -> RgbF): (tint: Hsl)
    ensures tint.hue == bg.hue && tint.saturation == bg.saturation / 2.0
    ensures tint == Lightened(bg) || tint == Darkened(bg)
    ensures ForcedLight(bg, toRgb) ==> tint == Lightened(bg)
    ensures !ForcedLight(bg, toRgb) && tint == Lightened(bg) ==>
      Contrast(Lightened(bg), bg, toRgb) > Contrast(Darkened(bg), bg, toRgb)
    ensures tint == Darkened(bg) ==>
      Contrast(Darkened(bg), bg, toRgb) >= Contrast(Lightened(bg), bg, toRgb)
  {
    if ForcedLight(bg, toRgb) then Lightened(bg)
    else if Contrast(Lightened(bg), bg, toRgb) > Contrast(Darkened(bg), bg, toRgb) then Lightened(bg)
    else Darkened(bg)
  }

  /** `pick_label_color`: one of the two tints, converted to 8-bit sRGB. */
  function PickLabelColor(bg: RgbF, toHsl: RgbF -> Hsl, toRgb: Hsl -> RgbF, toRgb8: RgbF -> Rgb8): (c: Rgb8)
    ensures c == toRgb8(toRgb(Lightened(toHsl(bg)))) || c == toRgb8(toRgb(Darkened(toHsl(bg))))
  {
    toRgb8(toRgb(LabelHsl(toHsl(bg), toRgb)))
  }

  /** Outside the override the label is the tint with the strictly larger
      contrast, and a tie goes to the dark tint. */
  lemma LabelByContrast(bg: Hsl, toRgb: Hsl -> RgbF)
    requires !ForcedLight(bg, toRgb)
    ensures LabelHsl(bg, toRgb) == Lightened(bg) <==>
      Contrast(Lightened(bg), bg, toRgb) > Contrast(Darkened(bg), bg, toRgb)
  {
    assert Lightened(bg) != Darkened(bg);
  }

  /** A chromatic background gets a chromatic label. */
  lemma LabelKeepsChroma(bg: Hsl, toRgb: Hsl -> RgbF)
    requires bg.saturation > 0.05
    ensures LabelHsl(bg, toRgb).saturation > 0.025
  {
  }

  /** A grey background (saturation 0) never takes the override, so its label
      is decided by contrast alone. */
  lemma GreyDecidedByContrast(bg: Hsl, toRgb: Hsl -> RgbF)
    requires bg.saturation == 0.0
    ensures !ForcedLight(bg, toRgb)
  {
  }

  /** A dark, saturated yellow (hue 55, saturation 0.8, lightness 0.25) whose
      luminance is below the threshold takes the light label through the
      override. */
  lemma DarkYellowTakesLight(toRgb: Hsl -> RgbF)
    requires Luminance(Hsl(55.0, 0.8, 0.25), toRgb) < DARK_LUMINANCE
    ensures LabelHsl(Hsl(55.0, 0.8, 0.25), toRgb) == Lightened(Hsl(55.0, 0.8, 0.25))
  {
  }
}
