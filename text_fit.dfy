/** `draw_centered_text` without the drawing: the loop that shrinks the text
    until its run fits the box with a 5% margin, and the integer arithmetic that
    centres the run in the box. The font is a parameter `layout`: what laying
    the text out at a given scale factor (font size `width / scale_factor`)
    reports. Rust's `u32`/`i32` overflow, which panics in a debug build, is None. */
module TextFit {

  import opened Wrappers
  import opened MachineInts

  /** One layout of the text: the left edge of the first glyph's pixel box and
      the right edge of the last glyph's (None for a glyph without a box, or no
      glyph), and the line height, `(ascent - descent).ceil() as u32`. */
  datatype Measure = Measure(firstMinX: Option<int>, lastMaxX: Option<int>, lineHeight: U32)

  function OrZero(o: Option<int>): int {
    match o
    case Some(v) => v
    case None => 0
  }

  /** `glyphs_width`: `(max_x - min_x).max(1) as u32`, a missing edge read as 0. */
  function GlyphsWidth(m: Measure): (w: nat)
    ensures w >= 1 && w >= OrZero(m.lastMaxX) - OrZero(m.firstMinX)
  {
    var span := OrZero(m.lastMaxX) - OrZero(m.firstMinX);
    if span < 1 then 1 else span
  }

  /** The exit test of the loop: the run is narrower than the box less 5%. */
  predicate Fits(glyphsWidth: int, width: U32) {
    glyphsWidth < width - width / 20
  }

  /** The scale factor after `steps` increments of 0.5. */
  function ScaleAt(initialScale: real, steps: nat): real {
    initialScale + 0.5 * steps as real
  }

  /** The fit loop. Its termination rests on the font: the loop ends at the
      first step whose layout fits, and `fits` is a step known to fit. The
      result is the first fitting scale factor, that is, the largest text. */
  method FitText(width: U32, initialScale: real, layout: real -> Measure, ghost fits: nat)
    returns (scale: real, glyphsWidth: nat, glyphsHeight: U32, ghost steps: nat)
    requires Fits(GlyphsWidth(layout(ScaleAt(initialScale, fits))), width)
    ensures steps <= fits && scale == ScaleAt(initialScale, steps)
    ensures glyphsWidth == GlyphsWidth(layout(scale)) && glyphsHeight == layout(scale).lineHeight
    ensures 1 <= glyphsWidth < width - width / 20
    ensures forall k :: 0 <= k < steps ==> !Fits(GlyphsWidth(layout(ScaleAt(initialScale, k))), width)
  {
    scale := initialScale;
    steps := 0;
    while true
      invariant steps <= fits && scale == ScaleAt(initialScale, steps)
      invariant forall k :: 0 <= k < steps ==> !Fits(GlyphsWidth(layout(ScaleAt(initialScale, k))), width)
      decreases fits - steps
    {
      var m := layout(scale);
      glyphsHeight := m.lineHeight;
      glyphsWidth := GlyphsWidth(m);
      if glyphsWidth < width - width / 20 {
        break;
      }
      scale := scale + 0.5;
      steps := steps + 1;
    }
  }

  /** Where the run is drawn. */
  datatype Placement = Placement(textX: U32, textY: I32)

  /** The placement arithmetic: `x0 + (width - glyphs_width) / 2` and
      `(y0 + (height - glyphs_height) / 2) as i32 + vertical_offset`. */
  function Place(x0: U32, y0: U32, width: U32, height: U32, glyphsWidth: nat, glyphsHeight: U32,
                 verticalOffset: I32): (r: Option<Placement>)
    ensures r.Some? ==> x0 <= r.value.textX && r.value.textX + glyphsWidth <= x0 + width
    ensures r.Some? ==>
      var left := r.value.textX - x0;
      var right := x0 + width - (r.value.textX + glyphsWidth);
      0 <= right - left <= 1
    ensures r.Some? && y0 + height <= I32_MAX ==>
      r.value.textY == y0 + (height - glyphsHeight) / 2 + verticalOffset
    ensures (glyphsWidth <= width && glyphsHeight <= height && x0 + width <= U32_MAX
             && y0 + height <= I32_MAX && verticalOffset <= 0) ==> r.Some?
  {
    if glyphsWidth > width || glyphsHeight > height then None
    else
      var x := x0 + (width - glyphsWidth) / 2;
      var y := y0 + (height - glyphsHeight) / 2;
      if x > U32_MAX || y > U32_MAX then None
      else
        var ty := U32AsI32(y) + verticalOffset;
        if ty < I32_MIN || ty > I32_MAX then None
        else Some(Placement(x, ty))
  }

  /** `draw_centered_text` up to the final layout: fit, then centre. The scale
      is the first fitting one, and the run is centred across the box and
      placed at the centred top plus the offset. */
  method DrawCenteredText(x0: U32, y0: U32, width: U32, height: U32, initialScale: real,
                          verticalOffset: I32, layout: real -> Measure, ghost fits: nat)
    returns (scale: real, placement: Option<Placement>, ghost steps: nat)
    requires Fits(GlyphsWidth(layout(ScaleAt(initialScale, fits))), width)
    ensures steps <= fits && scale == ScaleAt(initialScale, steps)
    ensures forall k :: 0 <= k < steps ==> !Fits(GlyphsWidth(layout(ScaleAt(initialScale, k))), width)
    ensures Fits(GlyphsWidth(layout(scale)), width)
    ensures placement == Place(x0, y0, width, height, GlyphsWidth(layout(scale)), layout(scale).lineHeight,
                               verticalOffset)
    ensures placement.Some? ==>
      && x0 <= placement.value.textX
      && placement.value.textX + GlyphsWidth(layout(scale)) <= x0 + width
      && x0 + width - (placement.value.textX + GlyphsWidth(layout(scale))) - (placement.value.textX - x0) in {0, 1}
    ensures placement.Some? && y0 + height <= I32_MAX ==>
      placement.value.textY == y0 + (height - layout(scale).lineHeight) / 2 + verticalOffset
    ensures (layout(scale).lineHeight <= height && x0 + width <= U32_MAX
             && y0 + height <= I32_MAX && verticalOffset <= 0) ==> placement.Some?
  {
    var glyphsWidth, glyphsHeight;
    scale, glyphsWidth, glyphsHeight, steps := FitText(width, initialScale, layout, fits);
    placement := Place(x0, y0, width, height, glyphsWidth, glyphsHeight, verticalOffset);
  }
}
