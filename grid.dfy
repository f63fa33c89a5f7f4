/** The palette image: eight columns of 400 x 300 blocks, as many rows as the
    colour list needs, the block of the i-th sorted colour at column `i % 8`,
    row `i / 8`, and the two text labels of each block. Widths are Rust's:
    `rows as u32` keeps the low 32 bits, a `u32` or `i32` overflow (a panic in a
    debug build) is None. */
module Grid {

  import opened Wrappers
  import opened MachineInts
  import opened TextFit

  const BLOCK_SIZE_X: nat := 400
  const BLOCK_SIZE_Y: nat := 300
  const COLUMNS: nat := 8

  /** The height of the shadow strip at the foot of a block. */
  const SHADOW_HEIGHT: nat := BLOCK_SIZE_Y / 20
  /** `(BLOCK_SIZE_Y as f32 / 3.25) as i32`: how far below the block's top the
      hex code's box starts (the value is positive, so truncation is the floor). */
  const HEX_TOP_OFFSET: int := (BLOCK_SIZE_Y as real / 3.25).Floor
  /** The scale factors the two labels start from, and their vertical nudges. */
  const NAME_SCALE: real := 3.5
  const HEX_SCALE: real := 6.5
  const NAME_OFFSET: int := -10
  const HEX_OFFSET: int := -(BLOCK_SIZE_Y / 20)

  /** The number of rows: `(n + COLUMNS - 1) / COLUMNS`. */
  function Rows(n: nat): (rows: nat)
    ensures rows * COLUMNS >= n
    ensures n > 0 ==> (rows - 1) * COLUMNS < n
    ensures n == 0 <==> rows == 0
  {
    (n + COLUMNS - 1) / COLUMNS
  }

  /** The image width, `COLUMNS as u32 * BLOCK_SIZE_X`. */
  const IMAGE_WIDTH: nat := COLUMNS * BLOCK_SIZE_X

  /** The image height, `(rows as u32) * BLOCK_SIZE_Y`. */
  function ImageHeight(n: nat): (h: Option<U32>)
    ensures Rows(n) <= U32_MAX / BLOCK_SIZE_Y ==> h == Some(Rows(n) * BLOCK_SIZE_Y)
    ensures Rows(n) <= U32_MAX && Rows(n) * BLOCK_SIZE_Y > U32_MAX ==> h.None?
  {
    var rows := Rows(n) % (U32_MAX + 1);
    if rows * BLOCK_SIZE_Y > U32_MAX then None else Some(rows * BLOCK_SIZE_Y)
  }

  /** The top-left corner of the i-th block: `((i % COLUMNS) as u32 * BLOCK_SIZE_X,
      (i / COLUMNS) as u32 * BLOCK_SIZE_Y)`. */
  function BlockOrigin(i: nat): (o: Option<(U32, U32)>)
    ensures i / COLUMNS <= U32_MAX / BLOCK_SIZE_Y ==>
      o == Some(((i % COLUMNS) * BLOCK_SIZE_X, (i / COLUMNS) * BLOCK_SIZE_Y))
  {
    var row := (i / COLUMNS) % (U32_MAX + 1);
    if row * BLOCK_SIZE_Y > U32_MAX then None
    else Some(((i % COLUMNS) * BLOCK_SIZE_X, row * BLOCK_SIZE_Y))
  }

  /** When the image can be allocated, every one of the n blocks has an origin
      and lies wholly inside the image. */
  lemma BlockInsideImage(n: nat, i: nat)
    requires i < n && Rows(n) <= U32_MAX / BLOCK_SIZE_Y
    ensures ImageHeight(n).Some? && BlockOrigin(i).Some?
    ensures BlockOrigin(i).value.0 + BLOCK_SIZE_X <= IMAGE_WIDTH
    ensures BlockOrigin(i).value.1 + BLOCK_SIZE_Y <= ImageHeight(n).value
  {
    assert i / COLUMNS < Rows(n) by {
      assert (i / COLUMNS) * COLUMNS <= i;
    }
  }

  /** Two different colours never share pixels: their blocks are a full block
      apart horizontally or vertically. */
  lemma BlocksDisjoint(i: nat, j: nat)
    requires i != j && i / COLUMNS <= U32_MAX / BLOCK_SIZE_Y && j / COLUMNS <= U32_MAX / BLOCK_SIZE_Y
    ensures var a, b := BlockOrigin(i).value, BlockOrigin(j).value;
      a.0 + BLOCK_SIZE_X <= b.0 || b.0 + BLOCK_SIZE_X <= a.0 ||
      a.1 + BLOCK_SIZE_Y <= b.1 || b.1 + BLOCK_SIZE_Y <= a.1
  {
    if i % COLUMNS == j % COLUMNS {
      assert i / COLUMNS != j / COLUMNS by {
        assert i == (i / COLUMNS) * COLUMNS + i % COLUMNS;
        assert j == (j / COLUMNS) * COLUMNS + j % COLUMNS;
      }
    }
  }

  /** Every pixel of the image lies in the cell of some index below `8 * rows`:
      the cells tile the image (cells past the last colour stay transparent). */
  lemma PixelInBlock(n: nat, x: nat, y: nat) returns (i: nat)
    requires Rows(n) <= U32_MAX / BLOCK_SIZE_Y
    requires x < IMAGE_WIDTH && ImageHeight(n).Some? && y < ImageHeight(n).value
    ensures i < Rows(n) * COLUMNS && BlockOrigin(i).Some?
    ensures BlockOrigin(i).value.0 <= x < BlockOrigin(i).value.0 + BLOCK_SIZE_X
    ensures BlockOrigin(i).value.1 <= y < BlockOrigin(i).value.1 + BLOCK_SIZE_Y
  {
    i := (y / BLOCK_SIZE_Y) * COLUMNS + x / BLOCK_SIZE_X;
    assert i % COLUMNS == x / BLOCK_SIZE_X && i / COLUMNS == y / BLOCK_SIZE_Y;
  }

  /** 300 / 3.25 is 92.3..., so the hex box starts 92 pixels down and its
      labels are nudged up by the shadow strip's height. */
  lemma LabelConstants()
    ensures HEX_TOP_OFFSET == 92 && HEX_OFFSET == -15 && SHADOW_HEIGHT == 15
  {
    assert 92.0 <= BLOCK_SIZE_Y as real / 3.25 < 93.0;
  }

  /** The boxes the two labels are centred in, as `draw_centered_text` reads
      them back: the name in the block itself, the hex code in a box of the
      block's size starting `HEX_TOP_OFFSET` lower (through `y0 as i32 + 92`
      and `top() as u32`). */
  function HexBoxTop(y0: U32): (top: Option<U32>)
    ensures y0 + HEX_TOP_OFFSET <= I32_MAX ==> top == Some(y0 + HEX_TOP_OFFSET)
  {
    var t := U32AsI32(y0) + HEX_TOP_OFFSET;
    if t > I32_MAX then None else Some(I32AsU32(t))
  }

  /** The top of the shadow strip, `y0 + BLOCK_SIZE_Y - BLOCK_SIZE_Y / 20`,
      computed in `u32` before either label is drawn; None when the sum
      overflows. */
  function ShadowTop(y0: U32): (top: Option<U32>)
    ensures y0 + BLOCK_SIZE_Y <= U32_MAX <==> top.Some?
    ensures top.Some? ==> top.value + SHADOW_HEIGHT == y0 + BLOCK_SIZE_Y
  {
    if y0 + BLOCK_SIZE_Y > U32_MAX then None else Some(y0 + BLOCK_SIZE_Y - SHADOW_HEIGHT)
  }

  /** Block i gets as far as its labels: its origin, the shadow strip's top and
      the hex code's box all computed without overflow. */
  predicate BlockDrawable(i: nat) {
    && BlockOrigin(i).Some?
    && ShadowTop(BlockOrigin(i).value.1).Some?
    && HexBoxTop(BlockOrigin(i).value.1).Some?
  }

  /** The labelling of one block: the colour's name and its hex code, each fitted
      from its own initial scale and centred, the name in the block nudged up
      10 pixels, the hex code in the box 92 pixels lower nudged up 15. Both runs
      lie inside the block's column. None where the source panics: the block's
      origin, the shadow strip's top or the hex box's top overflows (all three
      are computed before either label is drawn), or a label's own arithmetic
      overflows; the name is drawn first, so when its arithmetic fails the hex
      code is never placed. */
  method LabelBlock(i: nat, nameLayout: real -> Measure, hexLayout: real -> Measure,
                    ghost nameFits: nat, ghost hexFits: nat)
    returns (name: Option<Placement>, hex: Option<Placement>, nameScale: real, hexScale: real,
             ghost nameSteps: nat, ghost hexSteps: nat)
    requires Fits(GlyphsWidth(nameLayout(ScaleAt(NAME_SCALE, nameFits))), BLOCK_SIZE_X)
    requires Fits(GlyphsWidth(hexLayout(ScaleAt(HEX_SCALE, hexFits))), BLOCK_SIZE_X)
    ensures !BlockDrawable(i) ==> name.None? && hex.None?
    ensures name.None? ==> hex.None?
    ensures BlockDrawable(i) ==>
      && nameScale == ScaleAt(NAME_SCALE, nameSteps)
      && (forall k :: 0 <= k < nameSteps ==> !Fits(GlyphsWidth(nameLayout(ScaleAt(NAME_SCALE, k))), BLOCK_SIZE_X))
      && name == Place(BlockOrigin(i).value.0, BlockOrigin(i).value.1, BLOCK_SIZE_X, BLOCK_SIZE_Y,
                       GlyphsWidth(nameLayout(nameScale)), nameLayout(nameScale).lineHeight, NAME_OFFSET)
    ensures BlockDrawable(i) && name.Some? ==>
      && hexScale == ScaleAt(HEX_SCALE, hexSteps)
      && (forall k :: 0 <= k < hexSteps ==> !Fits(GlyphsWidth(hexLayout(ScaleAt(HEX_SCALE, k))), BLOCK_SIZE_X))
      && hex == Place(BlockOrigin(i).value.0, HexBoxTop(BlockOrigin(i).value.1).value, BLOCK_SIZE_X, BLOCK_SIZE_Y,
                      GlyphsWidth(hexLayout(hexScale)), hexLayout(hexScale).lineHeight, HEX_OFFSET)
    ensures BlockOrigin(i).Some? && name.Some? ==>
      var x0 := BlockOrigin(i).value.0;
      x0 <= name.value.textX && name.value.textX + GlyphsWidth(nameLayout(nameScale)) <= x0 + BLOCK_SIZE_X
    ensures BlockOrigin(i).Some? && hex.Some? ==>
      var x0 := BlockOrigin(i).value.0;
      x0 <= hex.value.textX && hex.value.textX + GlyphsWidth(hexLayout(hexScale)) <= x0 + BLOCK_SIZE_X
    ensures BlockOrigin(i).Some? && name.Some? && BlockOrigin(i).value.1 + BLOCK_SIZE_Y <= I32_MAX ==>
      name.value.textY
        == BlockOrigin(i).value.1 + (BLOCK_SIZE_Y - nameLayout(nameScale).lineHeight) / 2 + NAME_OFFSET
    ensures BlockOrigin(i).Some? && hex.Some? && BlockOrigin(i).value.1 + HEX_TOP_OFFSET + BLOCK_SIZE_Y <= I32_MAX ==>
      hex.value.textY
        == BlockOrigin(i).value.1 + HEX_TOP_OFFSET + (BLOCK_SIZE_Y - hexLayout(hexScale).lineHeight) / 2 + HEX_OFFSET
    ensures (BlockOrigin(i).Some? && BlockOrigin(i).value.1 + HEX_TOP_OFFSET + BLOCK_SIZE_Y <= I32_MAX
             && nameLayout(nameScale).lineHeight <= BLOCK_SIZE_Y
             && hexLayout(hexScale).lineHeight <= BLOCK_SIZE_Y) ==> name.Some? && hex.Some?
  {
    nameScale, hexScale, nameSteps, hexSteps := NAME_SCALE, HEX_SCALE, 0, 0;
    var origin := BlockOrigin(i);
    if origin.None? {
      return None, None, nameScale, hexScale, nameSteps, hexSteps;
    }
    var (x0, y0) := origin.value;
    var shadowTop := ShadowTop(y0);
    var hexTop := HexBoxTop(y0);
    if shadowTop.None? || hexTop.None? {
      return None, None, nameScale, hexScale, nameSteps, hexSteps;
    }
    nameScale, name, nameSteps := DrawCenteredText(x0, y0, BLOCK_SIZE_X, BLOCK_SIZE_Y, NAME_SCALE,
                                                   NAME_OFFSET, nameLayout, nameFits);
    if name.None? {
      return None, None, nameScale, hexScale, nameSteps, hexSteps;
    }
    hexScale, hex, hexSteps := DrawCenteredText(x0, hexTop.value, BLOCK_SIZE_X, BLOCK_SIZE_Y, HEX_SCALE,
                                                HEX_OFFSET, hexLayout, hexFits);
  }
}
