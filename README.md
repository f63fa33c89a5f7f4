# lcpg swatch renderer — a verified model of its core

`lcpg` reads a JSON list of named colours (`{"name", "hex"}`), orders them so
that neighbouring swatches look alike, and renders a PNG palette: eight
400 x 300 blocks per row, each block filled with its colour and carrying two
labels, the colour's name and its hex code, in a tint picked to be readable on
that background.

This project models the decision-making core of `src/main.rs` in Dafny and
proves what it promises:

- `hex.dfy` (module `Hex`): `hex_to_rgb` — every leading `#` stripped, three
  two-character channels parsed base 16 (a leading `+` accepted, as Rust's
  `from_str_radix` does), None wherever the source would panic.
- `greedy.dfy` (module `Greedy`): the greedy nearest-neighbour walk of
  `sort_colors`, as an imperative method over a `visited` array, proved equal
  to a functional definition, which is proved to be the unique path whose
  every step goes to the nearest unvisited entry (ties to the lowest index)
  and to be a permutation of the entries.
- `key_sort.dfy` (module `KeySort`): the stable `sort_by_key`, as insertion
  sort by a lexicographic key, proved sorted, a permutation, stable, and the
  only arrangement with those properties.
- `sort_colors.dfy` (module `Swatches`): `sort_colors` end to end: parse,
  greedy walk, reorder, then move the bright near-greys to the end ordered by
  their truncated lightness percent.
- `label.dfy` (module `Label`): `luminance` and `pick_label_color`.
- `text_fit.dfy` (module `TextFit`): the shrink-to-fit loop and the integer
  centring of `draw_centered_text`.
- `grid.dfy` (module `Grid`): the image size, the block grid, and the two
  label boxes of each block, as `main` computes them.
- `machine_ints.dfy` (module `MachineInts`): Rust's `u32` and `i32` ranges and the `as` casts between them.
- `colors.dfy`, `wrappers.dfy`: the colour value types and `Option`.

Colour-space conversions (sRGB, HSL, Oklab) and the font are not modelled;
they enter as function parameters (`toHsl`, `toRgb`, `toRgb8`, `oklabDist`,
`layout`), so every result holds for whatever those conversions compute.
Floating-point values are modelled as reals. Rust panics (an `unwrap` of a
failed parse, an out-of-range slice, an integer overflow in a debug build) are
modelled as `None`, except those listed under "## Left out".

## Model

| member | source | states |
|---|---|---|
| Hex.TrimHashes | src/main.rs:78 | the result starts with no `#`, and the input is exactly some number of `#` followed by the result |
| Hex.HexToRgb | src/main.rs:77-83 | fewer than six characters after the `#`s is None; a result means each of the six characters read is a hex digit or `+` |
| Hex.ParseOctet | src/main.rs:79-81 | `from_str_radix` on one pair: two hex digits, or `+` and one digit; its results are stated by Hex.OctetRoundTrip and Hex.NonHexRejected |
| Hex.OctetRoundTrip | src/main.rs:79-81 | a pair of hex digits of either case parses to the octet whose lower-case spelling is that pair lower-cased |
| Hex.ParseFormatRoundTrip | src/main.rs:77-83 | any number of `#`, then a colour's six-digit lowercase hex form, then any tail, parses back to that colour |
| Hex.CanonicalRoundTrip | src/main.rs:77-83 | a code whose six characters after the `#`s are lowercase hex digits parses, and formatting its colour gives those six characters back |
| Hex.OnlySixCharactersRead | src/main.rs:79-81 | characters after the sixth (after the `#`s) never change the result |
| Hex.NonHexRejected | src/main.rs:79-81 | a character among the six that is not a hex digit, and is not a `+` opening a pair, makes the parse fail |
| Hex.AnyCaseRoundTrip | src/main.rs:77-83 | six hex digits of either case after the `#`s parse, and formatting the colour gives those digits lower-cased: `#FF8800` and `#ff8800` are the same colour |
| Hex.UpperCaseRed | src/main.rs:77-83 | `#FF0000` parses as (255, 0, 0) |
| Hex.PlusSignAccepted | src/main.rs:79-81 | `#+a+b+c` parses as (10, 11, 12): `from_str_radix` accepts a leading `+` in each pair |
| Hex.TrimHashesOfPrefixed | src/main.rs:78 | stripping k `#`s from a text not starting with `#` gives that text back |
| Hex.TrimHashesAppend | src/main.rs:78 | stripping commutes with appending a tail once the stripped text is non-empty |
| Greedy.ScanNearest | src/main.rs:172-181 | the inner scan as a function over the indices below i; Greedy.ScanNearestCorrect states what it finds |
| Greedy.ScanNearestCorrect | src/main.rs:172-181 | the scan finds nothing iff every index is visited; otherwise an unvisited index at minimum distance, strictly nearer than every lower unvisited index (strict `<`, first wins ties) |
| Greedy.NearestUnvisited | src/main.rs:172-181 | the loop over the `visited` array returns the index of the scan above, together with its distance |
| Greedy.GreedyPath | src/main.rs:164-188 | the walk starting from entry 0 with a `visited` array builds exactly the path of n - 1 greedy rounds |
| Greedy.GreedyOrder | src/main.rs:164-188 | the path of n - 1 rounds from [0]; Greedy.GreedyOrderIsGreedy, Greedy.GreedyPathIsPermutation and Greedy.GreedyPathUnique state what it is |
| Greedy.RoundsArePrefix | src/main.rs:170-188 | after k < n rounds the path has k + 1 entries, starts at 0 and every step is greedy |
| Greedy.GreedyOrderIsGreedy | src/main.rs:164-188 | the path of n - 1 rounds is a greedy path: every step goes to the nearest unvisited entry, lowest index on ties |
| Greedy.GreedyPathIsPermutation | src/main.rs:164-188 | a greedy path visits each of the n entries exactly once, starting from entry 0 |
| Greedy.GreedyPathUnique | src/main.rs:164-188 | two greedy paths over the same distances are equal: the tie-break makes the walk deterministic |
| Greedy.CoverNeedsLength | src/main.rs:183-187 | a path of distinct indices covering 0..n-1 has at least n entries, so no round before the last finds nothing |
| KeySort.SortByKey | src/main.rs:192 | the stable sort by key as insertion sort; KeySort.SortByKeyCorrect and KeySort.SortByKeyIsTheStableSort state what it is |
| KeySort.SortByKeyCorrect | src/main.rs:192-200 | the sort is a permutation, sorted by key, and keeps the entries of each key in their original order |
| KeySort.SortByKeyIsTheStableSort | src/main.rs:192-200 | any arrangement sorted by key that keeps each key's entries in order is the sort's result |
| KeySort.SortedStableUnique | src/main.rs:192-200 | two arrangements sorted by key with the same entries per key, in the same order, are equal |
| Swatches.TruncToI32 | src/main.rs:196 | `f32 as i32`: within the i32 range, toward zero (floor for non-negatives, ceiling for negatives), saturating beyond it |
| Swatches.TruncMonotone | src/main.rs:196 | the truncating cast preserves order |
| Swatches.LightKey | src/main.rs:195-199 | group 1 exactly for saturation < 0.05 and lightness > 0.75, then with the truncated lightness percent (at least 75) as level; (0, 0) otherwise |
| Swatches.EntryKey | src/main.rs:192-200 | the key closure: the entry's code re-parsed and converted to HSL, then (1, truncated lightness percent) for a light neutral and (0, 0) otherwise; Swatches.LightKey and Swatches.SortedByLightKey state its properties |
| Swatches.ParseAll | src/main.rs:152-162 | all codes parse (in order, one colour per entry) or the result is None |
| Swatches.Reorder | src/main.rs:191 | the entries taken in the order of the path; Swatches.ReorderPermutes states it keeps every entry |
| Swatches.ReorderPermutes | src/main.rs:191 | taking the entries in the order of a permutation of their indices keeps the multiset of entries |
| Swatches.SortedByLightKey | src/main.rs:192-200 | after the post-pass no light neutral precedes another entry, and light neutrals rise in truncated lightness percent |
| Swatches.SortColors | src/main.rs:151-202 | None iff the list is empty or a code fails to parse; otherwise the greedy path is a permutation and the result is the stable key sort of the reordered entries, a permutation of the input with the light neutrals last and by lightness |
| Label.Luminance | src/main.rs:34-37 | with channels in [0, 1] the weighted sum 0.299 r + 0.587 g + 0.114 b lies in [0, 1] |
| Label.NormalizeHue | src/main.rs:41-44 | the hue or the hue plus 360; non-negative hues unchanged; a hue in (-360, 360) lands in [0, 360) |
| Label.LabelHsl | src/main.rs:45-72 | the label keeps the background's hue at half its saturation, at lightness 0.775 or 0.28; the override forces the light tint; otherwise light only with strictly larger contrast, dark on ties |
| Label.PickLabelColor | src/main.rs:39-75 | the result is one of the two tints, converted to 8-bit sRGB |
| Label.LabelByContrast | src/main.rs:58-66 | outside the override the light tint is chosen iff its contrast is strictly larger |
| Label.LabelKeepsChroma | src/main.rs:45-46 | a background with saturation above 0.05 gets a label with saturation above 0.025 |
| Label.GreyDecidedByContrast | src/main.rs:51-52 | a grey background (saturation 0) is never visually dark, so the override never applies |
| Label.DarkYellowTakesLight | src/main.rs:51-60 | a dark saturated yellow below the luminance threshold takes the light label |
| TextFit.GlyphsWidth | src/main.rs:113-117 | the run's width is at least 1 and at least the span from the first glyph's left edge to the last glyph's right edge |
| TextFit.FitText | src/main.rs:105-124 | the loop stops at the first scale factor (initial + 0.5 k) whose run fits, so 1 <= width of run < box width - box width / 20, and no earlier factor fits |
| MachineInts.U32AsI32 | src/main.rs:127 | `u32 as i32` keeps values up to i32::MAX and wraps larger ones by 2^32 |
| MachineInts.I32AsU32 | src/main.rs:95 | `i32 as u32` keeps non-negative values and adds 2^32 to negative ones |
| MachineInts.CastsRoundTrip | src/main.rs:254-255 | the two casts undo each other, so a box top that goes through `as i32` and back is unchanged |
| TextFit.Place | src/main.rs:126-127 | a placed run lies inside the box horizontally, its right margin exceeds its left by 0 or 1, its top is the centred top plus the offset; it is placed whenever the run fits the box and no integer overflows |
| TextFit.DrawCenteredText | src/main.rs:95-127 | the scale is the first of initial + 0.5 k whose run fits with the 5% margin; the run is placed as the centring arithmetic says: inside the box across, margins differing by 0 or 1, its top the centred top plus the offset; it is placed whenever its height fits and no integer overflows |
| Grid.Rows | src/main.rs:216 | the number of rows is the ceiling of n / 8: enough for n blocks, and one fewer would not be |
| Grid.ImageHeight | src/main.rs:218 | rows times 300 when it fits in a u32, None when the multiplication overflows |
| Grid.BlockOrigin | src/main.rs:233-237 | block i sits at column i mod 8 and row i div 8 |
| Grid.BlockInsideImage | src/main.rs:216-237 | when the image can be allocated, each of the n blocks lies wholly inside it |
| Grid.BlocksDisjoint | src/main.rs:233-239 | blocks of different colours do not overlap |
| Grid.PixelInBlock | src/main.rs:216-237 | every pixel of the image lies in the cell of some index below 8 x rows |
| Grid.LabelConstants | src/main.rs:251-262 | the hex code's box starts 92 pixels down, its label is nudged up 15 pixels, the shadow strip is 15 pixels high |
| Grid.HexBoxTop | src/main.rs:255 | the hex code's box starts 92 pixels below the block's top when that fits in an i32 |
| Grid.ShadowTop | src/main.rs:251 | the shadow strip's top is 15 pixels above the block's foot, and None exactly when `y0 + 300` overflows a u32 |
| Grid.LabelBlock | src/main.rs:251-262 | no label when the block's origin, the shadow strip's top or the hex box's top overflows (all computed before any label); otherwise the name's scale is the first that fits from 3.5 and its placement is the centring of that run in the block, nudged up 10; the name is drawn first, so the hex code is placed only when the name was, with the first scale that fits from 6.5, centred in the box 92 pixels lower and nudged up 15; both runs lie inside the block's column, and both are placed when the chosen scales' line heights are at most 300 and the block lies low enough in i32 range |

## Left out

- The command line, reading and parsing the JSON file, embedding and loading the font, and saving the PNG: I/O with nothing to decide.
- The colour conversions of the palette library (sRGB to HSL and back, sRGB to Oklab, 8-bit rounding) and the acap Euclidean distance: parameters of the model, so the results hold for any conversion; their numerical behaviour is not modelled. The Oklab input is the raw 0..255 channels, which the parameter `oklabDist` receives as parsed.
- `f32` arithmetic: modelled by reals; rounding and NaN are not modelled (a NaN distance or lightness would compare differently).
- Rasterisation: filling rectangles, drawing glyphs and alpha blending; the shadow strip's colour and its rectangle at `y0 + 285`. Glyph drawing can itself panic, and those panics are not modelled: `bb.min.x as u32` and `bb.min.y as u32` wrap a negative glyph coordinate, so the `u32` sum with the pixel offset can overflow (src/main.rs:136-137), and `put_pixel` panics on a pixel outside the image (src/main.rs:145), for example a label nudged above the top row or a hex label running below the last row.
- The font: `layout` stands for laying out the text at a scale factor; glyph boxes and the line height are its outputs.
- TextFit.FitText: termination of the fit loop rests on the font eventually producing a narrow enough run; the model takes a step `fits` known to fit as a ghost argument, so it does not model a loop that never ends.
- TextFit.GlyphsWidth: does not model an `i32` overflow of `max_x - min_x`, which needs glyph edges more than 2^31 pixels apart.
- Grid.Rows: does not model a `usize` overflow of `n + 7`, which needs more entries than memory holds.
- Swatches.EntryKey: an entry whose code does not parse gets the key (0, 0); the source never computes that key, because it has already panicked while computing the coordinates.
- Greedy.GreedyPath: states its result as the functional path; that this path is greedy and a permutation is proved by `Greedy.GreedyOrderIsGreedy` and `Greedy.GreedyPathIsPermutation`, which `Swatches.SortColors` uses.
- Notes on the source, which the model follows: the lightness key is truncated (`as i32`), not rounded; an empty list panics on `visited[0]` (None); a bad hex code panics (None); every leading `#` is stripped; the fit loop has no iteration cap; the label keeps the background's raw hue (the normalised hue is used only for the band test).
- Integer overflow is modelled as a debug build behaves, a panic (None); a release build wraps `u32`/`i32` arithmetic instead, and that wrapping is not modelled.
