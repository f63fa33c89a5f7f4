/** `sort_colors`: the greedy nearest-neighbour order of the entries, followed
    by a stable sort that moves bright near-grey entries to the end, ordered by
    lightness. Colour conversions are parameters: `oklabDist` is the Euclidean
    distance between the Oklab coordinates of two parsed colours, `toHsl` the
    HSL form of a parsed colour. */
module Swatches {

  import opened Wrappers
  import opened Colors
  import opened Hex
  import opened Greedy
  import opened KeySort
  import opened MachineInts

  /** One entry of the input list. */
  datatype ColorEntry = ColorEntry(name: string, hex: string)

  /** Rust's `f32 as i32`: truncation toward zero, saturating at the ends of the
      i32 range. */
  function TruncToI32(x: real): (r: int)
    ensures I32_MIN <= r <= I32_MAX
    ensures 0.0 <= x < (I32_MAX + 1) as real ==> r as real <= x < r as real + 1.0
    ensures (I32_MIN - 1) as real < x <= 0.0 ==> r as real - 1.0 < x <= r as real
    ensures x >= (I32_MAX + 1) as real ==> r == I32_MAX
    ensures x <= (I32_MIN - 1) as real ==> r == I32_MIN
  {
    if x >= I32_MAX as real then I32_MAX
    else if x <= I32_MIN as real then I32_MIN
    else if x >= 0.0 then x.Floor
    else -((-x).Floor)
  }

  /** The truncating cast never reverses an order. */
  lemma TruncMonotone(x: real, y: real)
    requires x <= y
    ensures TruncToI32(x) <= TruncToI32(y)
  {
    if 0.0 <= x && y < I32_MAX as real {
      assert x.Floor <= y.Floor;
    } else if x < 0.0 && y < 0.0 && I32_MIN as real < x {
      assert (-y).Floor <= (-x).Floor;
    }
  }

  /** An entry the post-pass moves to the end: near-grey and bright. */
  predicate IsLightNeutral(h: Hsl) {
    h.saturation < 0.05 && h.lightness > 0.75
  }

  /** `(lightness * 100.0) as i32`. */
  function LightnessPercent(h: Hsl): int {
    TruncToI32(h.lightness * 100.0)
  }

  /** The sort key: `(1, lightness percent)` for a light neutral, `(0, 0)` for
      every other entry. */
  function LightKey(h: Hsl): (k: Key)
    ensures k.group == 1 <==> IsLightNeutral(h)
    ensures IsLightNeutral(h) ==> k.level == LightnessPercent(h) >= 75
    ensures !IsLightNeutral(h) ==> k == Key(0, 0)
  {
    if IsLightNeutral(h) then Key(1, LightnessPercent(h)) else Key(0, 0)
  }

  /** The HSL form of an entry's colour, None when its hex code does not parse. */
  function EntryHsl(e: ColorEntry, toHsl: Rgb8 -> Hsl): Option<Hsl> {
    match HexToRgb(e.hex)
    case Some(c) => Some(toHsl(c))
    case None => None
  }

  predicate IsLightNeutralEntry(e: ColorEntry, toHsl: Rgb8 -> Hsl) {
    EntryHsl(e, toHsl).Some? && IsLightNeutral(EntryHsl(e, toHsl).value)
  }

  /** The key closure of the post-pass. An entry whose hex code does not parse
      never reaches it (the source has already panicked while computing the
      coordinates); it is given the key (0, 0). */
  function EntryKey(e: ColorEntry, toHsl: Rgb8 -> Hsl): Key {
    match EntryHsl(e, toHsl)
    case Some(h) => LightKey(h)
    case None => Key(0, 0)
  }

  function EntryKeyFn(toHsl: Rgb8 -> Hsl): ColorEntry -> Key {
    e => EntryKey(e, toHsl)
  }

  /** Every hex code parsed, or None if any one fails (the source panics). */
  function ParseAll(colors: seq<ColorEntry>): (r: Option<seq<Rgb8>>)
    ensures r.Some? <==> forall i :: 0 <= i < |colors| ==> HexToRgb(colors[i].hex).Some?
    ensures r.Some? ==> |r.value| == |colors|
    ensures r.Some? ==> forall i :: 0 <= i < |colors| ==> HexToRgb(colors[i].hex) == Some(r.value[i])
  {
    if colors == [] then Some([])
    else
      match (HexToRgb(colors[0].hex), ParseAll(colors[1..]))
      case (Some(c), Some(rest)) => Some([c] + rest)
      case _ => None
  }

  /** Distances between entries by index, from the parsed colours. */
  function IndexDist(coords: seq<Rgb8>, oklabDist: (Rgb8, Rgb8) -> real): Dist {
    (i: nat, j: nat) =>
      if i < |coords| && j < |coords| then oklabDist(coords[i], coords[j]) else 0.0
  }

  /** `path.into_iter().map(|i| colors[i].clone())`. */
  function Reorder<T>(s: seq<T>, order: seq<nat>): seq<T>
    requires forall k :: 0 <= k < |order| ==> order[k] < |s|
  {
    seq(|order|, k requires 0 <= k < |order| => s[order[k]])
  }

  /** Taking the entries in the order of a permutation of their indices keeps
      every entry exactly as often as it occurs. */
  lemma {:induction false} ReorderPermutes<T>(s: seq<T>, p: seq<nat>)
    requires IsPermutationOfRange(p, |s|)
    ensures multiset(Reorder(s, p)) == multiset(s)
    decreases |s|
  {
    var n := |s|;
    if n > 0 {
      var m := IndexOfLast(p);
      RemoveFromPermutation(p, m);
      ReorderPermutes(s[..n - 1], p[..m] + p[m + 1..]);
      ReorderStep(s, p, m);
      assert s == s[..n - 1] + [s[n - 1]];
    }
  }

  /** Where the largest index stands in a permutation. */
  lemma IndexOfLast(p: seq<nat>) returns (m: nat)
    requires |p| >= 1 && IsPermutationOfRange(p, |p|)
    ensures m < |p| && p[m] == |p| - 1
  {
    Pigeonhole(p, |p|);
    assert |p| - 1 in p;
    m :| 0 <= m < |p| && p[m] == |p| - 1;
  }

  /** Removing the largest index from a permutation of 0..n-1 leaves one of 0..n-2. */
  lemma RemoveFromPermutation(p: seq<nat>, m: nat)
    requires |p| >= 1 && IsPermutationOfRange(p, |p|) && m < |p| && p[m] == |p| - 1
    ensures IsPermutationOfRange(p[..m] + p[m + 1..], |p| - 1)
  {
    var q := p[..m] + p[m + 1..];
    assert forall k :: 0 <= k < |q| ==> q[k] == p[if k < m then k else k + 1];
    forall k | 0 <= k < |q| ensures q[k] < |p| - 1 {
      assert p[if k < m then k else k + 1] != p[m];
    }
    forall a, b | 0 <= a < b < |q| ensures q[a] != q[b] {
      assert (if a < m then a else a + 1) < (if b < m then b else b + 1);
    }
  }

  /** Taking the entry at the largest index out of a reordering removes it once. */
  lemma ReorderStep<T>(s: seq<T>, p: seq<nat>, m: nat)
    requires |s| >= 1 && m < |p| && p[m] == |s| - 1
    requires forall k :: 0 <= k < |p| && k != m ==> p[k] < |s| - 1
    ensures multiset(Reorder(s, p))
         == multiset(Reorder(s[..|s| - 1], p[..m] + p[m + 1..])) + multiset{s[|s| - 1]}
  {
    var s', x := s[..|s| - 1], s[|s| - 1];
    var left, right := p[..m], p[m + 1..];
    assert forall k :: 0 <= k < |left| ==> left[k] == (left + right)[k];
    assert forall k :: 0 <= k < |right| ==> right[k] == (left + right)[|left| + k];
    var a, b := Reorder(s', left), Reorder(s', right);
    assert p == left + [|s| - 1] + right;
    assert Reorder(s, p) == a + [x] + b;
    assert Reorder(s', left + right) == a + b;
  }

  ghost predicate LightNeutralsLast(t: seq<ColorEntry>, toHsl: Rgb8 -> Hsl) {
    forall a, b :: 0 <= a < b < |t| && IsLightNeutralEntry(t[a], toHsl) ==> IsLightNeutralEntry(t[b], toHsl)
  }

  ghost predicate LightNeutralsByLightness(t: seq<ColorEntry>, toHsl: Rgb8 -> Hsl) {
    forall a, b :: 0 <= a < b < |t| && IsLightNeutralEntry(t[a], toHsl) && IsLightNeutralEntry(t[b], toHsl) ==>
      LightnessPercent(EntryHsl(t[a], toHsl).value) <= LightnessPercent(EntryHsl(t[b], toHsl).value)
  }

  /** Ordered by the post-pass key, every other entry precedes every light
      neutral, and the light neutrals rise in truncated lightness percent. */
  lemma SortedByLightKey(t: seq<ColorEntry>, toHsl: Rgb8 -> Hsl)
    requires SortedByKey(t, EntryKeyFn(toHsl))
    ensures LightNeutralsLast(t, toHsl) && LightNeutralsByLightness(t, toHsl)
  {
    forall a, b | 0 <= a < b < |t|
      ensures IsLightNeutralEntry(t[a], toHsl) ==> IsLightNeutralEntry(t[b], toHsl)
      ensures IsLightNeutralEntry(t[a], toHsl) && IsLightNeutralEntry(t[b], toHsl) ==>
        LightnessPercent(EntryHsl(t[a], toHsl).value) <= LightnessPercent(EntryHsl(t[b], toHsl).value)
    {
      assert KeyLe(EntryKeyFn(toHsl)(t[a]), EntryKeyFn(toHsl)(t[b]));
    }
  }

  /** `sort_colors`. None where the source panics: a hex code that does not
      parse (while computing the coordinates) or an empty list (`visited[0]`). */
  method SortColors(colors: seq<ColorEntry>, oklabDist: (Rgb8, Rgb8) -> real, toHsl: Rgb8 -> Hsl)
    returns (sorted: Option<seq<ColorEntry>>)
    ensures sorted.None? <==> colors == [] || ParseAll(colors).None?
    ensures sorted.Some? ==>
      var order := GreedyOrder(|colors|, IndexDist(ParseAll(colors).value, oklabDist));
      && IsGreedyPath(order, |colors|, IndexDist(ParseAll(colors).value, oklabDist))
      && IsPermutationOfRange(order, |colors|)
      && sorted.value == SortByKey(Reorder(colors, order), EntryKeyFn(toHsl))
    ensures sorted.Some? ==> multiset(sorted.value) == multiset(colors)
    ensures sorted.Some? ==> LightNeutralsLast(sorted.value, toHsl) && LightNeutralsByLightness(sorted.value, toHsl)
  {
    var coords := ParseAll(colors);
    if coords.None? || |colors| == 0 {
      return None;
    }
    var dist := IndexDist(coords.value, oklabDist);
    var path := GreedyPath(|colors|, dist);
    GreedyOrderIsGreedy(|colors|, dist);
    GreedyPathIsPermutation(path, |colors|, dist);
    var ordered := Reorder(colors, path);
    var result := SortByKey(ordered, EntryKeyFn(toHsl));
    ReorderPermutes(colors, path);
    SortByKeyCorrect(ordered, EntryKeyFn(toHsl));
    SortedByLightKey(result, toHsl);
    sorted := Some(result);
  }
}
