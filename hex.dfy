/** Parsing of a colour's hex code (`hex_to_rgb`). */
module Hex {

  import opened Wrappers
  import opened Colors

  /** A character that `char::to_digit(16)` accepts. */
  predicate IsHexDigit(c: char) {
    '0' <= c <= '9' || 'a' <= c <= 'f' || 'A' <= c <= 'F'
  }

  /** A digit of the canonical lower-case spelling. */
  predicate IsLowerHexDigit(c: char) {
    '0' <= c <= '9' || 'a' <= c <= 'f'
  }

  function DigitValue(c: char): (v: nat)
    requires IsHexDigit(c)
    ensures v < 16
  {
    if c <= '9' then c as int - '0' as int
    else if c <= 'F' then c as int - 'A' as int + 10
    else c as int - 'a' as int + 10
  }

  /** The lower-case hex digit for a value below 16. */
  function LowerHexDigit(v: nat): (c: char)
    requires v < 16
    ensures IsLowerHexDigit(c) && IsHexDigit(c) && DigitValue(c) == v
  {
    if v < 10 then ('0' as int + v) as char else ('a' as int + v - 10) as char
  }

  /** ASCII lower-casing of a hex digit's letter; other characters unchanged. */
  function LowerCase(c: char): (l: char)
    ensures IsHexDigit(c) ==> IsLowerHexDigit(l) && DigitValue(l) == DigitValue(c)
    ensures IsLowerHexDigit(c) ==> l == c
  {
    if 'A' <= c <= 'F' then (c as int - 'A' as int + 'a' as int) as char else c
  }

  function LowerCaseAll(s: string): (l: string)
    ensures |l| == |s| && forall i :: 0 <= i < |s| ==> l[i] == LowerCase(s[i])
  {
    seq(|s|, i requires 0 <= i < |s| => LowerCase(s[i]))
  }

  /** `u8::from_str_radix(pair, 16)` on a two-character pair: two hex digits, or a
      `+` sign followed by one digit (Rust accepts a leading `+`); anything else
      is an error. */
  function ParseOctet(hi: char, lo: char): Option<Byte> {
    if hi == '+' then
      if IsHexDigit(lo) then Some(DigitValue(lo)) else None
    else if IsHexDigit(hi) && IsHexDigit(lo) then
      Some(16 * DigitValue(hi) + DigitValue(lo))
    else
      None
  }

  /** A run of `k` hash signs. */
  function Hashes(k: nat): (h: string)
    ensures |h| == k && forall i :: 0 <= i < k ==> h[i] == '#'
  {
    if k == 0 then [] else ['#'] + Hashes(k - 1)
  }

  /** `str::trim_start_matches('#')`: every leading `#` is dropped, not just one. */
  function TrimHashes(s: string): (t: string)
    ensures t == [] || t[0] != '#'
    ensures |t| <= |s| && s == Hashes(|s| - |t|) + t
    decreases |s|
  {
    if |s| > 0 && s[0] == '#' then
      var t := TrimHashes(s[1..]);
      calc {
        s;
        [s[0]] + s[1..];
        ['#'] + (Hashes(|s| - 1 - |t|) + t);
        (['#'] + Hashes(|s| - 1 - |t|)) + t;
        Hashes(|s| - |t|) + t;
      }
      t
    else
      assert s == Hashes(0) + s;
      s
  }

  /** `hex_to_rgb`: drops the leading `#`s, then reads the octets at character
      offsets 0..2, 2..4 and 4..6; characters after the sixth are never looked at.
      None stands for the panic the source raises through `unwrap` (or through
      slicing) when the rest is shorter than six characters or a pair is rejected. */
  function HexToRgb(s: string): (r: Option<Rgb8>)
    ensures |TrimHashes(s)| < 6 ==> r.None?
    ensures r.Some? ==> forall i :: 0 <= i < 6 ==> TrimHashes(s)[i] == '+' || IsHexDigit(TrimHashes(s)[i])
  {
    var t := TrimHashes(s);
    if |t| < 6 then None
    else
      match (ParseOctet(t[0], t[1]), ParseOctet(t[2], t[3]), ParseOctet(t[4], t[5]))
      case (Some(r), Some(g), Some(b)) => Some(Rgb8(r, g, b))
      case _ => None
  }

  /** The canonical six-digit lower-case spelling of a colour (no `#`). */
  function FormatHex(c: Rgb8): (s: string)
    ensures |s| == 6 && forall i :: 0 <= i < 6 ==> IsLowerHexDigit(s[i])
  {
    [LowerHexDigit(c.r / 16), LowerHexDigit(c.r % 16),
     LowerHexDigit(c.g / 16), LowerHexDigit(c.g % 16),
     LowerHexDigit(c.b / 16), LowerHexDigit(c.b % 16)]
  }

  /** Stripping stops at the first character that is not `#`. */
  lemma {:induction false} TrimHashesOfPrefixed(k: nat, t: string)
    requires t == [] || t[0] != '#'
    ensures TrimHashes(Hashes(k) + t) == t
  {
    if k > 0 {
      assert (Hashes(k) + t)[1..] == Hashes(k - 1) + t;
      TrimHashesOfPrefixed(k - 1, t);
    } else {
      assert Hashes(k) + t == t;
    }
  }

  /** Text after a non-empty stripped rest is carried along unchanged. */
  lemma {:induction false} TrimHashesAppend(s: string, tail: string)
    requires TrimHashes(s) != []
    ensures TrimHashes(s + tail) == TrimHashes(s) + tail
    decreases |s|
  {
    if |s| > 0 && s[0] == '#' {
      assert (s + tail)[1..] == s[1..] + tail;
      TrimHashesAppend(s[1..], tail);
    }
  }

  /** Round trip: any colour written as six hex digits, after any number of `#`
      and followed by anything at all, parses back to that colour. */
  lemma ParseFormatRoundTrip(c: Rgb8, k: nat, tail: string)
    ensures HexToRgb(Hashes(k) + FormatHex(c) + tail) == Some(c)
  {
    var f := FormatHex(c);
    assert Hashes(k) + f + tail == Hashes(k) + (f + tail);
    TrimHashesOfPrefixed(k, f + tail);
    var t := TrimHashes(Hashes(k) + f + tail);
    assert t == f + tail;
    OctetOfDigits(c.r);
    OctetOfDigits(c.g);
    OctetOfDigits(c.b);
    assert t[0] == f[0] && t[1] == f[1] && t[2] == f[2] && t[3] == f[3] && t[4] == f[4] && t[5] == f[5];
  }

  lemma OctetOfDigits(v: Byte)
    ensures ParseOctet(LowerHexDigit(v / 16), LowerHexDigit(v % 16)) == Some(v)
  {
  }

  /** Only the first six characters after the `#`s decide the result: appending
      text changes nothing, and neither does dropping everything after them. */
  lemma OnlySixCharactersRead(s: string, tail: string)
    requires |TrimHashes(s)| >= 6
    ensures HexToRgb(s + tail) == HexToRgb(s)
    ensures HexToRgb(s) == HexToRgb(TrimHashes(s)[..6])
  {
    TrimHashesAppend(s, tail);
    var six := TrimHashes(s)[..6];
    TrimHashesOfPrefixed(0, six);
    assert Hashes(0) + six == six;
  }

  /** A pair holding a character that is neither a hex digit nor a leading `+`
      makes the parse fail. */
  lemma NonHexRejected(s: string, i: nat)
    requires i < 6 <= |TrimHashes(s)|
    requires !IsHexDigit(TrimHashes(s)[i]) && (i % 2 == 1 || TrimHashes(s)[i] != '+')
    ensures HexToRgb(s).None?
  {
  }

  /** The other round trip: a canonical spelling read back and written again is
      reproduced exactly. */
  lemma CanonicalRoundTrip(s: string)
    requires |TrimHashes(s)| >= 6
    requires forall i :: 0 <= i < 6 ==> IsLowerHexDigit(TrimHashes(s)[i])
    ensures HexToRgb(s).Some? && FormatHex(HexToRgb(s).value) == TrimHashes(s)[..6]
  {
    var t := TrimHashes(s);
    var r := OctetRoundTrip(t[0], t[1]);
    var g := OctetRoundTrip(t[2], t[3]);
    var b := OctetRoundTrip(t[4], t[5]);
    assert HexToRgb(s) == Some(Rgb8(r, g, b));
    assert FormatHex(Rgb8(r, g, b)) == [t[0], t[1], t[2], t[3], t[4], t[5]];
  }

  /** A pair of digits of either case parses to the octet whose lower-case
      spelling is that pair lower-cased. */
  lemma OctetRoundTrip(hi: char, lo: char) returns (v: Byte)
    requires IsHexDigit(hi) && IsHexDigit(lo)
    ensures ParseOctet(hi, lo) == Some(v)
    ensures LowerHexDigit(v / 16) == LowerCase(hi) && LowerHexDigit(v % 16) == LowerCase(lo)
  {
    v := 16 * DigitValue(hi) + DigitValue(lo);
    assert v / 16 == DigitValue(hi) && v % 16 == DigitValue(lo);
  }

  /** Codes written with upper-case digits, the usual spelling, read the same
      as their lower-case spelling: parsing then formatting lower-cases the six
      digits. */
  lemma AnyCaseRoundTrip(s: string)
    requires |TrimHashes(s)| >= 6
    requires forall i :: 0 <= i < 6 ==> IsHexDigit(TrimHashes(s)[i])
    ensures HexToRgb(s).Some?
    ensures FormatHex(HexToRgb(s).value) == LowerCaseAll(TrimHashes(s)[..6])
  {
    var t := TrimHashes(s);
    var r := OctetRoundTrip(t[0], t[1]);
    var g := OctetRoundTrip(t[2], t[3]);
    var b := OctetRoundTrip(t[4], t[5]);
    assert HexToRgb(s) == Some(Rgb8(r, g, b));
    var low := LowerCaseAll(t[..6]);
    assert FormatHex(Rgb8(r, g, b)) == [low[0], low[1], low[2], low[3], low[4], low[5]];
  }

  /** Pure red in the upper-case spelling. */
  lemma UpperCaseRed()
    ensures HexToRgb("#FF0000") == Some(Rgb8(255, 0, 0))
  {
    var s: string := "#FF0000";
    assert s[1..] == "FF0000";
    assert TrimHashes(s[1..]) == s[1..];
    assert TrimHashes(s) == "FF0000";
  }

  /** Rust's `from_str_radix` lets a `+` stand in the high digit's place. */
  lemma PlusSignAccepted()
    ensures HexToRgb("#+a+b+c") == Some(Rgb8(10, 11, 12))
  {
    var s: string := "#+a+b+c";
    assert s[1..] == "+a+b+c";
    assert TrimHashes(s[1..]) == s[1..];
    assert TrimHashes(s) == "+a+b+c";
  }
}
