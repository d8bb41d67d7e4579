/**
 * The two string helpers of the image utilities: the download name of a
 * watermarked picture, and the CSS `rgba(...)` fill style built from a
 * hex colour and an opacity.
 */
module ImageUtils {
  import opened Wrappers
  import opened Text

  const FilePrefix: string := "watermarked_"

  // ----- generateFileName -----

  /**
   * The extension is the text after the last `.` (the whole name when
   * there is none); the base name is the input with the FIRST occurrence
   * of `.` + extension removed.
   */
  function GenerateFileName(fileName: string): (r: string)
    ensures IsPrefix(FilePrefix, r)
    ensures IsSuffix("." + LastSegment(fileName, '.'), r)
  {
    var extension := LastSegment(fileName, '.');
    var baseName := ReplaceFirst(fileName, "." + extension, "");
    FilePrefix + baseName + "." + extension
  }

  /** `photo.jpg` becomes `watermarked_photo.jpg`. */
  lemma {:induction false} GenerateFileNameSimple(b: string, e: string)
    requires '.' !in b && '.' !in e
    ensures GenerateFileName(b + "." + e) == FilePrefix + b + "." + e
  {
    LastSegmentAfterLastDot(b, e);
    FirstOccurrenceAfterBase(b, e, e);
    var s := b + "." + e;
    assert s[..|b|] == b;
    assert s[|b| + |"." + e|..] == "";
  }

  /** A name without a `.` is its own extension and keeps its base: `photo` becomes `watermarked_photo.photo`. */
  lemma {:induction false} GenerateFileNameNoDot(n: string)
    requires '.' !in n
    ensures GenerateFileName(n) == FilePrefix + n + "." + n
  {
    assert LastIndexOf(n, '.').None?;
    var r := IndexOf(n, "." + n);
    assert !OccursAt("." + n, n, 0);
  }

  /** The name is assembled from the extension and the base name. */
  lemma GenerateFileNameOf(fileName: string, extension: string, baseName: string)
    requires LastSegment(fileName, '.') == extension
    requires ReplaceFirst(fileName, "." + extension, "") == baseName
    ensures GenerateFileName(fileName) == FilePrefix + baseName + "." + extension
  {
  }

  /** How `b.e` + `m.e` splits around its first `.`. */
  lemma SplitRepeatedExtension(b: string, e: string, m: string)
    ensures b + "." + e + m + "." + e == b + "." + (e + m + "." + e)
    ensures (b + "." + e + m + "." + e)[..|b|] == b
    ensures (b + "." + e + m + "." + e)[..|b|] + (b + "." + e + m + "." + e)[|b| + |"." + e|..] == b + m + "." + e
  {
  }

  /**
   * When `.` + extension also occurs earlier in the name, that earlier
   * occurrence is what is removed: `img.jpg_copy.jpg` becomes
   * `watermarked_img_copy.jpg.jpg`.
   */
  lemma {:induction false} GenerateFileNameStripsFirstOccurrence(b: string, e: string, m: string)
    requires '.' !in b && '.' !in e
    ensures GenerateFileName(b + "." + e + m + "." + e) == FilePrefix + (b + m + "." + e) + "." + e
  {
    SplitRepeatedExtension(b, e, m);
    LastSegmentAfterLastDot(b + "." + e + m, e);
    FirstOccurrenceAfterBase(b, e, e + m + "." + e);
    GenerateFileNameOf(b + "." + e + m + "." + e, e, b + m + "." + e);
  }

  // ----- makeRGBAStyle -----

  datatype Rgb = Rgb(red: nat, green: nat, blue: nat)

  const Black := Rgb(0, 0, 0)

  /** `[a-f\d]` under the `i` flag. */
  predicate IsHexDigit(c: char) {
    '0' <= c <= '9' || 'a' <= c <= 'f' || 'A' <= c <= 'F'
  }

  predicate AllHex(s: string) {
    forall k :: 0 <= k < |s| ==> IsHexDigit(s[k])
  }

  function HexValue(c: char): (v: nat)
    requires IsHexDigit(c)
    ensures v < 16
  {
    if '0' <= c <= '9' then c as int - '0' as int
    else if 'a' <= c <= 'f' then c as int - 'a' as int + 10
    else c as int - 'A' as int + 10
  }

  /** `parseInt(hi + lo, 16)` for two hex digits. */
  function PairValue(hi: char, lo: char): (v: nat)
    requires IsHexDigit(hi) && IsHexDigit(lo)
    ensures v < 256
  {
    16 * HexValue(hi) + HexValue(lo)
  }

  /**
   * The strings matched by `^#?([a-f\d]{2})([a-f\d]{2})([a-f\d]{2})$` with
   * the `i` flag: six hex digits, optionally after one `#`.
   */
  predicate MatchesColorPattern(color: string) {
    || (|color| == 6 && AllHex(color))
    || (|color| == 7 && color[0] == '#' && AllHex(color[1..]))
  }

  /** The colour with its optional leading `#` dropped. */
  function HexDigits(color: string): string {
    if |color| > 0 && color[0] == '#' then color[1..] else color
  }

  /** The three channels captured by the colour pattern, or `None` when it does not match. */
  function ParseHexColor(color: string): (r: Option<Rgb>)
    ensures r.Some? <==> MatchesColorPattern(color)
    ensures r.Some? ==> r.value.red < 256 && r.value.green < 256 && r.value.blue < 256
  {
    var d := HexDigits(color);
    if |d| == 6 && AllHex(d) then
      Some(Rgb(PairValue(d[0], d[1]), PairValue(d[2], d[3]), PairValue(d[4], d[5])))
    else None
  }

  /** The fill style `rgba(r, g, b, alpha)`; `alpha` is the number already printed as text. */
  function MakeRGBAStyle(color: string, alpha: string): (r: string)
    ensures !MatchesColorPattern(color) ==> r == "rgba(0, 0, 0, " + alpha + ")"
    ensures MatchesColorPattern(color) ==>
      var c := ParseHexColor(color).value;
      r == "rgba(" + NatToDecimal(c.red) + ", " + NatToDecimal(c.green) + ", "
        + NatToDecimal(c.blue) + ", " + alpha + ")"
  {
    match ParseHexColor(color)
    case None => "rgba(0, 0, 0, " + alpha + ")"
    case Some(c) =>
      "rgba(" + NatToDecimal(c.red) + ", " + NatToDecimal(c.green) + ", "
        + NatToDecimal(c.blue) + ", " + alpha + ")"
  }

  /** Whatever the colour, the style has the shape `rgba(..., alpha)`. */
  lemma StyleShape(color: string, alpha: string)
    ensures IsPrefix("rgba(", MakeRGBAStyle(color, alpha))
    ensures IsSuffix(", " + alpha + ")", MakeRGBAStyle(color, alpha))
  {
    match ParseHexColor(color)
    case None =>
      assert IsPrefix("rgba(", "rgba(0, 0, 0, ");
      PrefixExtends("rgba(", "rgba(0, 0, 0, ", alpha);
      PrefixExtends("rgba(", "rgba(0, 0, 0, " + alpha, ")");
      assert "rgba(0, 0, 0" + ", " == "rgba(0, 0, 0, ";
      SuffixOfThree("rgba(0, 0, 0", ", ", alpha, ")");
    case Some(c) =>
      var w := "rgba(" + NatToDecimal(c.red) + ", " + NatToDecimal(c.green) + ", " + NatToDecimal(c.blue);
      ConcatEnds("rgba(", NatToDecimal(c.red));
      PrefixExtends("rgba(", "rgba(" + NatToDecimal(c.red), ", ");
      PrefixExtends("rgba(", "rgba(" + NatToDecimal(c.red) + ", ", NatToDecimal(c.green));
      PrefixExtends("rgba(", "rgba(" + NatToDecimal(c.red) + ", " + NatToDecimal(c.green), ", ");
      PrefixExtends("rgba(", "rgba(" + NatToDecimal(c.red) + ", " + NatToDecimal(c.green) + ", ", NatToDecimal(c.blue));
      PrefixExtends("rgba(", w, ", ");
      PrefixExtends("rgba(", w + ", ", alpha);
      PrefixExtends("rgba(", w + ", " + alpha, ")");
      SuffixOfThree(w, ", ", alpha, ")");
  }

  /** An unparsable colour gives exactly the style of `#000000`: the fallback is opaque black. */
  lemma InvalidColorIsBlack(color: string, alpha: string)
    requires !MatchesColorPattern(color)
    ensures MakeRGBAStyle(color, alpha) == MakeRGBAStyle("#000000", alpha)
  {
    var d := HexDigits("#000000");
    assert d == "000000";
    assert AllHex(d);
    assert ParseHexColor("#000000") == Some(Black);
    assert NatToDecimal(0) == "0";
  }

  /** Every accepted colour has length 6 or 7, and the 7-character form starts with `#`. */
  lemma AcceptedLength(color: string)
    requires ParseHexColor(color).Some?
    ensures |color| == 6 || (|color| == 7 && color[0] == '#')
  {
  }

  /** The leading `#` is optional: `#rrggbb` and `rrggbb` give the same channels and the same style. */
  lemma HashIsOptional(digits: string, alpha: string)
    requires |digits| == 0 || digits[0] != '#'
    ensures ParseHexColor("#" + digits) == ParseHexColor(digits)
    ensures MakeRGBAStyle("#" + digits, alpha) == MakeRGBAStyle(digits, alpha)
  {
    assert HexDigits("#" + digits) == digits;
    assert HexDigits(digits) == digits;
  }

  lemma HexDigitCase(c: char)
    ensures IsHexDigit(UpperChar(c)) <==> IsHexDigit(c)
    ensures IsHexDigit(LowerChar(c)) <==> IsHexDigit(c)
    ensures IsHexDigit(c) ==> HexValue(UpperChar(c)) == HexValue(c) && HexValue(LowerChar(c)) == HexValue(c)
  {
  }

  /** Dropping the `#` commutes with changing case. */
  lemma HexDigitsCase(color: string)
    ensures HexDigits(Upper(color)) == Upper(HexDigits(color))
    ensures HexDigits(Lower(color)) == Lower(HexDigits(color))
  {
  }

  /** Changing case keeps a hex digit a hex digit and keeps its value. */
  lemma PairsCase(d: string)
    requires |d| == 6
    ensures AllHex(Upper(d)) <==> AllHex(d)
    ensures AllHex(Lower(d)) <==> AllHex(d)
    ensures AllHex(d) ==> forall k :: 0 <= k < 6 ==>
      HexValue(Upper(d)[k]) == HexValue(d[k]) && HexValue(Lower(d)[k]) == HexValue(d[k])
  {
    forall k | 0 <= k < 6 ensures IsHexDigit(Upper(d)[k]) <==> IsHexDigit(d[k])
      ensures IsHexDigit(Lower(d)[k]) <==> IsHexDigit(d[k])
    {
      HexDigitCase(d[k]);
    }
  }

  /** Parsing ignores the case of the hex digits (the pattern's `i` flag). */
  lemma {:induction false} ParseIgnoresCase(color: string)
    ensures ParseHexColor(Upper(color)) == ParseHexColor(color)
    ensures ParseHexColor(Lower(color)) == ParseHexColor(color)
  {
    HexDigitsCase(color);
    var d := HexDigits(color);
    if |d| == 6 {
      PairsCase(d);
    }
  }

  /** Upper and lower case spellings of the same colour give the same style. */
  lemma StyleIgnoresCase(color: string, alpha: string)
    ensures MakeRGBAStyle(Upper(color), alpha) == MakeRGBAStyle(color, alpha)
    ensures MakeRGBAStyle(Lower(color), alpha) == MakeRGBAStyle(color, alpha)
  {
    ParseIgnoresCase(color);
  }

  // ----- the inverse: writing a colour as `#rrggbb` -----

  function HexDigitChar(v: nat): (c: char)
    requires v < 16
    ensures IsHexDigit(c) && HexValue(c) == v
  {
    if v < 10 then ('0' as int + v) as char else ('a' as int + v - 10) as char
  }

  function PairText(v: nat): (s: string)
    requires v < 256
    ensures |s| == 2 && IsHexDigit(s[0]) && IsHexDigit(s[1]) && PairValue(s[0], s[1]) == v
  {
    [HexDigitChar(v / 16), HexDigitChar(v % 16)]
  }

  /** A colour written the way the colour picker writes it, `#rrggbb` in lower case. */
  function HexColor(c: Rgb): (s: string)
    requires c.red < 256 && c.green < 256 && c.blue < 256
    ensures |s| == 7 && s[0] == '#' && MatchesColorPattern(s)
  {
    "#" + PairText(c.red) + PairText(c.green) + PairText(c.blue)
  }

  /** Parsing recovers any colour written as `#rrggbb`: each channel is `16 * hi + lo` of its pair. */
  lemma {:induction false} ParseHexColorRoundTrip(c: Rgb)
    requires c.red < 256 && c.green < 256 && c.blue < 256
    ensures ParseHexColor(HexColor(c)) == Some(c)
  {
    var s := HexColor(c);
    var d := HexDigits(s);
    assert d == PairText(c.red) + PairText(c.green) + PairText(c.blue);
    assert AllHex(d);
  }

  /** The style of a colour written as `#rrggbb` prints each of its channels in decimal. */
  lemma StyleOfHexColor(c: Rgb, alpha: string)
    requires c.red < 256 && c.green < 256 && c.blue < 256
    ensures MakeRGBAStyle(HexColor(c), alpha) ==
      "rgba(" + NatToDecimal(c.red) + ", " + NatToDecimal(c.green) + ", "
        + NatToDecimal(c.blue) + ", " + alpha + ")"
  {
    ParseHexColorRoundTrip(c);
  }

  lemma HexDigitCharOfValue(c: char)
    requires IsHexDigit(c)
    ensures HexDigitChar(HexValue(c)) == LowerChar(c)
  {
  }

  lemma PairTextOfValue(hi: char, lo: char)
    requires IsHexDigit(hi) && IsHexDigit(lo)
    ensures PairText(PairValue(hi, lo)) == [LowerChar(hi), LowerChar(lo)]
  {
    var v := PairValue(hi, lo);
    assert v / 16 == HexValue(hi) && v % 16 == HexValue(lo);
    HexDigitCharOfValue(hi);
    HexDigitCharOfValue(lo);
  }

  /** Conversely, an accepted colour is, up to case and the `#`, the text of the channels it parses to. */
  lemma {:induction false} ParseHexColorCanonical(color: string)
    requires ParseHexColor(color).Some?
    ensures HexColor(ParseHexColor(color).value) == "#" + Lower(HexDigits(color))
  {
    var d := HexDigits(color);
    PairTextOfValue(d[0], d[1]);
    PairTextOfValue(d[2], d[3]);
    PairTextOfValue(d[4], d[5]);
    var l := Lower(d);
    assert l == [LowerChar(d[0]), LowerChar(d[1])] + [LowerChar(d[2]), LowerChar(d[3])] + [LowerChar(d[4]), LowerChar(d[5])];
  }
}
