/**
 * The `#RRGGBB` decode the chart helpers use to build an `rgba(...)` fill:
 * the three two-character slices after the `#` are each read as a base-16
 * integer, and a slice that does not convert makes the whole decode fail,
 * as the helper's `except` does.
 */
module Colors {
  import opened Seqs
  import opened Text

  const IM_MINT: string := "#00B496"
  const IM_UP: string := "#0B8C5E"
  const IM_DOWN: string := "#E05C5C"

  predicate IsHexDigit(c: char) {
    ('0' <= c <= '9') || ('a' <= c <= 'f') || ('A' <= c <= 'F')
  }

  function HexDigitValue(c: char): (v: nat)
    requires IsHexDigit(c)
    ensures v < 16
  {
    if '0' <= c <= '9' then (c as int - '0' as int)
    else if 'a' <= c <= 'f' then (c as int - 'a' as int + 10)
    else (c as int - 'A' as int + 10)
  }

  predicate AllHex(s: string) {
    forall k :: 0 <= k < |s| ==> IsHexDigit(s[k])
  }

  /** The number the hexadecimal digits spell, most significant first. */
  function HexValue(s: string): nat
    requires AllHex(s)
    decreases |s|
  {
    if |s| == 0 then 0
    else HexValue(s[..|s| - 1]) * 16 + HexDigitValue(s[|s| - 1])
  }

  predicate HasHexDigit(s: string) {
    exists k :: 0 <= k < |s| && IsHexDigit(s[k])
  }

  /** `int(s, 16)`: surrounding blanks are ignored, one sign is allowed, and
      at least one hexadecimal digit must follow; anything else raises. */
  function ParseHex(s: string): Option<int> {
    ParseSigned(Strip(s))
  }

  /** Blank text does not convert. */
  lemma BlankDoesNotParse(s: string)
    requires AllSpace(s)
    ensures ParseHex(s).None?
  {
    StripEmpty(s);
  }

  /** Hexadecimal digits between blanks convert to the number they spell. */
  lemma DigitsParse(s: string)
    requires Strip(s) != [] && AllHex(Strip(s))
    ensures ParseHex(s) == Some(HexValue(Strip(s)))
  {
  }

  /** A text converts only if it holds a hexadecimal digit. */
  lemma ParsedHasDigit(s: string)
    requires ParseHex(s).Some?
    ensures HasHexDigit(s)
  {
    DigitOfStripped(s);
  }

  /** The conversion once the blanks are gone: an optional sign, then digits. */
  function ParseSigned(t: string): (r: Option<int>)
    ensures t == [] ==> r.None?
    ensures t != [] && AllHex(t) ==> r == Some(HexValue(t))
    ensures r.Some? ==> HasHexDigit(t)
  {
    if |t| > 0 && (t[0] == '+' || t[0] == '-') then
      var digits := t[1..];
      if |digits| > 0 && AllHex(digits) then
        assert IsHexDigit(t[1]) by {
          assert digits[0] == t[1];
        }
        var v: int := HexValue(digits);
        Some(if t[0] == '-' then -v else v)
      else None
    else if |t| > 0 && AllHex(t) then
      assert IsHexDigit(t[0]);
      Some(HexValue(t))
    else None
  }

  /** A digit of the trimmed text is a digit of the text. */
  lemma DigitOfStripped(s: string)
    ensures HasHexDigit(Strip(s)) ==> HasHexDigit(s)
  {
    if HasHexDigit(Strip(s)) {
      var t := Strip(s);
      var k :| 0 <= k < |t| && IsHexDigit(t[k]);
      var j := StrippedCharAt(s, k);
      assert IsHexDigit(s[j]);
    }
  }

  /** Python's `s[i:j]` for `0 <= i <= j`: both bounds are clipped to the length. */
  function Slice(s: string, i: nat, j: nat): (r: string)
    requires i <= j
    ensures |r| <= j - i
    ensures j <= |s| ==> r == s[i..j]
  {
    var lo := if i <= |s| then i else |s|;
    var hi := if j <= |s| then j else |s|;
    s[lo..hi]
  }

  /** The three conversions of one colour, in order; the first to raise
      makes the whole decode fail. */
  function DecodeTriple(p: string, q: string, u: string): (r: Option<(int, int, int)>)
    ensures r.Some? <==> ParseHex(p).Some? && ParseHex(q).Some? && ParseHex(u).Some?
    ensures r.Some? ==> r.value == (ParseHex(p).value, ParseHex(q).value, ParseHex(u).value)
  {
    match (ParseHex(p), ParseHex(q), ParseHex(u))
    case (Some(red), Some(green), Some(blue)) => Some((red, green, blue))
    case _ => None
  }

  /** The three components: the characters at 1-2, 3-4 and 5-6 of the colour,
      each read as a base-16 integer, with `None` when any of them fails to
      convert (the error the helpers catch). */
  function DecodeRgb(color: string): Option<(int, int, int)> {
    DecodeTriple(Slice(color, 1, 3), Slice(color, 3, 5), Slice(color, 5, 7))
  }

  /** `#` and six hexadecimal digits. */
  predicate IsHexColor(color: string) {
    |color| == 7 && color[0] == '#' && AllHex(color[1..])
  }

  /** Two hexadecimal digits. */
  predicate IsHexPair(p: string) {
    |p| == 2 && IsHexDigit(p[0]) && IsHexDigit(p[1])
  }

  /** The byte two hexadecimal digits spell. */
  function Byte(hi: char, lo: char): (v: nat)
    requires IsHexDigit(hi) && IsHexDigit(lo)
    ensures v < 256
  {
    HexDigitValue(hi) * 16 + HexDigitValue(lo)
  }

  /** Two digits convert to the byte they spell. */
  lemma TwoDigits(p: string)
    requires IsHexPair(p)
    ensures ParseHex(p) == Some(Byte(p[0], p[1]))
  {
    assert AllHex(p);
    StripTrimmed(p);
    TwoDigitsValue(p);
  }

  lemma TwoDigitsValue(p: string)
    requires IsHexPair(p)
    ensures AllHex(p) && HexValue(p) == Byte(p[0], p[1])
  {
    var first := p[..1];
    assert first[..0] == [];
    assert first[0] == p[0];
    assert HexValue(first) == HexDigitValue(p[0]);
    assert p[..|p| - 1] == first;
  }

  lemma TripleBytes(p: string, q: string, u: string)
    requires IsHexPair(p) && IsHexPair(q) && IsHexPair(u)
    ensures DecodeTriple(p, q, u) == Some((Byte(p[0], p[1]), Byte(q[0], q[1]), Byte(u[0], u[1])))
  {
    TwoDigits(p);
    TwoDigits(q);
    TwoDigits(u);
  }

  /** The slice `color[i:i+2]` of a well-formed colour is a pair of digits. */
  lemma PairOf(color: string, i: nat)
    requires IsHexColor(color) && 1 <= i <= 5
    ensures IsHexPair(Slice(color, i, i + 2))
    ensures Slice(color, i, i + 2)[0] == color[i] && Slice(color, i, i + 2)[1] == color[i + 1]
  {
    assert color[1..][i - 1] == color[i] && color[1..][i] == color[i + 1];
  }

  /** A well-formed colour decodes to three bytes, pair by pair. */
  lemma DecodeHexColor(color: string)
    requires IsHexColor(color)
    ensures DecodeRgb(color) == Some((Byte(color[1], color[2]), Byte(color[3], color[4]), Byte(color[5], color[6])))
    ensures var (r, g, b) := DecodeRgb(color).value; 0 <= r < 256 && 0 <= g < 256 && 0 <= b < 256
  {
    PairOf(color, 1);
    PairOf(color, 3);
    PairOf(color, 5);
    TripleBytes(Slice(color, 1, 3), Slice(color, 3, 5), Slice(color, 5, 7));
  }

  /** The upper-case digit for `0..15`. */
  function HexDigit(v: nat): (c: char)
    requires v < 16
    ensures IsHexDigit(c) && HexDigitValue(c) == v
  {
    if v < 10 then ('0' as int + v) as char else ('A' as int + v - 10) as char
  }

  /** `#RRGGBB` for three bytes. */
  function FormatHex(r: nat, g: nat, b: nat): (s: string)
    requires r < 256 && g < 256 && b < 256
    ensures IsHexColor(s)
  {
    ['#', HexDigit(r / 16), HexDigit(r % 16), HexDigit(g / 16), HexDigit(g % 16), HexDigit(b / 16), HexDigit(b % 16)]
  }

  lemma ByteOfDigits(v: nat)
    requires v < 256
    ensures Byte(HexDigit(v / 16), HexDigit(v % 16)) == v
  {
  }

  /** Writing three bytes as a colour and decoding it gives them back. */
  lemma DecodeFormatHex(r: nat, g: nat, b: nat)
    requires r < 256 && g < 256 && b < 256
    ensures DecodeRgb(FormatHex(r, g, b)) == Some((r, g, b))
  {
    var color := FormatHex(r, g, b);
    DecodeHexColor(color);
    ByteOfDigits(r);
    ByteOfDigits(g);
    ByteOfDigits(b);
  }

  lemma MintIsWritten()
    ensures FormatHex(0, 180, 150) == IM_MINT
  {
    assert HexDigit(0) == '0' && HexDigit(11) == 'B' && HexDigit(4) == '4';
    assert HexDigit(9) == '9' && HexDigit(6) == '6';
  }

  /** The brand mint is `rgb(0, 180, 150)`, the colour the grid lines use. */
  lemma MintExample()
    ensures DecodeRgb(IM_MINT) == Some((0, 180, 150))
  {
    MintIsWritten();
    DecodeFormatHex(0, 180, 150);
  }

  lemma UpIsWritten()
    ensures FormatHex(11, 140, 94) == IM_UP
  {
    assert HexDigit(0) == '0' && HexDigit(11) == 'B' && HexDigit(8) == '8';
    assert HexDigit(12) == 'C' && HexDigit(5) == '5' && HexDigit(14) == 'E';
  }

  /** The rising colour is `rgb(11, 140, 94)`. */
  lemma UpExample()
    ensures DecodeRgb(IM_UP) == Some((11, 140, 94))
  {
    UpIsWritten();
    DecodeFormatHex(11, 140, 94);
  }

  lemma DownIsWritten()
    ensures FormatHex(224, 92, 92) == IM_DOWN
  {
    assert HexDigit(14) == 'E' && HexDigit(0) == '0' && HexDigit(5) == '5' && HexDigit(12) == 'C';
  }

  /** The falling colour is `rgb(224, 92, 92)`. */
  lemma DownExample()
    ensures DecodeRgb(IM_DOWN) == Some((224, 92, 92))
  {
    DownIsWritten();
    DecodeFormatHex(224, 92, 92);
  }

  /** A minus sign and one digit convert to that digit, negated: `int`
      itself does not keep a component within 0..255. */
  lemma SignedDigit(t: string)
    requires |t| == 2 && t[0] == '-' && IsHexDigit(t[1])
    ensures ParseHex(t) == Some(-(HexDigitValue(t[1]) as int))
  {
    StripTrimmed(t);
    SignedDigitValue(t);
  }

  lemma SignedDigitValue(t: string)
    requires |t| == 2 && t[0] == '-' && IsHexDigit(t[1])
    ensures ParseSigned(t) == Some(-(HexDigitValue(t[1]) as int))
  {
    var digits := t[1..];
    assert digits[..0] == [];
    assert digits[0] == t[1];
    assert AllHex(digits);
    assert digits[..|digits| - 1] == [];
    assert HexValue(digits) == HexDigitValue(t[1]);
  }

  /** The pair `-1` converts to -1. */
  lemma SignedPairExample()
    ensures ParseHex("-1") == Some(-1)
  {
    SignedDigit("-1");
  }

  /** A colour too short for its last pair fails to decode. */
  lemma ShortColorFails(color: string)
    requires |color| <= 5
    ensures DecodeRgb(color) == None
  {
    assert Slice(color, 5, 7) == [];
    StripEmpty([]);
  }
}
