/** Text produced by the catalogue, catalog/dsk.cpp lines 207-236 and the
    `to_string` / `"&%04X"` conversions of lines 279-280 and 290.

    Each conversion is given with its inverse (a parser), and the round trip
    is proved, so the text is known to carry the number it was made from. */
module Text {

  // ---------------------------------------------------------------
  // Decimal numbers (`"%d"`, `to_string`)
  // ---------------------------------------------------------------

  predicate IsDigit(c: char) {
    '0' <= c <= '9'
  }

  function DigitValue(c: char): (d: nat)
    requires IsDigit(c)
    ensures d < 10
  {
    c as int - '0' as int
  }

  function DigitChar(d: nat): (c: char)
    requires d < 10
    ensures IsDigit(c) && DigitValue(c) == d
  {
    ('0' as int + d) as char
  }

  /** Decimal digits of `n`, most significant first, without leading zeros. */
  function Decimal(n: nat): (s: string)
    ensures 1 <= |s|
    ensures forall i :: 0 <= i < |s| ==> IsDigit(s[i])
    ensures |s| > 1 ==> s[0] != '0'
  {
    if n < 10 then [DigitChar(n)] else Decimal(n / 10) + [DigitChar(n % 10)]
  }

  /** The value of a string of decimal digits. */
  function ParseDecimal(s: string): nat
    requires forall i :: 0 <= i < |s| ==> IsDigit(s[i])
  {
    if |s| == 0 then 0
    else 10 * ParseDecimal(s[..|s| - 1]) + DigitValue(s[|s| - 1])
  }

  lemma {:induction false} DecimalRoundTrip(n: nat)
    ensures ParseDecimal(Decimal(n)) == n
  {
    if n >= 10 {
      var s := Decimal(n);
      assert s[..|s| - 1] == Decimal(n / 10);
      DecimalRoundTrip(n / 10);
    }
  }

  function Pow10(k: nat): nat {
    if k == 0 then 1 else 10 * Pow10(k - 1)
  }

  /** A number below 10^k takes at most k digits. */
  lemma {:induction false} DecimalLength(n: nat, k: nat)
    requires 1 <= k && n < Pow10(k)
    ensures |Decimal(n)| <= k
  {
    if n >= 10 {
      assert Pow10(k - 1) > 1 && Pow10(0) == 1;
      DecimalLength(n / 10, k - 1);
    }
  }

  /** `to_string(v)` and `"%d"`: a minus sign before the digits of |v|. */
  function IntToString(v: int): (s: string)
    ensures 1 <= |s|
    ensures v < 0 <==> s[0] == '-'
  {
    if v < 0 then "-" + Decimal(-v) else Decimal(v)
  }

  function ParseInt(s: string): int
    requires 1 <= |s|
    requires forall i :: 1 <= i < |s| ==> IsDigit(s[i])
    requires s[0] == '-' || IsDigit(s[0])
  {
    var m: int := ParseDecimal(s[if s[0] == '-' then 1 else 0..]);
    if s[0] == '-' then -m else m
  }

  lemma IntToStringRoundTrip(v: int)
    ensures var s := IntToString(v);
      (forall i :: 1 <= i < |s| ==> IsDigit(s[i])) && (s[0] == '-' || IsDigit(s[0])) &&
      ParseInt(s) == v
  {
    DecimalRoundTrip(if v < 0 then -v else v);
    if v < 0 {
      assert IntToString(v)[1..] == Decimal(-v);
    }
  }

  // ---------------------------------------------------------------
  // Upper-case hexadecimal (`"%04X"` of a 16-bit word)
  // ---------------------------------------------------------------

  const HexDigits := "0123456789ABCDEF"

  predicate IsHexDigit(c: char) {
    '0' <= c <= '9' || 'A' <= c <= 'F'
  }

  function HexDigit(d: nat): (c: char)
    requires d < 16
    ensures IsHexDigit(c)
  {
    HexDigits[d]
  }

  function HexValue(c: char): (d: nat)
    requires IsHexDigit(c)
    ensures d < 16
  {
    if c <= '9' then c as int - '0' as int else c as int - 'A' as int + 10
  }

  lemma HexDigitValue(d: nat)
    requires d < 16
    ensures HexValue(HexDigit(d)) == d
  {
  }

  /** `"%04X"` of a value below 0x10000: exactly four upper-case digits,
      zero-padded. */
  function Hex4(w: nat): (s: string)
    requires w < 0x10000
    ensures |s| == 4
    ensures forall i :: 0 <= i < 4 ==> IsHexDigit(s[i])
  {
    [HexDigit(w / 0x1000), HexDigit(w / 0x100 % 16), HexDigit(w / 0x10 % 16), HexDigit(w % 16)]
  }

  /** The value of a string of hexadecimal digits. */
  function ParseHex(s: string): nat
    requires forall i :: 0 <= i < |s| ==> IsHexDigit(s[i])
  {
    if |s| == 0 then 0 else 16 * ParseHex(s[..|s| - 1]) + HexValue(s[|s| - 1])
  }

  /** Dividing by 16 twice is dividing by 256. */
  lemma DivSixteenTwice(x: nat)
    ensures x / 16 / 16 == x / 256
  {
    var q := x / 256;
    var r := x % 256;
    assert x == 256 * q + r;
    assert x / 16 == 16 * q + r / 16;
  }

  /** Four hex digits read as a positional number, most significant first. */
  lemma ParseHexFour(s: string)
    requires |s| == 4 && forall i :: 0 <= i < 4 ==> IsHexDigit(s[i])
    ensures ParseHex(s) ==
      0x1000 * HexValue(s[0]) + 0x100 * HexValue(s[1]) + 0x10 * HexValue(s[2]) + HexValue(s[3])
  {
    assert s[..1][..0] == [];
    assert ParseHex(s[..1]) == HexValue(s[0]);
    assert s[..2][..1] == s[..1];
    assert ParseHex(s[..2]) == 16 * HexValue(s[0]) + HexValue(s[1]);
    assert s[..3][..2] == s[..2];
    assert s[..4][..3] == s[..3] && s[..4] == s;
  }

  /** The four digits of a 16-bit value, recombined, give the value. */
  lemma HexDigitsRecombine(w: nat)
    requires w < 0x10000
    ensures 0x1000 * (w / 0x1000) + 0x100 * (w / 0x100 % 16) + 0x10 * (w / 0x10 % 16) + w % 16 == w
  {
    var q1 := w / 16;
    var q2 := q1 / 16;
    var q3 := q2 / 16;
    DivSixteenTwice(w);
    DivSixteenTwice(q1);
    assert w / 0x1000 == q3 by {
      assert w == 0x1000 * q3 + 0x100 * (q2 % 16) + 0x10 * (q1 % 16) + w % 16;
    }
  }

  lemma Hex4RoundTrip(w: nat)
    requires w < 0x10000
    ensures ParseHex(Hex4(w)) == w
  {
    HexDigitValue(w / 0x1000);
    HexDigitValue(w / 0x100 % 16);
    HexDigitValue(w / 0x10 % 16);
    HexDigitValue(w % 16);
    ParseHexFour(Hex4(w));
    HexDigitsRecombine(w);
  }

  /** `"&%04X"`: an address as the catalogue shows it. */
  function AddressText(w: nat): (s: string)
    requires w < 0x10000
    ensures |s| == 5 && s[0] == '&'
    ensures forall i :: 1 <= i < 5 ==> IsHexDigit(s[i])
  {
    "&" + Hex4(w)
  }

  lemma AddressTextRoundTrip(w: nat)
    requires w < 0x10000
    ensures ParseHex(AddressText(w)[1..]) == w
  {
    assert AddressText(w)[1..] == Hex4(w);
    Hex4RoundTrip(w);
  }

  // ---------------------------------------------------------------
  // GetTaille
  // ---------------------------------------------------------------

  /** `GetTaille`: `"%d K"`; the 16-byte buffer holds any `int`, so the
      text is never cut. */
  function SizeText(t: int): (s: string)
    ensures 3 <= |s| && s[|s| - 2..] == " K"
  {
    IntToString(t) + " K"
  }

  /** The size text carries the number: dropping the unit and parsing gives it back. */
  lemma SizeTextRoundTrip(t: int)
    ensures var s := SizeText(t); var n := s[..|s| - 2];
      1 <= |n| && (forall i :: 1 <= i < |n| ==> IsDigit(n[i])) && (n[0] == '-' || IsDigit(n[0])) &&
      ParseInt(n) == t
  {
    var s := SizeText(t);
    assert s[..|s| - 2] == IntToString(t);
    IntToStringRoundTrip(t);
  }

  // ---------------------------------------------------------------
  // formatCell and printf field widths
  // ---------------------------------------------------------------

  function Spaces(n: nat): (s: string)
    ensures |s| == n && forall i :: 0 <= i < n ==> s[i] == ' '
  {
    seq(n, _ => ' ')
  }

  /** The content as `formatCell` keeps it: its first `width` characters. */
  function Clip(content: string, width: nat): (c: string)
    ensures |c| <= width && |c| <= |content| && c == content[..|c|]
    ensures |content| <= width ==> c == content
  {
    if |content| > width then content[..width] else content
  }

  /** Spaces `formatCell` puts before content of length `len`. */
  function LeftPad(len: nat, width: nat, align: char): (l: nat)
    requires len <= width
    ensures l + len <= width
  {
    if align == 'c' then (width - len) / 2
    else if align == 'r' then width - len
    else 0
  }

  /** `formatCell`: exactly `width` characters, the clipped content at its
      alignment offset and spaces everywhere else. */
  function FormatCell(content: string, width: nat, align: char): (r: string)
    ensures |r| == width
    ensures var c := Clip(content, width); var l := LeftPad(|c|, width, align);
      r[l..l + |c|] == c &&
      forall i :: 0 <= i < width && !(l <= i < l + |c|) ==> r[i] == ' '
  {
    var c := Clip(content, width);
    var padding := width - |c|;
    if align == 'c' then Spaces(padding / 2) + c + Spaces(padding - padding / 2)
    else if align == 'r' then Spaces(padding) + c
    else c + Spaces(padding)
  }

  /** Centring puts at most one more space on the right than on the left. */
  lemma CentredBalance(content: string, width: nat)
    requires |content| <= width
    ensures var l := LeftPad(|content|, width, 'c'); var rt := width - |content| - l;
      l <= rt <= l + 1
  {
  }

  /** Any alignment other than 'c' and 'r' behaves as left alignment. */
  lemma OtherAlignIsLeft(content: string, width: nat, align: char)
    requires align != 'c' && align != 'r'
    ensures FormatCell(content, width, align) == FormatCell(content, width, 'l')
  {
  }

  /** Content at least as wide as the cell is cut to the cell, whatever the alignment. */
  lemma FormatCellTruncates(content: string, width: nat, align: char)
    requires |content| >= width
    ensures FormatCell(content, width, align) == content[..width]
  {
    var r := FormatCell(content, width, align);
    assert r[0..width] == r;
  }

  /** printf `%-Ns`: the text followed by spaces up to N characters, never cut. */
  function PadRight(s: string, n: nat): (r: string)
    ensures |r| == if |s| >= n then |s| else n
    ensures r[..|s|] == s && forall i :: |s| <= i < |r| ==> r[i] == ' '
  {
    if |s| >= n then s else s + Spaces(n - |s|)
  }

  /** printf `%Ns`: spaces up to N characters, then the text, never cut. */
  function PadLeft(s: string, n: nat): (r: string)
    ensures |r| == if |s| >= n then |s| else n
    ensures r[|r| - |s|..] == s && forall i :: 0 <= i < |r| - |s| ==> r[i] == ' '
  {
    if |s| >= n then s else Spaces(n - |s|) + s
  }
}
