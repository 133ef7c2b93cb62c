/** The key colour of background removal, given as a hex string
    (`hexToRgb`): six hex digits, either case, with an optional leading
    '#'. Anything else means white. */
module Colour {
  import opened ByteMath

  datatype Rgb = Rgb(r: Byte, g: Byte, b: Byte)

  const White := Rgb(255, 255, 255)

  /** The character class `[a-f\d]` under the case-insensitive flag. */
  predicate IsHexDigit(c: char)
  {
    '0' <= c <= '9' || 'a' <= c <= 'f' || 'A' <= c <= 'F'
  }

  function DigitValue(c: char): (v: nat)
    requires IsHexDigit(c)
    ensures v < 16
  {
    if '0' <= c <= '9' then c as int - '0' as int
    else if 'a' <= c <= 'f' then c as int - 'a' as int + 10
    else c as int - 'A' as int + 10
  }

  predicate AllHexDigits(s: string)
  {
    forall i :: 0 <= i < |s| ==> IsHexDigit(s[i])
  }

  /** The strings matched by /^#?([a-f\d]{2})([a-f\d]{2})([a-f\d]{2})$/i. */
  predicate IsHexColour(s: string)
  {
    || (|s| == 6 && AllHexDigits(s))
    || (|s| == 7 && s[0] == '#' && AllHexDigits(s[1..]))
  }

  /** `parseInt` of a two-digit hex group. */
  function HexByte(hi: char, lo: char): Byte
    requires IsHexDigit(hi) && IsHexDigit(lo)
  {
    DigitValue(hi) * 16 + DigitValue(lo)
  }

  /** `hexToRgb`: strip one optional '#', then expect exactly three two-digit groups. */
  function HexToRgb(hex: string): Rgb
  {
    var digits := if |hex| > 0 && hex[0] == '#' then hex[1..] else hex;
    if |digits| == 6 && AllHexDigits(digits) then
      Rgb(HexByte(digits[0], digits[1]), HexByte(digits[2], digits[3]), HexByte(digits[4], digits[5]))
    else
      White
  }

  /** `hexToRgb` answers white exactly for the strings the pattern rejects; for the others
      it reads the three groups, which are always the last six characters. */
  lemma HexToRgbMatchesPattern(hex: string)
    ensures !IsHexColour(hex) ==> HexToRgb(hex) == White
    ensures IsHexColour(hex) ==>
              var d := hex[|hex| - 6..];
              HexToRgb(hex) == Rgb(HexByte(d[0], d[1]), HexByte(d[2], d[3]), HexByte(d[4], d[5]))
  {
    var digits := if |hex| > 0 && hex[0] == '#' then hex[1..] else hex;
    assert !IsHexDigit('#');
    if |hex| > 0 && hex[0] == '#' {
      if |hex| == 7 {
        assert digits == hex[|hex| - 6..];
      }
    } else {
      assert digits == hex;
      if |hex| == 6 {
        assert hex[|hex| - 6..] == hex;
      }
    }
  }

  /** A lower-case hex digit for a value below 16. */
  function DigitChar(v: nat): (c: char)
    requires v < 16
    ensures IsHexDigit(c) && DigitValue(c) == v
  {
    if v < 10 then ('0' as int + v) as char else ('a' as int + v - 10) as char
  }

  /** The `#rrggbb` form in which a colour picker reports a colour. */
  function ToHex(c: Rgb): (s: string)
    ensures |s| == 7 && s[0] == '#'
  {
    ['#', DigitChar(c.r / 16), DigitChar(c.r % 16), DigitChar(c.g / 16), DigitChar(c.g % 16),
     DigitChar(c.b / 16), DigitChar(c.b % 16)]
  }

  /** Every colour survives being written as `#rrggbb`, with or without the '#',
      and read back. */
  lemma HexRoundTrip(c: Rgb)
    ensures HexToRgb(ToHex(c)) == c
    ensures HexToRgb(ToHex(c)[1..]) == c
  {
    var s := ToHex(c);
    assert AllHexDigits(s[1..]) by {
      forall i | 0 <= i < 6 ensures IsHexDigit(s[1..][i]) {
        assert s[1..][i] == s[i + 1];
      }
    }
    assert HexByte(s[1], s[2]) == c.r;
    assert HexByte(s[3], s[4]) == c.g;
    assert HexByte(s[5], s[6]) == c.b;
  }

  /** ASCII upper-casing, the only case mapping that reaches the hex digits. */
  function UpperChar(c: char): (u: char)
  {
    if 'a' <= c <= 'z' then (c as int - 32) as char else c
  }

  function Upper(s: string): (u: string)
    ensures |u| == |s| && forall i :: 0 <= i < |s| ==> u[i] == UpperChar(s[i])
  {
    seq(|s|, i requires 0 <= i < |s| => UpperChar(s[i]))
  }

  /** Two characters the pattern cannot tell apart: both or neither is '#', both or
      neither is a hex digit, and as digits they have the same value. */
  predicate SameForPattern(x: char, y: char)
  {
    && (x == '#' <==> y == '#')
    && (IsHexDigit(x) <==> IsHexDigit(y))
    && (IsHexDigit(x) ==> DigitValue(x) == DigitValue(y))
  }

  /** Strings that agree character by character in that sense give the same colour. */
  lemma HexToRgbRespectsPattern(a: string, b: string)
    requires |a| == |b| && forall i :: 0 <= i < |a| ==> SameForPattern(a[i], b[i])
    ensures HexToRgb(a) == HexToRgb(b)
  {
    var da := if |a| > 0 && a[0] == '#' then a[1..] else a;
    var db := if |b| > 0 && b[0] == '#' then b[1..] else b;
    assert |da| == |db| && forall i :: 0 <= i < |da| ==> SameForPattern(da[i], db[i]) by {
      if |a| > 0 && a[0] == '#' {
        assert SameForPattern(a[0], b[0]);
        assert forall i :: 0 <= i < |da| ==> da[i] == a[i + 1] && db[i] == b[i + 1];
      }
    }
  }

  /** The pattern is case-insensitive: upper-casing the string never changes the colour. */
  lemma HexToRgbIgnoresCase(hex: string)
    ensures HexToRgb(Upper(hex)) == HexToRgb(hex)
  {
    var u := Upper(hex);
    forall i | 0 <= i < |hex|
      ensures SameForPattern(u[i], hex[i])
    {
    }
    HexToRgbRespectsPattern(u, hex);
  }
}
