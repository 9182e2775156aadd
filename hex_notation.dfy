/**
 The hex code shown on each palette card (main.py:56): the format string
 `"#{:02x}{:02x}{:02x}"` applied to the red, green and blue channels, which is
 the six-digit form of the RGB hexadecimal notation of CSS Color Module
 Level 4, section 5.2.

 `{:02x}` is read as Python's format mini-language does: `x` writes the
 number in base 16 with lower-case digits and no leading zeros, and `02`
 pads the result on the left with `0` up to two characters.

 A decoder for the notation is the partner of the encoder: it recovers the
 channels from any code the encoder produces, so the encoding is injective,
 and encoding what it reads from a lower-case code gives that code back.
 */
module HexNotation {
  import opened Colour

  datatype Option<T> = None | Some(value: T)

  /** A digit `{:x}` may produce: `0`-`9` or lower-case `a`-`f`. */
  predicate IsLowerHexDigit(ch: char) {
    '0' <= ch <= '9' || 'a' <= ch <= 'f'
  }

  /** A hexadecimal digit in either case, as section 5.2 of CSS Color 4 accepts. */
  predicate IsHexDigit(ch: char) {
    IsLowerHexDigit(ch) || 'A' <= ch <= 'F'
  }

  /** Every character of `s` is a lower-case hexadecimal digit. */
  predicate AllLowerHexDigits(s: string) {
    forall i :: 0 <= i < |s| ==> IsLowerHexDigit(s[i])
  }

  /** The value of a hexadecimal digit, or None for any other character. */
  function DigitValue(ch: char): (v: Option<nat>)
    ensures v.Some? <==> IsHexDigit(ch)
    ensures v.Some? ==> v.value < 16
  {
    if '0' <= ch <= '9' then Some(ch as int - '0' as int)
    else if 'a' <= ch <= 'f' then Some(ch as int - 'a' as int + 10)
    else if 'A' <= ch <= 'F' then Some(ch as int - 'A' as int + 10)
    else None
  }

  /** The lower-case digit `{:x}` writes for a value below 16. */
  function HexDigit(d: nat): (ch: char)
    requires d < 16
    ensures IsLowerHexDigit(ch)
    ensures DigitValue(ch) == Some(d)
  {
    if d < 10 then ('0' as int + d) as char else ('a' as int + d - 10) as char
  }

  /** A lower-case digit is the one `HexDigit` writes for its value. */
  lemma LowerDigitIsCanonical(ch: char)
    requires IsLowerHexDigit(ch)
    ensures DigitValue(ch).Some? && HexDigit(DigitValue(ch).value) == ch
  {
  }

  /** 16 to the power `k`. */
  function Pow16(k: nat): nat {
    if k == 0 then 1 else 16 * Pow16(k - 1)
  }

  /**
   The number a string of hexadecimal digits denotes, most significant digit
   first (the empty string denotes 0); None if any character is not a digit.
   */
  function HexValue(s: string): (v: Option<nat>)
    ensures v.Some? <==> forall i :: 0 <= i < |s| ==> IsHexDigit(s[i])
    ensures v.Some? ==> v.value < Pow16(|s|)
    decreases |s|
  {
    if s == [] then Some(0)
    else
      match (HexValue(s[..|s| - 1]), DigitValue(s[|s| - 1]))
      case (Some(high), Some(low)) => Some(16 * high + low)
      case _ => None
  }

  /**
   `{:x}`: `n` in base 16, lower-case, with no leading zeros (`0` for zero).
   The digits denote `n`; one digit exactly for n < 16, at most two below 256.
   */
  function ToHex(n: nat): (s: string)
    ensures 1 <= |s| && AllLowerHexDigits(s)
    ensures HexValue(s) == Some(n)
    ensures s[0] == '0' ==> n == 0
    ensures |s| == 1 <==> n < 16
    ensures n < 256 ==> |s| <= 2
    decreases n
  {
    if n < 16 then [HexDigit(n)]
    else
      var s := ToHex(n / 16) + [HexDigit(n % 16)];
      assert s[..|s| - 1] == ToHex(n / 16);
      s
  }

  /** `k` zero digits. */
  function Zeros(k: nat): (z: string)
    ensures |z| == k
  {
    if k == 0 then [] else ['0'] + Zeros(k - 1)
  }

  /**
   The `0` flag with a minimum width: `s` padded on the left with `0` up to
   `width` characters, or `s` itself when it is already that long.
   */
  function ZeroPad(s: string, width: nat): (r: string)
    ensures |r| == if |s| < width then width else |s|
    ensures r[|r| - |s|..] == s
    ensures |s| < width ==> r == Zeros(width - |s|) + s
  {
    if |s| < width then Zeros(width - |s|) + s else s
  }

  /** A leading zero does not change the value of a digit string. */
  lemma {:induction false} HexValueLeadingZero(s: string)
    ensures HexValue(['0'] + s) == HexValue(s)
    decreases |s|
  {
    var t := ['0'] + s;
    if s == [] {
      assert t[..|t| - 1] == [];
    } else {
      assert t[..|t| - 1] == ['0'] + s[..|s| - 1];
      assert t[|t| - 1] == s[|s| - 1];
      HexValueLeadingZero(s[..|s| - 1]);
    }
  }

  /** Any number of leading zeros does not change the value of a digit string. */
  lemma {:induction false} HexValueLeadingZeros(k: nat, s: string)
    ensures HexValue(Zeros(k) + s) == HexValue(s)
    decreases k
  {
    if k > 0 {
      var rest := Zeros(k - 1) + s;
      assert Zeros(k) + s == ['0'] + rest;
      HexValueLeadingZero(rest);
      HexValueLeadingZeros(k - 1, s);
    } else {
      assert Zeros(k) + s == s;
    }
  }

  /** A number written as `16 * high + low` with `low < 16` has one such split. */
  lemma DigitSplitIsUnique(hs: nat, ds: nat, ht: nat, dt: nat)
    requires ds < 16 && dt < 16
    requires 16 * hs + ds == 16 * ht + dt
    ensures hs == ht && ds == dt
  {
  }

  /**
   Two lower-case digit strings of one length with the same value are the
   same string: lower-case base 16 of a fixed width has one spelling per value.
   */
  lemma {:induction false} LowerHexSpellingIsUnique(s: string, t: string)
    requires |s| == |t| && AllLowerHexDigits(s) && AllLowerHexDigits(t)
    requires HexValue(s) == HexValue(t)
    ensures s == t
    decreases |s|
  {
    if s != [] {
      var n := |s|;
      var hs, ht := HexValue(s[..n - 1]).value, HexValue(t[..n - 1]).value;
      var ds, dt := DigitValue(s[n - 1]).value, DigitValue(t[n - 1]).value;
      DigitSplitIsUnique(hs, ds, ht, dt);
      LowerDigitIsCanonical(s[n - 1]);
      LowerDigitIsCanonical(t[n - 1]);
      LowerHexSpellingIsUnique(s[..n - 1], t[..n - 1]);
      assert s == s[..n - 1] + [s[n - 1]];
      assert t == t[..n - 1] + [t[n - 1]];
    }
  }

  /** `{:02x}` on one channel: exactly two lower-case digits that denote the channel. */
  function FormatByte(v: Byte): (s: string)
    ensures |s| == 2 && AllLowerHexDigits(s)
    ensures HexValue(s) == Some(v)
  {
    var digits := ToHex(v);
    var s := ZeroPad(digits, 2);
    assert HexValue(s) == Some(v) by {
      if |digits| < 2 {
        HexValueLeadingZeros(2 - |digits|, digits);
      }
    }
    s
  }

  /** A two-digit string denotes sixteen times its first digit plus its second. */
  lemma HexValueOfPair(high: char, low: char)
    requires IsHexDigit(high) && IsHexDigit(low)
    ensures HexValue([high, low]) == Some(16 * DigitValue(high).value + DigitValue(low).value)
  {
    var t := [high, low];
    assert t[..1] == [high] && [high][..0] == [];
  }

  /**
   `{:02x}` writes the high nibble of the channel first and the low nibble
   second, each as a lower-case digit.
   */
  lemma FormatByteNibbles(v: Byte)
    ensures FormatByte(v) == [HexDigit(v / 16), HexDigit(v % 16)]
  {
    var t := [HexDigit(v / 16), HexDigit(v % 16)];
    HexValueOfPair(t[0], t[1]);
    assert v == 16 * (v / 16) + v % 16;
    LowerHexSpellingIsUnique(FormatByte(v), t);
  }

  /** `s` is a six-digit hex colour code: `#` and six hexadecimal digits, in either case. */
  predicate IsHexCode(s: string) {
    |s| == 7 && s[0] == '#' && forall i :: 1 <= i < 7 ==> IsHexDigit(s[i])
  }

  /** A code is `#` followed by its three two-character parts. */
  lemma CodeParts(s: string)
    requires |s| == 7
    ensures s == [s[0]] + s[1..3] + s[3..5] + s[5..7]
    ensures s[1..] == s[1..3] + s[3..5] + s[5..7]
  {
  }

  /** The two-character parts of `#` followed by three pairs are those pairs. */
  lemma PartsOfCode(a: string, b: string, c: string)
    requires |a| == 2 && |b| == 2 && |c| == 2
    ensures (['#'] + a + b + c)[1..3] == a
    ensures (['#'] + a + b + c)[3..5] == b
    ensures (['#'] + a + b + c)[5..7] == c
    ensures (['#'] + a + b + c)[1..] == a + b + c
  {
    var s := ['#'] + a + b + c;
    assert s[1..] == a + b + c;
    assert (a + b + c)[0..2] == a && (a + b + c)[2..4] == b && (a + b + c)[4..6] == c;
  }

  /** Lower-case digit strings stay so under concatenation. */
  lemma AllLowerHexDigitsConcat(a: string, b: string)
    requires AllLowerHexDigits(a) && AllLowerHexDigits(b)
    ensures AllLowerHexDigits(a + b)
  {
    forall i | 0 <= i < |a + b|
      ensures IsLowerHexDigit((a + b)[i])
    {
      if i >= |a| {
        assert (a + b)[i] == b[i - |a|];
      }
    }
  }

  /**
   `"#{:02x}{:02x}{:02x}".format(r, g, b)`: seven characters, `#` and then
   lower-case digits, whose pairs denote red, green and blue in that order.
   */
  function HexCode(c: Rgb): (s: string)
    ensures |s| == 7 && s[0] == '#' && AllLowerHexDigits(s[1..])
    ensures HexValue(s[1..3]) == Some(c.r)
    ensures HexValue(s[3..5]) == Some(c.g)
    ensures HexValue(s[5..7]) == Some(c.b)
  {
    var red, green, blue := FormatByte(c.r), FormatByte(c.g), FormatByte(c.b);
    var s := ['#'] + red + green + blue;
    PartsOfCode(red, green, blue);
    AllLowerHexDigitsConcat(red, green);
    AllLowerHexDigitsConcat(red + green, blue);
    s
  }

  /** Reads a six-digit hex colour code, digits in either case; None for anything else. */
  function ParseHexCode(s: string): (c: Option<Rgb>)
    ensures c.Some? <==> IsHexCode(s)
  {
    if |s| != 7 || s[0] != '#' then None
    else
      match (HexValue(s[1..3]), HexValue(s[3..5]), HexValue(s[5..7]))
      case (Some(r), Some(g), Some(b)) =>
        assert Pow16(2) == 256;
        Some(Rgb(r, g, b))
      case _ =>
        None
  }

  /** Reading back the code of a colour gives that colour. */
  lemma ParseHexCodeOfHexCode(c: Rgb)
    ensures ParseHexCode(HexCode(c)) == Some(c)
  {
  }

  /** Two colours with the same code are the same colour. */
  lemma HexCodeInjective(c: Rgb, d: Rgb)
    requires HexCode(c) == HexCode(d)
    ensures c == d
  {
    ParseHexCodeOfHexCode(c);
    ParseHexCodeOfHexCode(d);
  }

  /** A slice of a lower-case digit string is one too. */
  lemma AllLowerHexDigitsSlice(a: string, i: nat, j: nat)
    requires AllLowerHexDigits(a) && i <= j <= |a|
    ensures AllLowerHexDigits(a[i..j])
  {
    forall k | 0 <= k < j - i
      ensures IsLowerHexDigit(a[i..j][k])
    {
      assert a[i..j][k] == a[i + k];
    }
  }

  /** The three pairs of digits of a code whose digits are lower-case are lower-case. */
  lemma LowerCodeParts(s: string)
    requires |s| == 7 && AllLowerHexDigits(s[1..])
    ensures AllLowerHexDigits(s[1..3]) && AllLowerHexDigits(s[3..5]) && AllLowerHexDigits(s[5..7])
  {
    var d := s[1..];
    AllLowerHexDigitsSlice(d, 0, 2);
    AllLowerHexDigitsSlice(d, 2, 4);
    AllLowerHexDigitsSlice(d, 4, 6);
    assert d[0..2] == s[1..3] && d[2..4] == s[3..5] && d[4..6] == s[5..7];
  }

  /**
   The other direction of the round trip: a lower-case code is the code of
   the colour it reads as.
   */
  lemma HexCodeOfParseHexCode(s: string)
    requires IsHexCode(s) && AllLowerHexDigits(s[1..])
    ensures ParseHexCode(s).Some? && HexCode(ParseHexCode(s).value) == s
  {
    var c := ParseHexCode(s).value;
    var t := HexCode(c);
    LowerCodeParts(s);
    LowerCodeParts(t);
    LowerHexSpellingIsUnique(s[1..3], t[1..3]);
    LowerHexSpellingIsUnique(s[3..5], t[3..5]);
    LowerHexSpellingIsUnique(s[5..7], t[5..7]);
    CodeParts(s);
    CodeParts(t);
  }
}
