/**
 * Integer text in a given radix, over mathematical integers:
 * `parseInt(string, radix)` as specified in section 19.2.5 of ECMA-262 and
 * `Number.prototype.toString(radix)` (section 21.1.3.6 of ECMA-262)
 * restricted to integral numbers.
 */
module Numerals {
  import opened Options
  import opened Text

  /** The radices `parseInt` and `toString` accept. */
  type Radix = r: int | 2 <= r <= 36 witness 10

  /** Value of `c` as a digit in radix 36 (`0`-`9`, then `a`-`z` or `A`-`Z`), if it is one. */
  function DigitValue(c: char): (d: Option<nat>)
    ensures d.Some? ==> d.value < 36
  {
    if '0' <= c <= '9' then Some(c as int - '0' as int)
    else if 'a' <= c <= 'z' then Some(c as int - 'a' as int + 10)
    else if 'A' <= c <= 'Z' then Some(c as int - 'A' as int + 10)
    else None
  }

  predicate IsDigit(c: char, r: Radix) {
    DigitValue(c).Some? && DigitValue(c).value < r
  }

  predicate AllDigits(s: string, r: Radix) {
    forall i :: 0 <= i < |s| ==> IsDigit(s[i], r)
  }

  /** The digit `toString` writes for `d`: lower-case letters above nine. */
  function DigitChar(d: nat): (c: char)
    requires d < 36
    ensures DigitValue(c) == Some(d) && !IsUpper(c)
  {
    if d < 10 then ('0' as int + d) as char else ('a' as int + d - 10) as char
  }

  /** Length of the longest prefix of `s` made of radix-`r` digits (step 11 of `parseInt`). */
  function DigitPrefix(s: string, r: Radix): (n: nat)
    ensures n <= |s| && AllDigits(s[..n], r)
    ensures n < |s| ==> !IsDigit(s[n], r)
  {
    if |s| > 0 && IsDigit(s[0], r) then
      var m := DigitPrefix(s[1..], r);
      assert s[..1 + m] == [s[0]] + s[1..][..m];
      1 + m
    else 0
  }

  /** The integer a digit string denotes, most significant digit first. */
  function DigitsValue(s: string, r: Radix): nat
    requires AllDigits(s, r)
  {
    if |s| == 0 then 0
    else DigitsValue(s[..|s| - 1], r) * r + DigitValue(s[|s| - 1]).value
  }

  /**
   * `parseInt(input, radix)` with `NaN` as `None`; -0 is the integer 0.
   * A radix outside 2 to 36 (other than 0) and blank input give `NaN`, and
   * only a leading minus sign makes the result negative.
   */
  function ParseInt(input: string, radix: int): (r: Option<int>)
    ensures radix != 0 && (radix < 2 || radix > 36) ==> r.None?
    ensures TrimStart(input) == "" ==> r.None?
    ensures r.Some? && r.value < 0 ==> |TrimStart(input)| > 0 && TrimStart(input)[0] == '-'
  {
    ParseSigned(TrimStart(input), radix)
  }

  /** Steps 3 to 16 of `parseInt`: sign, radix check, `0x` prefix, digits. */
  function ParseSigned(s: string, radix: int): Option<int> {
    var sign := if |s| > 0 && s[0] == '-' then -1 else 1;
    var body := if |s| > 0 && (s[0] == '-' || s[0] == '+') then s[1..] else s;
    if radix != 0 && (radix < 2 || radix > 36) then None
    else
      var stripPrefix := radix == 0 || radix == 16;
      var hasPrefix := stripPrefix && |body| >= 2 && body[0] == '0' && (body[1] == 'x' || body[1] == 'X');
      var r: Radix := if hasPrefix then 16 else if radix == 0 then 10 else radix;
      match ParseMagnitude(if hasPrefix then body[2..] else body, r)
      case None => None
      case Some(m) => Some(sign * m)
  }

  /** The value of the longest digit prefix, or `None` when there is no digit at all. */
  function ParseMagnitude(s: string, r: Radix): Option<nat> {
    var end := DigitPrefix(s, r);
    if end == 0 then None else Some(DigitsValue(s[..end], r))
  }

  /** The digits of `n` in radix `r`, without leading zeros. */
  function Digits(n: nat, r: Radix): (s: string)
    ensures |s| > 0 && AllDigits(s, r)
    ensures DigitsValue(s, r) == n
    ensures s[0] == '0' ==> n == 0
    ensures |s| > 1 ==> s[0] != '0'
    ensures forall i :: 0 <= i < |s| ==> !IsUpper(s[i])
  {
    if n < r then [DigitChar(n)]
    else
      DivModFacts(n, r);
      var q := Digits(n / r, r);
      var s := q + [DigitChar(n % r)];
      assert s[..|s| - 1] == q;
      assert AllDigits(s, r) by {
        assert IsDigit(s[|s| - 1], r);
      }
      assert s[0] == q[0];
      s
  }

  lemma DivModFacts(n: nat, r: Radix)
    requires n >= r
    ensures 1 <= n / r < n && 0 <= n % r < r && (n / r) * r + n % r == n
  {
  }

  /** `Number.prototype.toString(r)` of an integral number. */
  function ToRadixString(n: int, r: Radix): (s: string)
    ensures |s| > 0 && (s[0] == '-' <==> n < 0)
    ensures s == "0" <==> n == 0
    ensures forall i :: 0 <= i < |s| ==> !IsUpper(s[i])
  {
    if n < 0 then "-" + Digits(-n, r) else Digits(n, r)
  }

  /** Rendering an integer and parsing the text back in the same radix returns the integer. */
  lemma ParseToRadixString(n: int, r: Radix)
    ensures ParseInt(ToRadixString(n, r), r) == Some(n)
  {
    if n < 0 {
      ParseNegative(-n, r);
      assert ToRadixString(n, r) == "-" + Digits(-n, r);
    } else {
      ParseNonNegative(n, r);
    }
  }

  lemma ParseNonNegative(m: nat, r: Radix)
    ensures ParseInt(Digits(m, r), r) == Some(m)
  {
    var d := Digits(m, r);
    MagnitudeOfDigits(m, r);
    assert m == 0 ==> d == [DigitChar(0)];
    DigitIsNotWhiteSpace(d[0], r);
    assert TrimStart(d) == d;
    UnsignedDigits(d, r);
  }

  lemma ParseNegative(m: nat, r: Radix)
    requires m > 0
    ensures ParseInt("-" + Digits(m, r), r) == Some(-(m as int))
  {
    var d := Digits(m, r);
    MagnitudeOfDigits(m, r);
    SignedSome('-', d, r, m);
  }

  /** The magnitude read from `toString`'s digits is the number itself. */
  lemma MagnitudeOfDigits(m: nat, r: Radix)
    ensures ParseMagnitude(Digits(m, r), r) == Some(m)
  {
    var d := Digits(m, r);
    DigitPrefixOfDigits(d, r);
    assert d[..|d|] == d;
  }

  /** A string made only of digits is consumed whole. */
  lemma {:induction false} DigitPrefixOfDigits(s: string, r: Radix)
    requires AllDigits(s, r)
    ensures DigitPrefix(s, r) == |s|
  {
    if |s| > 0 {
      DigitPrefixOfDigits(s[1..], r);
    }
  }

  /** `parseInt` skips leading white space. */
  lemma ParseIntSkipsWhiteSpace(ws: string, s: string, radix: int)
    requires forall i :: 0 <= i < |ws| ==> IsWhiteSpace(ws[i])
    ensures ParseInt(ws + s, radix) == ParseInt(s, radix)
  {
    TrimStartSkips(ws, s);
  }

  lemma {:induction false} TrimStartSkips(ws: string, s: string)
    requires forall i :: 0 <= i < |ws| ==> IsWhiteSpace(ws[i])
    ensures TrimStart(ws + s) == TrimStart(s)
  {
    if |ws| > 0 {
      assert (ws + s)[0] == ws[0];
      assert (ws + s)[1..] == ws[1..] + s;
      TrimStartSkips(ws[1..], s);
    } else {
      assert ws + s == s;
    }
  }

  /**
   * What a user types: any run of digits valid in the radix (upper or lower
   * case letters, leading zeros allowed), followed by anything that is not a
   * digit, is read as the value of those digits. In radix 16 the text must
   * not start with a `0x` prefix, which the next lemma covers.
   */
  lemma ParseIntReadsDigits(d: string, rest: string, r: Radix)
    requires |d| > 0 && AllDigits(d, r)
    requires |rest| > 0 ==> !IsDigit(rest[0], r)
    requires r == 16 && |d + rest| >= 2 && d[0] == '0' ==> (d + rest)[1] != 'x' && (d + rest)[1] != 'X'
    ensures ParseInt(d + rest, r) == Some(DigitsValue(d, r))
  {
    var s := d + rest;
    assert s[0] == d[0];
    DigitIsNotWhiteSpace(s[0], r);
    assert TrimStart(s) == s;
    UnsignedDigits(s, r);
    MagnitudeOfPrefix(d, rest, r);
  }

  /** A `+` or `-` sign in front of the digits keeps or negates their value. */
  lemma {:induction false} ParseIntSigned(sign: char, d: string, rest: string, r: Radix)
    requires sign == '+' || sign == '-'
    requires |d| > 0 && AllDigits(d, r)
    requires |rest| > 0 ==> !IsDigit(rest[0], r)
    requires r == 16 && |d + rest| >= 2 && d[0] == '0' ==> (d + rest)[1] != 'x' && (d + rest)[1] != 'X'
    ensures sign == '+' ==> ParseInt([sign] + (d + rest), r) == Some(DigitsValue(d, r))
    ensures sign == '-' ==> ParseInt([sign] + (d + rest), r) == Some(-(DigitsValue(d, r) as int))
  {
    var body, v := d + rest, DigitsValue(d, r);
    assert ParseMagnitude(body, r) == Some(v) by {
      MagnitudeOfPrefix(d, rest, r);
    }
    assert r == 16 && |body| >= 2 && body[0] == '0' ==> body[1] != 'x' && body[1] != 'X' by {
      assert body[0] == d[0];
    }
    SignedSome(sign, body, r, v);
  }

  /** With radix 16 or 0, a leading `0x` or `0X` is skipped and the hex digits after it are read. */
  lemma ParseIntHexPrefix(x: char, d: string, rest: string, radix: int)
    requires radix == 0 || radix == 16
    requires x == 'x' || x == 'X'
    requires |d| > 0 && AllDigits(d, 16)
    requires |rest| > 0 ==> !IsDigit(rest[0], 16)
    ensures ParseInt(['0', x] + (d + rest), radix) == Some(DigitsValue(d, 16))
  {
    MagnitudeOfPrefix(d, rest, 16);
    HexSome(x, d + rest, radix, DigitsValue(d, 16));
  }

  /** A sign followed by text with no `0x` prefix: the sign applies to the magnitude. */
  lemma SignedSome(sign: char, body: string, r: Radix, v: nat)
    requires sign == '-' || sign == '+'
    requires r == 16 && |body| >= 2 && body[0] == '0' ==> body[1] != 'x' && body[1] != 'X'
    requires ParseMagnitude(body, r) == Some(v)
    ensures sign == '+' ==> ParseInt([sign] + body, r) == Some(v)
    ensures sign == '-' ==> ParseInt([sign] + body, r) == Some(-(v as int))
  {
    var t := [sign] + body;
    assert t[0] == sign && t[1..] == body;
    TrimStartNoWhiteSpace(t);
    assert ParseSigned(t, r) == Some(if sign == '-' then -(v as int) else v);
  }

  /** A `0x` or `0X` prefix read with radix 0 or 16: the hex magnitude after it. */
  lemma HexSome(x: char, body: string, radix: int, v: nat)
    requires radix == 0 || radix == 16
    requires x == 'x' || x == 'X'
    requires ParseMagnitude(body, 16) == Some(v)
    ensures ParseInt(['0', x] + body, radix) == Some(v)
  {
    var t := ['0', x] + body;
    assert t[0] == '0' && t[1] == x && t[2..] == body;
    TrimStartNoWhiteSpace(t);
    assert ParseSigned(t, radix) == Some(v);
  }

  /**
   * Text with no digit where the digits should start is `NaN`: after an
   * optional sign, the first character is not a digit of the radix (or
   * there is none).
   */
  lemma ParseIntNoDigit(sign: string, s: string, r: Radix)
    requires sign == "" || sign == "+" || sign == "-"
    requires |s| == 0 || !IsDigit(s[0], r)
    requires sign == "" && |s| > 0 ==> !IsWhiteSpace(s[0]) && s[0] != '+' && s[0] != '-'
    ensures ParseInt(sign + s, r).None?
  {
    var t := sign + s;
    assert |t| > 0 ==> t[0] == (if sign == "" then s[0] else sign[0]);
    TrimStartNoWhiteSpace(t);
    assert |s| > 0 ==> s[0] != '0' by {
      assert IsDigit('0', r);
    }
    assert DigitPrefix(s, r) == 0;
    assert ParseMagnitude(s, r).None?;
    SignedNone(t, s, r);
  }

  /** When the text after the sign has no digit prefix and no `0x` prefix, `parseInt` is `NaN`. */
  lemma SignedNone(t: string, body: string, r: Radix)
    requires body == (if |t| > 0 && (t[0] == '-' || t[0] == '+') then t[1..] else t)
    requires TrimStart(t) == t
    requires |body| > 0 ==> body[0] != '0'
    requires ParseMagnitude(body, r).None?
    ensures ParseInt(t, r).None?
  {
    assert ParseInt(t, r) == ParseSigned(t, r);
  }

  /** The digit prefix of `d + rest` is exactly `d`, so the magnitude is the value of `d`. */
  lemma MagnitudeOfPrefix(d: string, rest: string, r: Radix)
    requires |d| > 0 && AllDigits(d, r)
    requires |rest| > 0 ==> !IsDigit(rest[0], r)
    ensures ParseMagnitude(d + rest, r) == Some(DigitsValue(d, r))
  {
    if |rest| > 0 {
      DigitPrefixStops(d, rest, r);
    } else {
      assert d + rest == d;
      DigitPrefixOfDigits(d, r);
    }
    assert (d + rest)[..|d|] == d;
  }

  /**
   * `parseInt` reads the longest digit prefix and ignores whatever follows it,
   * except that in radix 16 a lone `0` followed by `x` or `X` is a `0x` prefix.
   */
  lemma ParseIntStopsAtNonDigit(n: nat, r: Radix, rest: string)
    requires |rest| > 0 && !IsDigit(rest[0], r)
    requires r == 16 && n == 0 ==> rest[0] != 'x' && rest[0] != 'X'
    ensures ParseInt(Digits(n, r) + rest, r) == Some(n)
  {
    var d := Digits(n, r);
    var s := d + rest;
    assert s[0] == d[0];
    DigitIsNotWhiteSpace(s[0], r);
    assert TrimStart(s) == s;
    assert |d| >= 2 ==> s[1] == d[1];
    assert |d| == 1 ==> s[1] == rest[0];
    if n == 0 {
      assert d == [DigitChar(0)];
    }
    UnsignedDigits(s, r);
    DigitPrefixStops(d, rest, r);
    assert s[..|d|] == d;
    calc {
      ParseInt(s, r);
      ParseSigned(s, r);
      ParseMagnitude(s, r);
      Some(DigitsValue(d, r));
    }
  }

  lemma DigitIsNotWhiteSpace(c: char, r: Radix)
    requires IsDigit(c, r)
    ensures !IsWhiteSpace(c)
  {
  }

  /** Text starting with a digit (and no `0x` prefix in radix 16) is read as a magnitude. */
  lemma UnsignedDigits(s: string, r: Radix)
    requires |s| > 0 && IsDigit(s[0], r)
    requires r == 16 && |s| >= 2 && s[0] == '0' ==> s[1] != 'x' && s[1] != 'X'
    ensures ParseSigned(s, r) == ParseMagnitude(s, r)
  {
  }

  lemma {:induction false} DigitPrefixStops(d: string, rest: string, r: Radix)
    requires AllDigits(d, r)
    requires |rest| > 0 && !IsDigit(rest[0], r)
    ensures DigitPrefix(d + rest, r) == |d|
  {
    if |d| > 0 {
      assert (d + rest)[1..] == d[1..] + rest;
      DigitPrefixStops(d[1..], rest, r);
    } else {
      assert (d + rest)[0] == rest[0];
    }
  }
}
