/** Python 2's conversions between numbers and text as the importer uses them:
    str(n) and int(s) for the point count and point ids, float(s) for the
    coordinate fields, and '{0:.14f}'.format(x) for the GPF coordinate line.
    Values are exact: float rounding is not modelled. */
module Numbers {
  import opened Outcomes
  import Text

  predicate IsDigit(c: char) {
    '0' <= c <= '9'
  }

  predicate AllDigits(s: string) {
    forall i :: 0 <= i < |s| ==> IsDigit(s[i])
  }

  function DigitChar(d: nat): (c: char)
    requires d < 10
    ensures IsDigit(c)
  {
    ('0' as int + d) as char
  }

  function DigitValue(c: char): nat
    requires IsDigit(c)
  {
    c as int - '0' as int
  }

  function Pow10(k: nat): (p: nat)
    ensures p >= 1
  {
    if k == 0 then 1 else 10 * Pow10(k - 1)
  }

  lemma DigitsHaveNoSpace(s: string)
    requires AllDigits(s)
    ensures Text.NoSpace(s)
  {
  }

  // ---------------------------------------------------------------------------
  // Natural numbers in decimal
  // ---------------------------------------------------------------------------

  /** The decimal digits of `n`, most significant first, with no leading zero. */
  function NatToString(n: nat): (s: string)
    ensures s != [] && AllDigits(s)
    ensures |s| > 1 ==> s[0] != '0'
    decreases n
  {
    if n < 10 then [DigitChar(n)] else NatToString(n / 10) + [DigitChar(n % 10)]
  }

  /** The value of a string of decimal digits ("" is 0). */
  function NatValue(s: string): nat
    requires AllDigits(s)
    decreases |s|
  {
    if s == [] then 0 else NatValue(s[..|s| - 1]) * 10 + DigitValue(s[|s| - 1])
  }

  lemma {:induction false} NatToStringValue(n: nat)
    ensures NatValue(NatToString(n)) == n
    decreases n
  {
    if n >= 10 {
      var s := NatToString(n / 10);
      NatToStringValue(n / 10);
      assert (s + [DigitChar(n % 10)])[..|s|] == s;
    }
  }

  lemma {:induction false} NatValueAppend(x: string, y: string)
    requires AllDigits(x) && AllDigits(y)
    ensures NatValue(x + y) == NatValue(x) * Pow10(|y|) + NatValue(y)
    decreases |y|
  {
    if y == [] {
      assert x + y == x;
    } else {
      var y' := y[..|y| - 1];
      var c := DigitValue(y[|y| - 1]);
      NatValueSnoc(x, y);
      NatValueAppend(x, y');
      Regroup(NatValue(x), Pow10(|y'|), NatValue(y'), c);
    }
  }

  lemma NatValueSnoc(x: string, y: string)
    requires AllDigits(x) && AllDigits(y) && y != []
    ensures NatValue(x + y) == NatValue(x + y[..|y| - 1]) * 10 + DigitValue(y[|y| - 1])
  {
    assert (x + y)[..|x + y| - 1] == x + y[..|y| - 1];
  }

  lemma Regroup(a: int, p: int, b: int, c: int)
    ensures (a * p + b) * 10 + c == a * (p * 10) + (b * 10 + c)
  {
  }

  /** The longest prefix of decimal digits. */
  function DigitRun(s: string): (d: string)
    ensures |d| <= |s| && d == s[..|d|] && AllDigits(d)
    ensures |d| == |s| || !IsDigit(s[|d|])
    decreases |s|
  {
    if s == [] || !IsDigit(s[0]) then [] else [s[0]] + DigitRun(s[1..])
  }

  lemma {:induction false} DigitRunOf(d: string, rest: string)
    requires AllDigits(d)
    requires rest == [] || !IsDigit(rest[0])
    ensures DigitRun(d + rest) == d
    decreases |d|
  {
    if d == [] {
      assert d + rest == rest;
    } else {
      assert (d + rest)[0] == d[0];
      assert (d + rest)[1..] == d[1..] + rest;
      DigitRunOf(d[1..], rest);
    }
  }

  // ---------------------------------------------------------------------------
  // str(n) and int(s)
  // ---------------------------------------------------------------------------

  /** str(n) for an integer: a minus sign for negatives, then the digits. */
  function IntToString(n: int): (s: string)
    ensures s != []
  {
    if n < 0 then "-" + NatToString(-n) else NatToString(n)
  }

  /** str(n) holds no newline. */
  lemma IntToStringOneLine(n: int)
    ensures Text.Lacks(IntToString(n), '\n')
  {
    var s := IntToString(n);
    var d := NatToString(if n < 0 then -n else n);
    assert forall i :: 0 <= i < |d| ==> d[i] != '\n';
    if n < 0 {
      assert forall i :: 1 <= i < |s| ==> s[i] == d[i - 1];
    }
  }

  /** str(n) neither starts nor ends with whitespace. */
  lemma IntToStringEnds(n: int)
    ensures var s := IntToString(n); !Text.IsSpace(s[0]) && !Text.IsSpace(s[|s| - 1])
  {
  }

  /** int(s) on a Python 2 str: surrounding whitespace, an optional sign,
      more whitespace after the sign, then one or more digits; anything else
      raises ValueError (None here). */
  function ParseInt(s: string): Option<int>
  {
    ParseIntToken(Text.Strip(s))
  }

  /** The stripped text of int(s): the whitespace after a sign is skipped
      before the digits are read. */
  function ParseIntToken(t: string): Option<int>
  {
    if t != [] && t[0] == '-' then Negated(DigitsAfterSpace(t[1..]))
    else if t != [] && t[0] == '+' then DigitsAfterSpace(t[1..])
    else DigitsValue(t)
  }

  /** Leading whitespace, then one or more digits, and nothing else. */
  function DigitsAfterSpace(u: string): Option<int>
    decreases |u|
  {
    if u != [] && Text.IsSpace(u[0]) then DigitsAfterSpace(u[1..]) else DigitsValue(u)
  }

  /** One or more digits, and nothing else. */
  function DigitsValue(u: string): Option<int>
  {
    if u != [] && AllDigits(u) then Some(NatValue(u)) else None
  }

  function Negated(v: Option<int>): Option<int>
  {
    match v
    case Some(x) => Some(-x)
    case None => None
  }

  /** An optional sign followed by one or more digits, and nothing else. */
  function ParseSignedDigits(t: string): Option<int>
  {
    if t != [] && t[0] == '-' then
      if t[1..] != [] && AllDigits(t[1..]) then Some(-(NatValue(t[1..]) as int)) else None
    else if t != [] && t[0] == '+' then
      if t[1..] != [] && AllDigits(t[1..]) then Some(NatValue(t[1..])) else None
    else if t != [] && AllDigits(t) then Some(NatValue(t))
    else None
  }

  lemma StripUnpadded(t: string)
    requires t == [] || (!Text.IsSpace(t[0]) && !Text.IsSpace(t[|t| - 1]))
    ensures Text.Strip(t) == t
  {
    Text.StripPadded([], t, []);
    assert [] + t + [] == t;
  }

  lemma {:induction false} ParseIntTokenOfIntToString(n: int)
    ensures ParseIntToken(IntToString(n)) == Some(n)
  {
    if n < 0 {
      var d := NatToString(-n);
      NatToStringValue(-n);
      MinusToken(IntToString(n), d);
      assert [] + d == d;
      SpaceThenDigits([], d);
      NegatedSome(-n);
    } else {
      NatToStringValue(n);
      DigitsToken(IntToString(n));
    }
  }

  lemma MinusToken(t: string, u: string)
    requires t == "-" + u
    ensures ParseIntToken(t) == Negated(DigitsAfterSpace(u))
  {
    assert t[0] == '-' && t[1..] == u;
  }

  lemma PlusToken(t: string, u: string)
    requires t == "+" + u
    ensures ParseIntToken(t) == DigitsAfterSpace(u)
  {
    assert t[0] == '+' && t[1..] == u;
  }

  lemma DigitsToken(d: string)
    requires d != [] && AllDigits(d)
    ensures ParseIntToken(d) == Some(NatValue(d))
  {
    assert IsDigit(d[0]);
  }

  /** Whitespace, then digits, read as the digits. */
  lemma {:induction false} SpaceThenDigits(w: string, d: string)
    requires Text.AllSpace(w) && d != [] && AllDigits(d)
    ensures DigitsAfterSpace(w + d) == Some(NatValue(d))
    decreases |w|
  {
    if w != [] {
      assert (w + d)[0] == w[0];
      assert (w + d)[1..] == w[1..] + d;
      SpaceThenDigits(w[1..], d);
    } else {
      assert w + d == d;
      assert IsDigit(d[0]);
    }
  }

  /** int() reads back what str() wrote, whatever whitespace surrounds it. */
  lemma {:induction false} ParseIntOfIntToString(a: string, n: int, b: string)
    requires Text.AllSpace(a) && Text.AllSpace(b)
    ensures ParseInt(a + IntToString(n) + b) == Some(n)
  {
    IntToStringEnds(n);
    Text.StripPadded(a, IntToString(n), b);
    ParseIntTokenOfIntToString(n);
  }

  /** int() skips the whitespace between the sign and the digits: with a
      minus sign the value is the negated digits, with a plus sign the digits,
      and the same text without that whitespace reads the same. */
  lemma ParseIntSpaceAfterSign(sign: char, w: string, d: string)
    requires sign == '-' || sign == '+'
    requires Text.AllSpace(w) && d != [] && AllDigits(d)
    ensures ParseInt([sign] + w + d) == Some(if sign == '-' then -(NatValue(d) as int) else NatValue(d))
    ensures ParseInt([sign] + w + d) == ParseInt([sign] + d)
  {
    assert [sign] + [] + d == [sign] + d;
    if sign == '-' {
      MinusSpaceDigits([sign] + w + d, w, d);
      MinusSpaceDigits([sign] + d, [], d);
    } else {
      PlusSpaceDigits([sign] + w + d, w, d);
      PlusSpaceDigits([sign] + d, [], d);
    }
  }

  lemma MinusSpaceDigits(t: string, w: string, d: string)
    requires Text.AllSpace(w) && d != [] && AllDigits(d)
    requires t == "-" + w + d
    ensures ParseInt(t) == Some(-(NatValue(d) as int))
  {
    NegatedSome(NatValue(d));
    var u := w + d;
    assert t == "-" + u;
    assert u[|u| - |d|..] == d;
    SignedStrip(t, '-', u, d);
    SpaceThenDigits(w, d);
    MinusToken(t, u);
  }

  lemma NegatedSome(x: int)
    ensures Negated(Some(x)) == Some(-x)
  {
  }

  lemma PlusSpaceDigits(t: string, w: string, d: string)
    requires Text.AllSpace(w) && d != [] && AllDigits(d)
    requires t == "+" + w + d
    ensures ParseInt(t) == Some(NatValue(d))
  {
    var u := w + d;
    assert t == "+" + u;
    assert u[|u| - |d|..] == d;
    SignedStrip(t, '+', u, d);
    SpaceThenDigits(w, d);
    PlusToken(t, u);
  }

  /** strip() keeps a sign followed by text ending in a digit. */
  lemma SignedStrip(t: string, sign: char, u: string, d: string)
    requires sign == '-' || sign == '+'
    requires t == [sign] + u && d != [] && AllDigits(d) && |d| <= |u| && u[|u| - |d|..] == d
    ensures ParseInt(t) == ParseIntToken(t)
  {
    assert IsDigit(d[|d| - 1]);
    assert u[|u| - 1] == d[|d| - 1];
    assert t[0] == sign && t[|t| - 1] == u[|u| - 1];
    StripUnpadded(t);
  }

  /** str() is injective: different counts never print the same. */
  lemma IntToStringInjective(m: int, n: int)
    requires IntToString(m) == IntToString(n)
    ensures m == n
  {
    ParseIntToString(m);
    ParseIntToString(n);
  }

  lemma {:induction false} ParseIntToString(n: int)
    ensures ParseInt(IntToString(n)) == Some(n)
  {
    ParseIntOfIntToString([], n, []);
    assert [] + IntToString(n) + [] == IntToString(n);
  }

  // ---------------------------------------------------------------------------
  // float(s)
  // ---------------------------------------------------------------------------

  /** `v` times 10 to the power `e`, by repeated multiplication or division by
      ten (so that values read from literals stay linear in `v`). */
  function Shift(v: real, e: int): real
    decreases if e >= 0 then e else -e
  {
    if e == 0 then v else if e > 0 then Shift(v, e - 1) * 10.0 else Shift(v, e + 1) / 10.0
  }

  lemma {:induction false} ShiftDown(v: real, k: nat)
    ensures Shift(v, -(k as int)) == v / (Pow10(k) as real)
  {
    if k > 0 {
      ShiftDown(v, k - 1);
      var p := Pow10(k - 1) as real;
      assert p > 0.0;
      assert (v / p) / 10.0 == v / (p * 10.0);
    }
  }

  /** The exponent part of a float literal: nothing, or e/E and a signed integer. */
  function ParseExponent(s: string): Option<int>
  {
    if s == [] then Some(0)
    else if s[0] == 'e' || s[0] == 'E' then ParseSignedDigits(s[1..])
    else None
  }

  /** float(s) on finite decimal literals: surrounding whitespace, an optional
      sign, digits with an optional decimal point (at least one digit on
      either side of it), an optional exponent. Anything else raises
      ValueError (None here). */
  function ParseFloat(s: string): Option<real>
  {
    ParseFloatToken(Text.Strip(s))
  }

  function ParseFloatToken(t: string): Option<real>
  {
    if t != [] && t[0] == '-' then
      match ParseUnsigned(t[1..])
      case None => None
      case Some(v) => Some(-v)
    else if t != [] && t[0] == '+' then ParseUnsigned(t[1..])
    else ParseUnsigned(t)
  }

  /** Digits, an optional point and more digits, an optional exponent. */
  function ParseUnsigned(u: string): Option<real>
  {
    var whole := DigitRun(u);
    var rest := u[|whole|..];
    if rest != [] && rest[0] == '.' then
      var frac := DigitRun(rest[1..]);
      Mantissa(whole, frac, rest[1..][|frac|..])
    else Mantissa(whole, [], rest)
  }

  function Mantissa(whole: string, frac: string, tail: string): Option<real>
    requires AllDigits(whole) && AllDigits(frac)
  {
    if whole == [] && frac == [] then None
    else
      match ParseExponent(tail)
      case None => None
      case Some(e) => Some(Shift(NatValue(whole + frac) as real, e - |frac|))
  }

  /** A field with no digit in it is never a number: float() raises on it. */
  lemma NoDigitIsNotANumber(s: string)
    requires forall i :: 0 <= i < |s| ==> !IsDigit(s[i])
    ensures ParseFloat(s) == None
  {
    var t := Text.Strip(s);
    Text.StripDecompose(s);
    var k := |s| - |Text.StripLeft(s)|;
    assert t == s[k..k + |t|];
    assert forall i :: 0 <= i < |t| ==> !IsDigit(t[i]);
    NoDigitToken(t);
  }

  lemma NoDigitToken(t: string)
    requires forall i :: 0 <= i < |t| ==> !IsDigit(t[i])
    ensures ParseFloatToken(t) == None
  {
    var u := if t != [] && (t[0] == '-' || t[0] == '+') then t[1..] else t;
    assert forall i :: 0 <= i < |u| ==> !IsDigit(u[i]);
    NoDigitUnsigned(u);
  }

  lemma NoDigitUnsigned(u: string)
    requires forall i :: 0 <= i < |u| ==> !IsDigit(u[i])
    ensures ParseUnsigned(u) == None
  {
    assert DigitRun(u) == [];
    assert u[|DigitRun(u)|..] == u;
    if u != [] && u[0] == '.' {
      var v := u[1..];
      assert v == [] || !IsDigit(v[0]);
      assert DigitRun(v) == [];
    }
  }

  lemma ParseUnsignedOfDigits(d: string)
    requires d != [] && AllDigits(d)
    ensures ParseUnsigned(d) == Some(NatValue(d) as real)
  {
    DigitRunOf(d, []);
    assert d + [] == d;
    assert d[|d|..] == [];
  }

  /** float() of a plain digit string is that integer. */
  lemma ParseFloatOfDigits(d: string)
    requires d != [] && AllDigits(d)
    ensures ParseFloat(d) == Some(NatValue(d) as real)
  {
    assert !Text.IsSpace(d[0]) && !Text.IsSpace(d[|d| - 1]);
    StripUnpadded(d);
    ParseUnsignedOfDigits(d);
  }

  // ---------------------------------------------------------------------------
  // '{0:.14f}'.format(x)
  // ---------------------------------------------------------------------------

  /** 10^14: the unit of the last printed decimal place. */
  const Scale: nat := 100_000_000_000_000

  lemma ScaleIsPow10()
    ensures Pow10(14) == Scale
  {
  }

  /** Rounding to the nearest integer, ties to even (how Python rounds the exact
      value of a float when formatting it). */
  function RoundHalfEven(v: real): (q: nat)
    requires v >= 0.0
    ensures -0.5 <= q as real - v <= 0.5
  {
    var f := v.Floor;
    var d := v - f as real;
    if d > 0.5 || (d == 0.5 && f % 2 == 1) then f + 1 else f
  }

  /** The last `k` decimal digits of `n`, zero-padded to exactly `k` characters. */
  function FixedDigits(n: nat, k: nat): (s: string)
    ensures |s| == k && AllDigits(s)
    decreases k
  {
    if k == 0 then [] else FixedDigits(n / 10, k - 1) + [DigitChar(n % 10)]
  }

  lemma {:induction false} FixedDigitsValue(n: nat, k: nat)
    requires n < Pow10(k)
    ensures NatValue(FixedDigits(n, k)) == n
    decreases k
  {
    if k > 0 {
      var s := FixedDigits(n / 10, k - 1);
      FixedDigitsValue(n / 10, k - 1);
      assert (s + [DigitChar(n % 10)])[..|s|] == s;
    }
  }

  /** A non-negative number of 10^-14 units, printed with exactly 14 decimals. */
  function FormatUnits(q: nat): (s: string)
  {
    NatToString(q / Scale) + "." + FixedDigits(q % Scale, 14)
  }

  /** The number of 10^-14 units '{0:.14f}' prints for the magnitude of `x`. */
  function Units(x: real): nat
  {
    if x < 0.0 then RoundHalfEven(-x * 100000000000000.0) else RoundHalfEven(x * 100000000000000.0)
  }

  /** '{0:.14f}'.format(x): a minus sign for negatives, the integer part, a point
      and 14 decimals, rounded half to even. */
  function Fmt14(x: real): string
  {
    FormatSigned(x < 0.0, FormatUnits(Units(x)))
  }

  function FormatSigned(negative: bool, u: string): string
  {
    if negative then "-" + u else u
  }

  /** The value that Fmt14(x) denotes: `x` rounded to 14 decimals. */
  function Round14(x: real): (r: real)
    ensures -0.000000000000005 <= r - x <= 0.000000000000005
  {
    UnitValueScaled(Units(x));
    SignedValue(x < 0.0, UnitValue(Units(x)))
  }

  function SignedValue(negative: bool, m: real): real
  {
    if negative then -m else m
  }

  /** The value of `q` units of 10^-14. */
  function UnitValue(q: nat): real
  {
    Shift(q as real, -14)
  }

  lemma UnitValueScaled(q: nat)
    ensures UnitValue(q) == (q as real) / 100000000000000.0
  {
    ShiftDown(q as real, 14);
    ScaleIsPow10();
  }

  /** The characters Fmt14 prints. */
  predicate IsNumberChar(c: char) {
    IsDigit(c) || c == '.' || c == '-'
  }

  lemma NumberCharsHaveNoSpace(s: string)
    requires forall i :: 0 <= i < |s| ==> IsNumberChar(s[i])
    ensures Text.NoSpace(s)
  {
  }

  lemma PointNumberShape(a: string, f: string)
    requires a != [] && AllDigits(a) && f != [] && AllDigits(f)
    ensures var u := a + "." + f;
      (forall i :: 0 <= i < |u| ==> IsNumberChar(u[i])) && IsDigit(u[0]) && IsDigit(u[|u| - 1])
  {
    var u := a + "." + f;
    forall i | 0 <= i < |u| ensures IsNumberChar(u[i]) {
      if i < |a| {
        assert u[i] == a[i];
      } else if i > |a| {
        assert u[i] == f[i - |a| - 1];
      }
    }
    assert u[0] == a[0];
    assert u[|u| - 1] == f[|f| - 1];
  }

  lemma FormatUnitsShape(q: nat)
    ensures var u := FormatUnits(q);
      u != [] && (forall i :: 0 <= i < |u| ==> IsNumberChar(u[i])) && IsDigit(u[0]) && IsDigit(u[|u| - 1])
  {
    PointNumberShape(NatToString(q / Scale), FixedDigits(q % Scale, 14));
  }

  lemma FormatSignedShape(negative: bool, u: string)
    requires u != [] && (forall i :: 0 <= i < |u| ==> IsNumberChar(u[i])) && IsDigit(u[|u| - 1])
    ensures var t := FormatSigned(negative, u);
      t != [] && (forall i :: 0 <= i < |t| ==> IsNumberChar(t[i])) && IsDigit(t[|t| - 1])
  {
    if negative {
      var t := "-" + u;
      assert t[|t| - 1] == u[|u| - 1];
      forall i | 0 <= i < |t| ensures IsNumberChar(t[i]) {
        if i > 0 {
          assert t[i] == u[i - 1];
        }
      }
    }
  }

  /** Fmt14 prints only digits, a decimal point and a minus sign, and ends in a digit. */
  lemma Fmt14Chars(x: real)
    ensures var t := Fmt14(x);
      t != [] && (forall i :: 0 <= i < |t| ==> IsNumberChar(t[i])) && IsDigit(t[|t| - 1])
  {
    FormatUnitsShape(Units(x));
    FormatSignedShape(x < 0.0, FormatUnits(Units(x)));
  }

  /** Fmt14's output is one non-empty token without whitespace or newline. */
  lemma Fmt14Shape(x: real)
    ensures Fmt14(x) != [] && Text.NoSpace(Fmt14(x))
    ensures !Text.IsSpace(Fmt14(x)[0]) && IsDigit(Fmt14(x)[|Fmt14(x)| - 1])
  {
    Fmt14Chars(x);
    NumberCharsHaveNoSpace(Fmt14(x));
  }

  lemma MantissaNoExponent(whole: string, frac: string)
    requires AllDigits(whole) && AllDigits(frac) && whole != []
    ensures Mantissa(whole, frac, []) == Some(Shift(NatValue(whole + frac) as real, -|frac|))
  {
    assert ParseExponent([]) == Some(0);
  }

  lemma ParseUnsignedPoint(a: string, f: string)
    requires a != [] && AllDigits(a) && AllDigits(f)
    ensures ParseUnsigned(a + "." + f) == Some(Shift(NatValue(a + f) as real, -|f|))
  {
    var s := a + "." + f;
    assert s == a + ("." + f);
    DigitRunOf(a, "." + f);
    var rest := s[|a|..];
    assert rest == "." + f;
    assert rest != [] && rest[0] == '.';
    assert rest[1..] == f;
    DigitRunOf(f, []);
    assert f + [] == f;
    assert DigitRun(rest[1..]) == f;
    assert rest[1..][|f|..] == [];
    MantissaNoExponent(a, f);
  }

  lemma UnitsDigitsValue(q: nat)
    ensures NatValue(NatToString(q / Scale) + FixedDigits(q % Scale, 14)) == q
    ensures Pow10(14) == Scale
  {
    ScaleIsPow10();
    NatValueAppend(NatToString(q / Scale), FixedDigits(q % Scale, 14));
    NatToStringValue(q / Scale);
    FixedDigitsValue(q % Scale, 14);
  }

  lemma ParseUnsignedOfUnits(q: nat)
    ensures ParseUnsigned(FormatUnits(q)) == Some(UnitValue(q))
  {
    ParseUnsignedPoint(NatToString(q / Scale), FixedDigits(q % Scale, 14));
    UnitsDigitsValue(q);
  }

  /** A sign in front of an unsigned number negates the value read back. */
  lemma ParseTokenSigned(negative: bool, u: string, m: real)
    requires u != [] && IsDigit(u[0]) && ParseUnsigned(u) == Some(m)
    ensures ParseFloatToken(FormatSigned(negative, u)) == Some(SignedValue(negative, m))
  {
    if negative {
      ParseTokenNegative(u, m);
    } else {
      ParseTokenDigit(u);
    }
  }

  /** A token that starts with a digit has no sign to read. */
  lemma ParseTokenDigit(u: string)
    requires u != [] && IsDigit(u[0])
    ensures ParseFloatToken(u) == ParseUnsigned(u)
  {
  }

  lemma ParseTokenNegative(u: string, m: real)
    requires ParseUnsigned(u) == Some(m)
    ensures ParseFloatToken("-" + u) == Some(-m)
  {
    assert ("-" + u)[1..] == u;
  }

  /** Reading back a printed coordinate gives the value rounded to 14 decimals
      (Round14), which lies within half a unit of the last place of `x`. */
  lemma Fmt14RoundTrip(x: real)
    ensures ParseFloat(Fmt14(x)) == Some(Round14(x))
  {
    Fmt14Token(x);
    var q := Units(x);
    FormatUnitsShape(q);
    ParseUnsignedOfUnits(q);
    ParseTokenSigned(x < 0.0, FormatUnits(q), UnitValue(q));
  }

  lemma Fmt14Token(x: real)
    ensures ParseFloat(Fmt14(x)) == ParseFloatToken(Fmt14(x))
  {
    Fmt14Shape(x);
    StripUnpadded(Fmt14(x));
  }
}
