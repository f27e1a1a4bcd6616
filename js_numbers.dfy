/**
 * The global functions `parseInt` and `parseFloat` (sections 19.2.5 and
 * 19.2.4 of ECMA-262), with exact arithmetic: the value a numeric prefix
 * denotes is kept as an integer or a real, without rounding to a double.
 */
module JsNumbers {
  import opened Values
  import opened JsStrings

  /** The value of c as a digit of a radix up to 36 (0-9, then a-z or A-Z); 36 for any other character. */
  function DigitValue(c: char): (d: nat)
    ensures d <= 36
    ensures d < 10 <==> '0' <= c <= '9'
  {
    if '0' <= c <= '9' then c as int - '0' as int
    else if 'a' <= c <= 'z' then c as int - 'a' as int + 10
    else if 'A' <= c <= 'Z' then c as int - 'A' as int + 10
    else 36
  }

  predicate IsDigitIn(c: char, radix: nat)
  {
    DigitValue(c) < radix
  }

  predicate AllDigitsIn(d: string, radix: nat)
  {
    forall i :: 0 <= i < |d| ==> IsDigitIn(d[i], radix)
  }

  /** Length of the longest prefix of s made of digits of the radix. */
  function DigitRun(s: string, radix: nat): (n: nat)
    ensures n <= |s| && AllDigitsIn(s[..n], radix)
    ensures n < |s| ==> !IsDigitIn(s[n], radix)
  {
    if s != [] && IsDigitIn(s[0], radix) then
      var m := DigitRun(s[1..], radix);
      assert s[1..][..m] == s[1..m + 1];
      1 + m
    else 0
  }

  /** The number a string of digits denotes in the radix, most significant digit first. */
  function DigitsValue(d: string, radix: nat): nat
  {
    if d == [] then 0 else radix * DigitsValue(d[..|d| - 1], radix) + DigitValue(d[|d| - 1])
  }

  /** ToInt32 of an integer: reduction to 32-bit two's complement. */
  function ToInt32(x: int): (r: int)
    ensures -0x8000_0000 <= r < 0x8000_0000
    ensures (x - r) % 0x1_0000_0000 == 0
  {
    var m := x % 0x1_0000_0000;
    if m >= 0x8000_0000 then m - 0x1_0000_0000 else m
  }

  /** An optional leading sign: whether it is '-', and the rest of the string. */
  function SplitSign(t: string): (bool, string)
  {
    if t != [] && (t[0] == '+' || t[0] == '-') then (t[0] == '-', t[1..]) else (false, t)
  }

  function Signed(negative: bool, m: real): real
  {
    if negative then -m else m
  }

  /**
   * `parseInt(s, radix)`, where an absent radix is passed as 0 (ToInt32 of
   * undefined). Leading white space and one sign are skipped; radix 0 or 16
   * also skips a "0x" or "0X" prefix (and radix 0 then reads hexadecimal);
   * then the longest run of digits is read. No digit gives NaN.
   */
  function ParseInt(s: string, radix: int): (r: Num)
    ensures r.Val? ==> r.v == r.v.Floor as real
  {
    var (negative, u) := SplitSign(TrimStart(s));
    var R := ToInt32(radix);
    if R != 0 && (R < 2 || R > 36) then NaN
    else
      match IntegerPrefix(u, R)
      case None => NaN
      case Some(m) =>
        var x: int := m;
        Val(if negative then -x as real else x as real)
  }

  /**
   * The digits `parseInt` reads from an unsigned string u for a radix that is
   * 0 or 2..36, and their value.
   */
  function IntegerPrefix(u: string, R: int): Option<nat>
    requires R == 0 || 2 <= R <= 36
  {
    var hex := (R == 0 || R == 16) && |u| >= 2 && u[0] == '0' && (u[1] == 'x' || u[1] == 'X');
    var digits := if hex then u[2..] else u;
    var base: nat := if hex then 16 else if R == 0 then 10 else R;
    var n := DigitRun(digits, base);
    if n == 0 then None else Some(DigitsValue(digits[..n], base))
  }

  function Pow10(n: nat): (p: real)
    ensures p >= 1.0
  {
    if n == 0 then 1.0 else 10.0 * Pow10(n - 1)
  }

  /** 10 raised to an integer power. */
  function Scale(e: int): (p: real)
    ensures p > 0.0
  {
    if e >= 0 then Pow10(e) else 1.0 / Pow10(-e)
  }

  /**
   * The exponent that an ExponentPart at the start of x denotes: 'e' or 'E',
   * an optional sign and at least one digit. Without a complete exponent
   * part nothing is read and the exponent is 0.
   */
  function ExponentValue(x: string): int
  {
    if |x| >= 2 && (x[0] == 'e' || x[0] == 'E') then
      var (negative, body) := SplitSign(x[1..]);
      var n := DigitRun(body, 10);
      var e: int := DigitsValue(body[..n], 10);
      if n == 0 then 0 else if negative then -e else e
    else 0
  }

  /**
   * The value of the longest prefix of u that is a StrUnsignedDecimalLiteral
   * without "Infinity": digits, an optional point with optional digits, at
   * least one digit in all, and an optional exponent part.
   */
  function UnsignedDecimalPrefix(u: string): Option<real>
  {
    var i := DigitRun(u, 10);
    if i < |u| && u[i] == '.' then PointPrefix(u[..i], u[i + 1..])
    else if i == 0 then None
    else Some(DecimalValue(DigitsValue(u[..i], 10), 0, 0, ExponentValue(u[i..])))
  }

  /**
   * The rest of a decimal prefix once a point has been read after the digits
   * `whole`: the fraction digits at the start of t, then an optional
   * exponent part; nothing when there is a digit on neither side.
   */
  function PointPrefix(whole: string, t: string): Option<real>
  {
    var f := DigitRun(t, 10);
    if whole == [] && f == 0 then None
    else Some(DecimalValue(DigitsValue(whole, 10), DigitsValue(t[..f], 10), f, ExponentValue(t[f..])))
  }

  /** The real that integer digits, fraction digits (and how many there are) and an exponent denote. */
  function DecimalValue(whole: nat, fraction: nat, places: nat, exponent: int): real
  {
    (whole as real + fraction as real / Pow10(places)) * Scale(exponent)
  }

  lemma DecimalValueUnscaled(whole: nat, fraction: nat, places: nat)
    ensures DecimalValue(whole, fraction, places, 0) == whole as real + fraction as real / Pow10(places)
    ensures DecimalValue(whole, 0, 0, 0) == whole as real
  {
  }

  /** `parseFloat(s)`: skip leading white space and one sign, read the longest decimal prefix. */
  function ParseFloat(s: string): Num
  {
    var (negative, u) := SplitSign(TrimStart(s));
    match UnsignedDecimalPrefix(u)
    case None => NaN
    case Some(m) => Val(Signed(negative, m))
  }

  /** A string that begins like a decimal literal: a digit, or a point and a digit. */
  predicate DecimalStart(u: string)
  {
    (u != [] && IsDigitIn(u[0], 10)) || (|u| >= 2 && u[0] == '.' && IsDigitIn(u[1], 10))
  }

  /** `parseFloat` gives NaN exactly when, after white space and a sign, no decimal literal begins. */
  lemma ParseFloatNaN(s: string)
    ensures ParseFloat(s).NaN? <==> !DecimalStart(SplitSign(TrimStart(s)).1)
  {
    var u := SplitSign(TrimStart(s)).1;
    var i := DigitRun(u, 10);
    if i == 0 && i < |u| && u[0] == '.' {
      if |u| >= 2 && IsDigitIn(u[1], 10) {
        assert DigitRun(u[1..], 10) > 0;
      }
    }
  }

  /** Whether an unsigned string starts with the "0x" or "0X" prefix. */
  predicate HexPrefix(u: string)
  {
    |u| >= 2 && u[0] == '0' && (u[1] == 'x' || u[1] == 'X')
  }

  /**
   * `parseInt` with no radix gives NaN exactly when, after white space and a
   * sign, neither a decimal digit nor a "0x" prefix followed by a
   * hexadecimal digit comes next.
   */
  lemma ParseIntNaN(s: string)
    ensures ParseInt(s, 0).NaN? <==>
      var u := SplitSign(TrimStart(s)).1;
      if HexPrefix(u) then |u| == 2 || !IsDigitIn(u[2], 16) else u == [] || !IsDigitIn(u[0], 10)
  {
    ToInt32Small(0);
  }

  /** The canonical decimal form of a natural number (what Number::toString gives for one). */
  function DecimalString(n: nat): (d: string)
    ensures |d| >= 1
  {
    if n < 10 then [('0' as int + n) as char] else DecimalString(n / 10) + [('0' as int + n % 10) as char]
  }

  /** The decimal form is made of digits, and denotes the number: decoding inverts encoding. */
  lemma {:induction false} DecimalStringValue(n: nat)
    ensures AllDigitsIn(DecimalString(n), 10)
    ensures DigitsValue(DecimalString(n), 10) == n
  {
    var d := DecimalString(n);
    if n >= 10 {
      DecimalStringValue(n / 10);
      assert d[..|d| - 1] == DecimalString(n / 10);
    }
  }

  /** A digit run stops at the first character that is not a digit. */
  lemma {:induction false} DigitRunOfDigits(d: string, rest: string, radix: nat)
    requires AllDigitsIn(d, radix)
    requires rest == [] || !IsDigitIn(rest[0], radix)
    ensures DigitRun(d + rest, radix) == |d|
  {
    if d == [] {
      assert d + rest == rest;
    } else {
      assert (d + rest)[1..] == d[1..] + rest;
      DigitRunOfDigits(d[1..], rest, radix);
    }
  }

  /** The string a sign stands for. */
  function SignString(negative: bool): string
  {
    if negative then "-" else ""
  }

  /** A string that starts with a digit is not trimmed and carries no sign. */
  lemma {:induction false} UnsignedStart(negative: bool, u: string)
    requires u != [] && IsDigitIn(u[0], 10)
    ensures SplitSign(TrimStart(SignString(negative) + u)) == (negative, u)
  {
    var s := SignString(negative) + u;
    assert s[0] == if negative then '-' else u[0];
    assert !IsWhiteSpace(s[0]);
    if negative {
      assert s[1..] == u;
    } else {
      assert s == u;
    }
  }

  lemma IntegerPrefixOfDigits(d: string, rest: string)
    requires d != [] && AllDigitsIn(d, 10)
    requires rest == [] || (!IsDigitIn(rest[0], 10) && (d == "0" ==> rest[0] != 'x' && rest[0] != 'X'))
    ensures IntegerPrefix(d + rest, 0) == Some(DigitsValue(d, 10))
  {
    var u := d + rest;
    assert |u| >= 2 && u[0] == '0' ==> u[1] != 'x' && u[1] != 'X' by {
      if |d| >= 2 {
        assert u[1] == d[1];
      } else if |u| >= 2 && u[0] == '0' {
        assert u[1] == rest[0];
        assert d == "0";
      }
    }
    DigitRunOfDigits(d, rest, 10);
    assert u[..|d|] == d;
  }

  /**
   * `parseInt` with no radix reads a decimal integer prefix: a signed run of
   * digits followed by anything that is neither a digit nor, after a lone
   * "0", an 'x' gives the signed value of the digits.
   */
  lemma ParseIntReadsDigits(negative: bool, d: string, rest: string)
    requires d != [] && AllDigitsIn(d, 10)
    requires rest == [] || (!IsDigitIn(rest[0], 10) && (d == "0" ==> rest[0] != 'x' && rest[0] != 'X'))
    ensures ParseInt(SignString(negative) + d + rest, 0)
         == Val(Signed(negative, DigitsValue(d, 10) as real))
  {
    var s := SignString(negative) + d + rest;
    assert s == SignString(negative) + (d + rest);
    UnsignedStart(negative, d + rest);
    IntegerPrefixOfDigits(d, rest);
    ParseIntOfPrefix(s, negative, d + rest, DigitsValue(d, 10));
  }

  /** `parseInt` with no radix, once the sign and the digits it reads are known. */
  lemma ParseIntOfPrefix(s: string, negative: bool, u: string, m: nat)
    requires SplitSign(TrimStart(s)) == (negative, u) && IntegerPrefix(u, 0) == Some(m)
    ensures ParseInt(s, 0) == Val(Signed(negative, m as real))
  {
    ToInt32Small(0);
  }

  lemma ToInt32Small(x: int)
    requires -0x8000_0000 <= x < 0x8000_0000
    ensures ToInt32(x) == x
  {
  }

  /** `parseInt` of a run of decimal digits alone, with no radix, is the value of the digits. */
  lemma ParseIntDecimalRun(d: string)
    requires d != [] && AllDigitsIn(d, 10)
    ensures ParseInt(d, 0) == Val(DigitsValue(d, 10) as real)
  {
    ParseIntReadsDigits(false, d, []);
    assert SignString(false) + d + [] == d;
  }

  /** `parseInt(d, 16)` of two hexadecimal digits is their value. */
  lemma ParseIntHexPair(d: string)
    requires |d| == 2 && AllDigitsIn(d, 16)
    ensures ParseInt(d, 16) == Val(DigitsValue(d, 16) as real)
  {
    assert IsDigitIn(d[0], 16) && IsDigitIn(d[1], 16);
    assert !IsWhiteSpace(d[0]) && d[0] != '+' && d[0] != '-';
    assert LeadingSpace(d) == 0;
    assert TrimStart(d) == d;
    assert SplitSign(d) == (false, d);
    ToInt32Small(16);
    assert d[1] != 'x' && d[1] != 'X';
    DigitRunOfDigits(d, [], 16);
    assert d + [] == d;
    assert d[..2] == d;
  }

  lemma UnsignedPrefixInteger(d: string, rest: string)
    requires d != [] && AllDigitsIn(d, 10)
    requires rest == [] || (!IsDigitIn(rest[0], 10) && rest[0] != '.' && rest[0] != 'e' && rest[0] != 'E')
    ensures UnsignedDecimalPrefix(d + rest) == Some(DigitsValue(d, 10) as real)
  {
    var u := d + rest;
    DigitRunOfDigits(d, rest, 10);
    assert u[..|d|] == d;
    assert u[|d|..] == rest;
    assert ExponentValue(rest) == 0;
    DecimalValueUnscaled(DigitsValue(d, 10), 0, 0);
  }

  /**
   * `parseFloat` of a signed run of digits followed by anything that does
   * not continue a decimal literal (a digit, a point, an exponent letter)
   * gives the signed value of the digits.
   */
  lemma ParseFloatReadsInteger(negative: bool, d: string, rest: string)
    requires d != [] && AllDigitsIn(d, 10)
    requires rest == [] || (!IsDigitIn(rest[0], 10) && rest[0] != '.' && rest[0] != 'e' && rest[0] != 'E')
    ensures ParseFloat(SignString(negative) + d + rest)
         == Val(Signed(negative, DigitsValue(d, 10) as real))
  {
    assert SignString(negative) + d + rest == SignString(negative) + (d + rest);
    UnsignedStart(negative, d + rest);
    UnsignedPrefixInteger(d, rest);
  }

  lemma UnsignedPrefixFraction(d: string, f: string, rest: string)
    requires d != [] && AllDigitsIn(d, 10) && AllDigitsIn(f, 10)
    requires rest == [] || (!IsDigitIn(rest[0], 10) && rest[0] != 'e' && rest[0] != 'E')
    ensures UnsignedDecimalPrefix(d + "." + f + rest)
         == Some(DecimalValue(DigitsValue(d, 10), DigitsValue(f, 10), |f|, 0))
  {
    UnsignedPrefixPoint(d, f, rest);
    assert ExponentValue(rest) == 0;
  }

  /**
   * Digits (maybe none), a point and digits (maybe none), not both runs
   * empty: the mantissa is whole part plus fraction, and what follows is
   * read as an exponent part.
   */
  lemma UnsignedPrefixPoint(d: string, f: string, x: string)
    requires AllDigitsIn(d, 10) && AllDigitsIn(f, 10) && (d != [] || f != [])
    requires x == [] || !IsDigitIn(x[0], 10)
    ensures UnsignedDecimalPrefix(d + "." + f + x)
         == Some(DecimalValue(DigitsValue(d, 10), DigitsValue(f, 10), |f|, ExponentValue(x)))
  {
    var u := d + "." + f + x;
    var tail := f + x;
    var i := |d|;
    Associates(d + ".", f, x);
    Associates(d, ".", tail);
    DigitRunOfDigits(d, "." + tail, 10);
    assert u[..i] == d;
    assert u[i] == '.';
    assert u[i + 1..] == tail;
    DigitRunOfDigits(f, x, 10);
    assert tail[..|f|] == f && tail[|f|..] == x;
  }

  /** Digits that no point follows: the digits are the whole mantissa, and what follows is read as an exponent part. */
  lemma UnsignedPrefixNoPoint(d: string, x: string)
    requires d != [] && AllDigitsIn(d, 10)
    requires x == [] || (!IsDigitIn(x[0], 10) && x[0] != '.')
    ensures UnsignedDecimalPrefix(d + x) == Some(DecimalValue(DigitsValue(d, 10), 0, 0, ExponentValue(x)))
  {
    var u := d + x;
    DigitRunOfDigits(d, x, 10);
    assert u[..|d|] == d && u[|d|..] == x;
    if x != [] {
      assert u[|d|] == x[0];
    }
    UnsignedPrefixWhole(u, |d|);
  }

  /**
   * `parseFloat` of a signed run of digits, a point and a run of digits,
   * followed by anything that is neither a digit nor an exponent letter,
   * gives the signed value of integer part and fraction (by
   * DecimalValueUnscaled: integer part + fraction digits / 10^(their count)).
   */
  lemma ParseFloatReadsFraction(negative: bool, d: string, f: string, rest: string)
    requires d != [] && AllDigitsIn(d, 10) && AllDigitsIn(f, 10)
    requires rest == [] || (!IsDigitIn(rest[0], 10) && rest[0] != 'e' && rest[0] != 'E')
    ensures ParseFloat(SignString(negative) + d + "." + f + rest)
         == Val(Signed(negative, DecimalValue(DigitsValue(d, 10), DigitsValue(f, 10), |f|, 0)))
  {
    var u := d + "." + f + rest;
    assert SignString(negative) + d + "." + f + rest == SignString(negative) + u;
    assert u[0] == d[0];
    UnsignedStart(negative, u);
    UnsignedPrefixFraction(d, f, rest);
  }

  /** No sign, a plus or a minus: what `parseFloat` and `parseInt` accept before the digits. */
  predicate IsSign(sign: string)
  {
    sign == "" || sign == "+" || sign == "-"
  }

  /** The value of an exponent part with the given sign and digits. */
  function SignedExponent(eSign: string, e: string): int
  {
    if eSign == "-" then -(DigitsValue(e, 10) as int) else DigitsValue(e, 10)
  }

  /**
   * An exponent part: 'e' or 'E', an optional sign and a run of digits,
   * followed by anything that is not a digit, denotes the signed value of
   * the digits.
   */
  lemma ExponentOf(letter: char, eSign: string, e: string, rest: string)
    requires (letter == 'e' || letter == 'E') && IsSign(eSign)
    requires e != [] && AllDigitsIn(e, 10) && (rest == [] || !IsDigitIn(rest[0], 10))
    ensures ExponentValue([letter] + eSign + e + rest) == SignedExponent(eSign, e)
  {
    var x := [letter] + eSign + e + rest;
    var body := e + rest;
    Associates([letter] + eSign, e, rest);
    Associates([letter], eSign, body);
    assert x[1..] == eSign + body;
    assert SplitSign(eSign + body) == (eSign == "-", body) by {
      if eSign == "" {
        assert eSign + body == body;
        assert body[0] == e[0];
      } else {
        assert (eSign + body)[1..] == body;
      }
    }
    DigitRunOfDigits(e, rest, 10);
    assert body[..|e|] == e;
  }

  /**
   * `parseFloat` of white space, an optional sign and a string that begins
   * a decimal literal: the signed value of the longest decimal prefix.
   */
  lemma ParseFloatOfLiteral(w: string, sign: string, u: string)
    requires AllWhiteSpace(w) && IsSign(sign) && DecimalStart(u)
    ensures UnsignedDecimalPrefix(u).Some?
    ensures ParseFloat(w + sign + u) == Val(Signed(sign == "-", UnsignedDecimalPrefix(u).value))
  {
    Associates(w, sign, u);
    ParseFloatSkipsSpace(w, sign + u);
    SignedStart(sign, u);
    DecimalStartReads(u);
  }

  lemma DecimalStartReads(u: string)
    requires DecimalStart(u)
    ensures UnsignedDecimalPrefix(u).Some?
  {
    if !IsDigitIn(u[0], 10) {
      assert DigitRun(u[1..], 10) > 0;
    }
  }

  /** A string that begins like a decimal literal is not trimmed, and the sign before it is read. */
  lemma SignedStart(sign: string, u: string)
    requires IsSign(sign) && DecimalStart(u)
    ensures SplitSign(TrimStart(sign + u)) == (sign == "-", u)
  {
    var s := sign + u;
    assert s[0] == if sign == "" then u[0] else sign[0];
    assert !IsWhiteSpace(s[0]);
    assert TrimStart(s) == s;
    if sign != "" {
      assert s[1..] == u;
    } else {
      assert s == u;
    }
  }

  /** White space in front makes no difference to `parseFloat`, as for a cell read untrimmed. */
  lemma ParseFloatSkipsSpace(w: string, s: string)
    requires AllWhiteSpace(w)
    ensures ParseFloat(w + s) == ParseFloat(s)
  {
    TrimStartSkips(w, s);
  }

  /**
   * `parseFloat` of white space, an optional sign, an integer mantissa and
   * an exponent part, such as " -12E+3px": the mantissa times 10 to the
   * signed exponent, with the sign applied; what follows is ignored.
   */
  lemma ParseFloatReadsExponent(w: string, sign: string, d: string, letter: char, eSign: string, e: string, rest: string)
    requires AllWhiteSpace(w) && IsSign(sign) && d != [] && AllDigitsIn(d, 10)
    requires (letter == 'e' || letter == 'E') && IsSign(eSign) && e != [] && AllDigitsIn(e, 10)
    requires rest == [] || !IsDigitIn(rest[0], 10)
    ensures ParseFloat(w + sign + (d + ([letter] + eSign + e + rest)))
         == Val(Signed(sign == "-", DecimalValue(DigitsValue(d, 10), 0, 0, SignedExponent(eSign, e))))
  {
    var x := [letter] + eSign + e + rest;
    assert x[0] == letter;
    assert (d + x)[0] == d[0];
    ParseFloatOfLiteral(w, sign, d + x);
    UnsignedPrefixNoPoint(d, x);
    ExponentOf(letter, eSign, e, rest);
  }

  /**
   * `parseFloat` of white space, an optional sign, digits, a point, digits
   * (one of the two runs maybe empty) and an exponent part, such as
   * "1.5e3" or ".5E-2": whole part plus fraction, times 10 to the signed
   * exponent, with the sign applied; what follows is ignored.
   */
  lemma ParseFloatReadsScientific(w: string, sign: string, d: string, f: string,
                                  letter: char, eSign: string, e: string, rest: string)
    requires AllWhiteSpace(w) && IsSign(sign) && AllDigitsIn(d, 10) && AllDigitsIn(f, 10) && (d != [] || f != [])
    requires (letter == 'e' || letter == 'E') && IsSign(eSign) && e != [] && AllDigitsIn(e, 10)
    requires rest == [] || !IsDigitIn(rest[0], 10)
    ensures ParseFloat(w + sign + (d + "." + f + ([letter] + eSign + e + rest)))
         == Val(Signed(sign == "-", DecimalValue(DigitsValue(d, 10), DigitsValue(f, 10), |f|, SignedExponent(eSign, e))))
  {
    var x := [letter] + eSign + e + rest;
    var u := d + "." + f + x;
    assert x[0] == letter;
    assert DecimalStart(u) by {
      if d != [] {
        assert u[0] == d[0];
      } else {
        assert u == "." + f + x;
        assert u[1] == f[0];
      }
    }
    ParseFloatOfLiteral(w, sign, u);
    UnsignedPrefixPoint(d, f, x);
    ExponentOf(letter, eSign, e, rest);
  }

  /** How `UnsignedDecimalPrefix` reads digits that no point follows. */
  lemma UnsignedPrefixWhole(u: string, i: nat)
    requires 0 < i <= |u| && DigitRun(u, 10) == i && !(i < |u| && u[i] == '.')
    ensures UnsignedDecimalPrefix(u) == Some(DecimalValue(DigitsValue(u[..i], 10), 0, 0, ExponentValue(u[i..])))
  {
  }

  /** A leading minus sign negates what `parseFloat` reads from the rest. */
  lemma ParseFloatNegative(u: string)
    requires u == [] || (!IsWhiteSpace(u[0]) && u[0] != '+' && u[0] != '-')
    ensures ParseFloat("-" + u) == match ParseFloat(u) case NaN => NaN case Val(x) => Val(-x)
  {
    assert TrimStart("-" + u) == "-" + u;
    assert SplitSign("-" + u) == (true, u) by { assert ("-" + u)[1..] == u; }
    assert TrimStart(u) == u;
  }

  /** A leading plus sign makes no difference to `parseFloat`. */
  lemma ParseFloatPlus(u: string)
    requires u == [] || (!IsWhiteSpace(u[0]) && u[0] != '+' && u[0] != '-')
    ensures ParseFloat("+" + u) == ParseFloat(u)
  {
    assert TrimStart("+" + u) == "+" + u;
    assert SplitSign("+" + u) == (false, u) by { assert ("+" + u)[1..] == u; }
    assert TrimStart(u) == u;
  }
}
