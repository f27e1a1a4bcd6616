/**
 * The two cell parsers of script.js, `parseNumber` (GDP per capita) and
 * `parsePopulation`, and `parseFloat` applied to a cell of any type.
 */
module CellParsers {
  import opened Values
  import opened JsStrings
  import opened JsNumbers

  /**
   * `parseFloat(v)` for a value of any type. parseFloat converts its
   * argument with ToString first; a number's string form reads back as the
   * number itself, and the string forms of undefined, null, true and false
   * have no numeric prefix.
   */
  function ParseFloatOf(v: JsValue): (r: Num)
    ensures v.Number? ==> r == Val(v.n)
    ensures !v.Number? && !v.Str? ==> r.NaN?
  {
    match v
    case Number(n) => Val(n)
    case Str(s) => ParseFloat(s)
    case Undefined => WordIsNaN("undefined"); ParseFloat("undefined")
    case Null => WordIsNaN("null"); ParseFloat("null")
    case Bool(b) =>
      var t := if b then "true" else "false";
      WordIsNaN(t);
      ParseFloat(t)
  }

  /**
   * The number case of `ParseFloatOf` agrees with reading the number's
   * string form, shown here for whole numbers and their decimal form.
   */
  lemma ParseFloatOfWholeNumber(n: nat)
    ensures ParseFloat(DecimalString(n)) == ParseFloatOf(Number(n as real))
  {
    var d := DecimalString(n);
    DecimalStringValue(n);
    assert ParseFloat(d) == Val(DigitsValue(d, 10) as real) by {
      ParseFloatReadsInteger(false, d, []);
      AppendEmpty(d);
      assert SignString(false) + d + [] == d;
    }
  }

  /** A string that starts with a letter has no numeric prefix. */
  lemma WordIsNaN(t: string)
    requires t != [] && 'a' <= t[0] <= 'z'
    ensures ParseFloat(t).NaN?
  {
    assert !IsWhiteSpace(t[0]);
    assert LeadingSpace(t) == 0;
    assert TrimStart(t) == t;
    assert SplitSign(t) == (false, t);
    assert !IsDigitIn(t[0], 10);
    ParseFloatNaN(t);
  }

  /**
   * `parseNumber`: NaN for null and undefined, a number unchanged, and for a
   * string `parseFloat` of it with every '$' and every ',' removed and then
   * trimmed. Any other value (a boolean) gives NaN.
   */
  function ParseNumber(v: JsValue): (r: Num)
    ensures v.Undefined? || v.Null? || v.Bool? ==> r.NaN?
    ensures v.Number? ==> r == Val(v.n)
  {
    match v
    case Str(s) => ParseFloat(Trim(RemoveAll(RemoveAll(s, '$'), ',')))
    case Number(n) => Val(n)
    case _ => NaN
  }

  /**
   * `parsePopulation`: as `parseNumber`, but only ',' is removed and the
   * string is read by `parseInt` with no radix, so what a string gives is
   * always a whole number.
   */
  function ParsePopulation(v: JsValue): (r: Num)
    ensures v.Undefined? || v.Null? || v.Bool? ==> r.NaN?
    ensures v.Number? ==> r == Val(v.n)
    ensures v.Str? && r.Val? ==> r.v == r.v.Floor as real
  {
    match v
    case Str(s) => ParseInt(Trim(RemoveAll(s, ',')), 0)
    case Number(n) => Val(n)
    case _ => NaN
  }

  /** A '$' or ',' anywhere in a GDP string makes no difference. */
  lemma ParseNumberIgnoresSymbol(a: string, c: char, b: string)
    requires c == '$' || c == ','
    ensures ParseNumber(Str(a + [c] + b)) == ParseNumber(Str(a + b))
  {
    StripIgnoresSymbol(a, c, b);
  }

  lemma StripIgnoresSymbol(a: string, c: char, b: string)
    requires c == '$' || c == ','
    ensures RemoveAll(RemoveAll(a + [c] + b, '$'), ',') == RemoveAll(RemoveAll(a + b, '$'), ',')
  {
    if c == '$' {
      RemoveAllDrops(a, c, b);
    } else {
      RemoveAllKeepsOther(a, c, b, '$');
      RemoveAllAppend(a, b, '$');
      RemoveAllDrops(RemoveAll(a, '$'), c, RemoveAll(b, '$'));
    }
  }

  /** A ',' anywhere in a population string makes no difference. */
  lemma ParsePopulationIgnoresComma(a: string, b: string)
    ensures ParsePopulation(Str(a + "," + b)) == ParsePopulation(Str(a + b))
  {
    RemoveAllDrops(a, ',', b);
    assert a + "," + b == a + [','] + b;
  }

  /** `parsePopulation` does not strip '$': a population string starting with it is NaN. */
  lemma ParsePopulationKeepsDollar(s: string)
    ensures ParsePopulation(Str("$" + s)).NaN?
  {
    RemoveAllAppend("$", s, ',');
    RemoveAllSingle('$', ',');
    var t := RemoveAll("$" + s, ',');
    assert t == "$" + RemoveAll(s, ',');
    assert !IsWhiteSpace(t[0]);
    assert LeadingSpace(t) == 0;
    assert TrimStart(t) == t;
    var r := Trim(t);
    TrimKeepsFirst(t);
    assert r[0] == '$';
    assert SplitSign(TrimStart(r)).1 == r by {
      assert LeadingSpace(r) == 0;
    }
    ParseIntNaN(r);
  }

  /** A character neither parser strips or trims: a digit, a point, a minus sign or an exponent letter. */
  predicate PlainChar(c: char)
  {
    IsDigitIn(c, 10) || c == '.' || c == '-' || c == 'e'
  }

  predicate AllPlain(s: string)
  {
    forall i :: 0 <= i < |s| ==> PlainChar(s[i])
  }

  lemma AllPlainAppend(a: string, b: string)
    requires AllPlain(a) && AllPlain(b)
    ensures AllPlain(a + b)
  {
    forall i | 0 <= i < |a + b| ensures PlainChar((a + b)[i]) {
      if i < |a| { assert (a + b)[i] == a[i]; } else { assert (a + b)[i] == b[i - |a|]; }
    }
  }

  lemma DigitsArePlain(d: string)
    requires AllDigitsIn(d, 10)
    ensures AllPlain(d)
  {
  }

  lemma SignIsPlain(negative: bool)
    ensures AllPlain(SignString(negative))
  {
  }

  /** A string of plain characters has no symbol to remove and no white space to trim. */
  lemma CleanOfPlain(s: string)
    requires AllPlain(s)
    ensures RemoveAll(s, '$') == s && RemoveAll(s, ',') == s && Trim(s) == s
  {
    PlainHasNoSymbol(s);
    RemoveAllAbsent(s, ',');
    RemoveAllAbsent(s, '$');
    PlainIsUnpadded(s);
    TrimPadded("", s, "");
    assert "" + s + "" == s;
  }

  lemma PlainHasNoSymbol(s: string)
    requires AllPlain(s)
    ensures ',' !in s && '$' !in s
  {
    forall i | 0 <= i < |s| ensures s[i] != ',' && s[i] != '$' { assert PlainChar(s[i]); }
  }

  lemma PlainIsUnpadded(s: string)
    requires AllPlain(s)
    ensures Unpadded(s)
  {
    if s != [] {
      assert PlainChar(s[0]) && PlainChar(s[|s| - 1]);
    }
  }

  /** A signed run of digits is a plain string. */
  lemma SignedDigitsPlain(negative: bool, d: string)
    requires AllDigitsIn(d, 10)
    ensures AllPlain(SignString(negative) + d)
  {
    SignIsPlain(negative);
    DigitsArePlain(d);
    AllPlainAppend(SignString(negative), d);
  }

  /** A signed run of digits has no symbol to remove and no white space to trim. */
  lemma SignedDigitsClean(negative: bool, d: string)
    requires AllDigitsIn(d, 10)
    ensures var s := SignString(negative) + d; RemoveAll(s, '$') == s && RemoveAll(s, ',') == s && Trim(s) == s
  {
    SignedDigitsPlain(negative, d);
    CleanOfPlain(SignString(negative) + d);
  }

  /** A signed run of digits, a point and a run of digits is a plain string. */
  lemma SignedDecimalPlain(negative: bool, d: string, f: string)
    requires AllDigitsIn(d, 10) && AllDigitsIn(f, 10)
    ensures AllPlain(SignString(negative) + d + "." + f)
  {
    SignedDigitsPlain(negative, d);
    AllPlainAppend(SignString(negative) + d, ".");
    DigitsArePlain(f);
    AllPlainAppend(SignString(negative) + d + ".", f);
  }

  /** A signed run of digits, a point and a run of digits has no symbol to remove and no white space to trim. */
  lemma SignedDecimalClean(negative: bool, d: string, f: string)
    requires AllDigitsIn(d, 10) && AllDigitsIn(f, 10)
    ensures var s := SignString(negative) + d + "." + f; RemoveAll(s, '$') == s && RemoveAll(s, ',') == s && Trim(s) == s
  {
    SignedDecimalPlain(negative, d, f);
    CleanOfPlain(SignString(negative) + d + "." + f);
  }

  /** A signed whole GDP figure such as "-42" reads as its value. */
  lemma ParseNumberOfInteger(negative: bool, d: string)
    requires d != [] && AllDigitsIn(d, 10)
    ensures ParseNumber(Str(SignString(negative) + d)) == Val(Signed(negative, DigitsValue(d, 10) as real))
  {
    var s := SignString(negative) + d;
    SignedDigitsClean(negative, d);
    ParseNumberOfClean(s);
    ParseFloatReadsInteger(negative, d, []);
    assert s + [] == s;
  }

  /** A signed population such as "-42" reads as its value. */
  lemma ParsePopulationOfInteger(negative: bool, d: string)
    requires d != [] && AllDigitsIn(d, 10)
    ensures ParsePopulation(Str(SignString(negative) + d)) == Val(Signed(negative, DigitsValue(d, 10) as real))
  {
    var s := SignString(negative) + d;
    SignedDigitsClean(negative, d);
    ParsePopulationOfClean(s);
    ParseIntReadsDigits(negative, d, []);
    assert s + [] == s;
  }

  /** A signed decimal GDP figure such as "-12.5" reads as its exact value. */
  lemma ParseNumberOfDecimal(negative: bool, d: string, f: string)
    requires d != [] && AllDigitsIn(d, 10) && AllDigitsIn(f, 10)
    ensures ParseNumber(Str(SignString(negative) + d + "." + f))
         == Val(Signed(negative, DecimalValue(DigitsValue(d, 10), DigitsValue(f, 10), |f|, 0)))
  {
    var s := SignString(negative) + d + "." + f;
    SignedDecimalClean(negative, d, f);
    ParseNumberOfClean(s);
    ParseFloatReadsFraction(negative, d, f, []);
    assert s + [] == s;
  }

  /** A fractional population is truncated: a signed "d.f" gives the signed whole part. */
  lemma ParsePopulationTruncates(negative: bool, d: string, f: string)
    requires d != [] && AllDigitsIn(d, 10) && AllDigitsIn(f, 10)
    ensures ParsePopulation(Str(SignString(negative) + d + "." + f)) == Val(Signed(negative, DigitsValue(d, 10) as real))
  {
    var s := SignString(negative) + d + "." + f;
    SignedDecimalClean(negative, d, f);
    ParsePopulationOfClean(s);
    Associates(SignString(negative) + d, ".", f);
    ParseIntReadsDigits(negative, d, "." + f);
  }


  /** A GDP figure in exponent notation such as "12e-3" reads as mantissa times 10 to the exponent. */
  lemma ParseNumberOfExponent(negative: bool, d: string, eNegative: bool, e: string)
    requires d != [] && AllDigitsIn(d, 10) && e != [] && AllDigitsIn(e, 10)
    ensures ParseNumber(Str(SignString(negative) + d + "e" + SignString(eNegative) + e))
         == Val(Signed(negative, DecimalValue(DigitsValue(d, 10), 0, 0, SignedExponent(SignString(eNegative), e))))
  {
    ExponentClean(negative, d, eNegative, e);
    ExponentFloat(negative, d, eNegative, e);
  }

  lemma ExponentClean(negative: bool, d: string, eNegative: bool, e: string)
    requires AllDigitsIn(d, 10) && AllDigitsIn(e, 10)
    ensures var s := SignString(negative) + d + "e" + SignString(eNegative) + e;
      ParseNumber(Str(s)) == ParseFloat(s)
  {
    var s := SignString(negative) + d + "e" + SignString(eNegative) + e;
    SignedDigitsPlain(negative, d);
    AllPlainAppend(SignString(negative) + d, "e");
    SignedDigitsPlain(eNegative, e);
    AllPlainAppend(SignString(negative) + d + "e", SignString(eNegative) + e);
    assert s == SignString(negative) + d + "e" + (SignString(eNegative) + e);
    CleanOfPlain(s);
    ParseNumberOfClean(s);
  }

  lemma ExponentFloat(negative: bool, d: string, eNegative: bool, e: string)
    requires d != [] && AllDigitsIn(d, 10) && e != [] && AllDigitsIn(e, 10)
    ensures ParseFloat(SignString(negative) + d + "e" + SignString(eNegative) + e)
         == Val(Signed(negative, DecimalValue(DigitsValue(d, 10), 0, 0, SignedExponent(SignString(eNegative), e))))
  {
    assert IsSign(SignString(negative)) && IsSign(SignString(eNegative));
    assert AllWhiteSpace("");
    ParseFloatReadsExponent("", SignString(negative), d, 'e', SignString(eNegative), e, []);
    ExponentText(SignString(negative), d, SignString(eNegative), e);
    assert (SignString(negative) == "-") == negative;
  }

  lemma ExponentText(sign: string, d: string, eSign: string, e: string)
    ensures sign + d + "e" + eSign + e == "" + sign + (d + (['e'] + eSign + e + []))
  {
    var x := ['e'] + eSign + e;
    AppendEmpty(x);
    Associates(sign, d, x);
    AppendEmpty(sign + (d + x));
    Associates(sign + d, ['e'] + eSign, e);
    Associates(sign + d, ['e'], eSign);
  }

  /** With the characters of a GDP cell digits, ',' and '$', what is left once both symbols are removed is digits. */
  lemma StrippedDigits(a: string)
    requires forall i :: 0 <= i < |a| ==> IsDigitIn(a[i], 10) || a[i] == ',' || a[i] == '$'
    ensures AllDigitsIn(RemoveAll(RemoveAll(a, '$'), ','), 10)
  {
    var a1 := RemoveAll(a, '$');
    var d := RemoveAll(a1, ',');
    RemoveAllFrom(a, '$');
    RemoveAllFrom(a1, ',');
    forall i | 0 <= i < |d| ensures IsDigitIn(d[i], 10) {
      var j :| 0 <= j < |a1| && a1[j] == d[i];
      var k :| 0 <= k < |a| && a[k] == a1[j];
    }
  }

  /** A population with thousands separators, such as "1,234,567", reads as its digits. */
  lemma ParsePopulationGrouped(a: string)
    requires forall i :: 0 <= i < |a| ==> IsDigitIn(a[i], 10) || a[i] == ','
    requires RemoveAll(a, ',') != []
    ensures ParsePopulation(Str(a)) == Val(DigitsValue(RemoveAll(a, ','), 10) as real)
  {
    var d := RemoveAll(a, ',');
    RemoveAllFrom(a, ',');
    forall i | 0 <= i < |d| ensures IsDigitIn(d[i], 10) {
      var k :| 0 <= k < |a| && a[k] == d[i];
    }
    DigitsArePlain(d);
    CleanOfPlain(d);
    ParsePopulationOfStripped(a, d);
    ParseIntDecimalRun(d);
  }

  /** A whole GDP figure with a dollar sign and thousands separators, such as "$65,000", reads as its digits. */
  lemma ParseNumberGrouped(a: string)
    requires forall i :: 0 <= i < |a| ==> IsDigitIn(a[i], 10) || a[i] == ',' || a[i] == '$'
    requires RemoveAll(RemoveAll(a, '$'), ',') != []
    ensures ParseNumber(Str(a)) == Val(DigitsValue(RemoveAll(RemoveAll(a, '$'), ','), 10) as real)
  {
    var d := RemoveAll(RemoveAll(a, '$'), ',');
    StrippedDigits(a);
    SignedDigitsClean(false, d);
    UnsignedDigits(d);
    ParseNumberOfStripped(a, d);
    ParseFloatReadsInteger(false, d, []);
  }

  lemma UnsignedDigits(d: string)
    ensures SignString(false) + d == d
    ensures SignString(false) + d + [] == d
  {
    assert SignString(false) == "";
  }

  /** A GDP figure such as "$12,345.67" reads as its digits, the point and the fraction digits. */
  lemma ParseNumberGroupedDecimal(a: string, f: string)
    requires forall i :: 0 <= i < |a| ==> IsDigitIn(a[i], 10) || a[i] == ',' || a[i] == '$'
    requires RemoveAll(RemoveAll(a, '$'), ',') != [] && AllDigitsIn(f, 10)
    ensures ParseNumber(Str(a + "." + f))
         == Val(DecimalValue(DigitsValue(RemoveAll(RemoveAll(a, '$'), ','), 10), DigitsValue(f, 10), |f|, 0))
  {
    var d := RemoveAll(RemoveAll(a, '$'), ',');
    var s := d + "." + f;
    StripDecimal(a, f);
    StrippedDigits(a);
    SignedDecimalClean(false, d, f);
    UnsignedLiteral(d, f);
    ParseNumberOfStripped(a + "." + f, s);
    ParseFloatReadsFraction(false, d, f, []);
  }

  lemma UnsignedLiteral(d: string, f: string)
    ensures SignString(false) + d + "." + f == d + "." + f
    ensures SignString(false) + d + "." + f + [] == d + "." + f
  {
    assert SignString(false) == "";
  }

  /** Removing both symbols from "a.f" with f digits leaves the point and f alone. */
  lemma StripDecimal(a: string, f: string)
    requires AllDigitsIn(f, 10)
    ensures RemoveAll(RemoveAll(a + "." + f, '$'), ',') == RemoveAll(RemoveAll(a, '$'), ',') + "." + f
  {
    var a1 := RemoveAll(a, '$');
    DigitsArePlain(f);
    CleanOfPlain(f);
    RemoveAllKeepsOther(a, '.', f, '$');
    assert a + "." + f == a + ['.'] + f;
    assert RemoveAll(a + "." + f, '$') == a1 + ['.'] + f;
    RemoveAllKeepsOther(a1, '.', f, ',');
  }

  /** A population string whose commas removed leave a trimmed string reads as that string. */
  lemma ParsePopulationOfStripped(a: string, d: string)
    requires d == RemoveAll(a, ',') && Trim(d) == d
    ensures ParsePopulation(Str(a)) == ParseInt(d, 0)
  {
  }

  /** A GDP string whose symbols removed leave a trimmed string reads as that string. */
  lemma ParseNumberOfStripped(a: string, d: string)
    requires d == RemoveAll(RemoveAll(a, '$'), ',') && Trim(d) == d
    ensures ParseNumber(Str(a)) == ParseFloat(d)
  {
  }

  lemma ParseNumberOfClean(s: string)
    requires RemoveAll(s, '$') == s && Trim(RemoveAll(s, ',')) == s
    ensures ParseNumber(Str(s)) == ParseFloat(s)
  {
  }

  /** A blank GDP cell, the empty string among them, gives NaN. */
  lemma ParseNumberBlank(w: string)
    requires AllWhiteSpace(w)
    ensures ParseNumber(Str(w)).NaN?
  {
    RemoveAllKeeps(w, '$');
    var w1 := RemoveAll(w, '$');
    AllWhiteSpaceKept(w, '$');
    AllWhiteSpaceKept(w1, ',');
    var w2 := RemoveAll(w1, ',');
    TrimPadded(w2, [], []);
    assert w2 + [] + [] == w2;
    ParseFloatNaN([]);
  }

  /** A blank population cell gives NaN. */
  lemma ParsePopulationBlank(w: string)
    requires AllWhiteSpace(w)
    ensures ParsePopulation(Str(w)).NaN?
  {
    AllWhiteSpaceKept(w, ',');
    var w1 := RemoveAll(w, ',');
    TrimPadded(w1, [], []);
    assert w1 + [] + [] == w1;
    ParseIntNaN([]);
  }

  /**
   * `parseNumber` of a string is NaN exactly when, after the symbols are
   * removed and the rest trimmed, no decimal literal begins after an
   * optional sign.
   */
  lemma ParseNumberNaN(s: string)
    ensures ParseNumber(Str(s)).NaN? <==>
      !DecimalStart(SplitSign(Trim(RemoveAll(RemoveAll(s, '$'), ','))).1)
  {
    var t := Trim(RemoveAll(RemoveAll(s, '$'), ','));
    TrimStartOfTrimmed(RemoveAll(RemoveAll(s, '$'), ','));
    ParseFloatNaN(t);
  }

  /**
   * `parsePopulation` of a string is NaN exactly when, after the commas are
   * removed and the rest trimmed, no digit begins after an optional sign
   * (a "0x" prefix reads hexadecimal digits instead).
   */
  lemma ParsePopulationNaN(s: string)
    ensures ParsePopulation(Str(s)).NaN? <==>
      var u := SplitSign(Trim(RemoveAll(s, ','))).1;
      if HexPrefix(u) then |u| == 2 || !IsDigitIn(u[2], 16) else u == [] || !IsDigitIn(u[0], 10)
  {
    TrimStartOfTrimmed(RemoveAll(s, ','));
    ParseIntNaN(Trim(RemoveAll(s, ',')));
  }

  lemma ParsePopulationOfClean(s: string)
    requires Trim(RemoveAll(s, ',')) == s
    ensures ParsePopulation(Str(s)) == ParseInt(s, 0)
  {
  }

}
