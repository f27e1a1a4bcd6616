/**
 * `getContrastYIQ`: the text colour drawn on a bar or bubble of a given fill
 * colour. The red, green and blue components are read from an `rgb(...)`
 * string or a `#RRGGBB` string, weighted 299, 587 and 114 per thousand, and
 * black is chosen when the weighted sum reaches 128.
 */
module Contrast {
  import opened Values
  import opened JsStrings
  import opened JsNumbers

  datatype TextColor = Black | White

  /**
   * `color.match(/\d+/g)`: the maximal runs of decimal digits, left to
   * right. The empty sequence stands for the null that `match` returns when
   * there is no run.
   */
  function DigitRuns(s: string): (runs: seq<string>)
    ensures forall k :: 0 <= k < |runs| ==> runs[k] != [] && AllDigitsIn(runs[k], 10)
    decreases |s|
  {
    if s == [] then []
    else if !IsDigitIn(s[0], 10) then DigitRuns(s[1..])
    else
      var n := DigitRun(s, 10);
      [s[..n]] + DigitRuns(s[n..])
  }

  /** `parseInt(rgb[i])`: an index past the end reads as undefined, which parses as NaN. */
  function Channel(runs: seq<string>, i: nat): Num
  {
    if i < |runs| then ParseInt(runs[i], 0) else ParseInt("undefined", 0)
  }

  /** `((r * 299) + (g * 587) + (b * 114)) / 1000`; NaN in any component makes it NaN. */
  function Yiq(r: Num, g: Num, b: Num): Num
  {
    if r.Val? && g.Val? && b.Val? then Val((r.v * 299.0 + g.v * 587.0 + b.v * 114.0) / 1000.0) else NaN
  }

  /** `yiq >= 128 ? 'black' : 'white'`: a comparison with NaN is false. */
  function Threshold(yiq: Num): TextColor
  {
    if yiq.Val? && yiq.v >= 128.0 then Black else White
  }

  /**
   * `getContrastYIQ(color)`. Indexing the null of a colour that starts with
   * "rgb" but holds no digit throws; a colour with neither prefix leaves the
   * components undefined, so the luminance is NaN.
   */
  function ContrastYIQ(color: string): Outcome<TextColor>
  {
    if StartsWith(color, "rgb") then
      var runs := DigitRuns(color);
      if runs == [] then TypeError
      else Ok(Threshold(Yiq(Channel(runs, 0), Channel(runs, 1), Channel(runs, 2))))
    else if StartsWith(color, "#") then
      var hex := SliceFrom1(color);
      Ok(Threshold(Yiq(ParseInt(Substr(hex, 0, 2), 16), ParseInt(Substr(hex, 2, 2), 16),
                       ParseInt(Substr(hex, 4, 2), 16))))
    else
      Ok(Threshold(Yiq(NaN, NaN, NaN)))
  }

  /** The threshold on whole-number components, in integers: the division by 1000 is exact. */
  lemma ThresholdOfIntegers(r: nat, g: nat, b: nat)
    ensures Threshold(Yiq(Val(r as real), Val(g as real), Val(b as real)))
         == if 299 * r + 587 * g + 114 * b >= 128000 then Black else White
  {
    var sum := 299 * r + 587 * g + 114 * b;
    assert (r as real) * 299.0 + (g as real) * 587.0 + (b as real) * 114.0 == sum as real;
  }

  /**
   * A `#RRGGBB` colour (anything may follow the six digits) gives black
   * exactly when 299 r + 587 g + 114 b reaches 128000, where r, g and b are
   * the hexadecimal pairs.
   */
  lemma HexContrast(h: string, rest: string)
    requires |h| == 6 && AllDigitsIn(h, 16)
    ensures var r, g, b := DigitsValue(h[0..2], 16), DigitsValue(h[2..4], 16), DigitsValue(h[4..6], 16);
      ContrastYIQ("#" + h + rest) == Ok(if 299 * r + 587 * g + 114 * b >= 128000 then Black else White)
  {
    var color := "#" + h + rest;
    assert color[0] == '#';
    assert !StartsWith(color, "rgb");
    assert StartsWith(color, "#");
    var hex := SliceFrom1(color);
    assert hex == h + rest;
    assert Substr(hex, 0, 2) == h[0..2];
    assert Substr(hex, 2, 2) == h[2..4];
    assert Substr(hex, 4, 2) == h[4..6];
    ParseIntHexPair(h[0..2]);
    ParseIntHexPair(h[2..4]);
    ParseIntHexPair(h[4..6]);
    ThresholdOfIntegers(DigitsValue(h[0..2], 16), DigitsValue(h[2..4], 16), DigitsValue(h[4..6], 16));
  }

  /**
   * An `rgb(...)` colour: with no digit run the call throws; with fewer than
   * three runs it gives white; otherwise the first three runs are the
   * components and the same threshold applies.
   */
  lemma RgbContrast(color: string)
    requires StartsWith(color, "rgb")
    ensures var runs := DigitRuns(color);
      (runs == [] <==> ContrastYIQ(color).TypeError?) &&
      (0 < |runs| < 3 ==> ContrastYIQ(color) == Ok(White)) &&
      (|runs| >= 3 ==>
        var r, g, b := DigitsValue(runs[0], 10), DigitsValue(runs[1], 10), DigitsValue(runs[2], 10);
        ContrastYIQ(color) == Ok(if 299 * r + 587 * g + 114 * b >= 128000 then Black else White))
  {
    var runs := DigitRuns(color);
    UndefinedIsNaN();
    if |runs| >= 3 {
      ParseIntDecimalRun(runs[0]);
      ParseIntDecimalRun(runs[1]);
      ParseIntDecimalRun(runs[2]);
      ThresholdOfIntegers(DigitsValue(runs[0], 10), DigitsValue(runs[1], 10), DigitsValue(runs[2], 10));
    }
  }

  /**
   * The runs are the maximal ones: a run of digits d with a non-digit (or
   * nothing) on either side comes out whole, between the runs of what lies
   * before it and the runs of what lies after it.
   */
  lemma DigitRunsSplit(p: string, d: string, q: string)
    requires d != [] && AllDigitsIn(d, 10)
    requires p == [] || !IsDigitIn(p[|p| - 1], 10)
    requires q == [] || !IsDigitIn(q[0], 10)
    ensures DigitRuns(p + d + q) == DigitRuns(p) + [d] + DigitRuns(q)
  {
    DigitRunsAppend(p, d + q);
    SplitAtRun(d, q);
    Associates(p, d, q);
    Associates(DigitRuns(p), [d], DigitRuns(q));
  }

  /** After a non-digit (or nothing) a new run starts, so the runs of p + r are those of p, then those of r. */
  lemma {:induction false} DigitRunsAppend(p: string, r: string)
    requires p == [] || !IsDigitIn(p[|p| - 1], 10)
    ensures DigitRuns(p + r) == DigitRuns(p) + DigitRuns(r)
    decreases |p|
  {
    if p == [] {
      assert p + r == r;
    } else if !IsDigitIn(p[0], 10) {
      DigitRunsAppend(p[1..], r);
      AppendSkip(p, r);
    } else {
      var m := DigitRun(p, 10);
      RunEndsInside(p);
      DigitRunsAppend(p[m..], r);
      AppendPastRun(p, r, m);
    }
  }

  /** A string that ends in a non-digit has its first digit run end inside it. */
  lemma RunEndsInside(p: string)
    requires p != [] && !IsDigitIn(p[|p| - 1], 10)
    ensures DigitRun(p, 10) < |p|
  {
    assert p[..|p|][|p| - 1] == p[|p| - 1];
  }

  lemma SplitAtRun(d: string, q: string)
    requires d != [] && AllDigitsIn(d, 10)
    requires q == [] || !IsDigitIn(q[0], 10)
    ensures DigitRuns(d + q) == [d] + DigitRuns(q)
  {
    var s := d + q;
    DigitRunOfDigits(d, q, 10);
    assert s[..|d|] == d && s[|d|..] == q;
  }

  lemma AppendSkip(p: string, r: string)
    requires p != [] && !IsDigitIn(p[0], 10)
    requires DigitRuns(p[1..] + r) == DigitRuns(p[1..]) + DigitRuns(r)
    ensures DigitRuns(p + r) == DigitRuns(p) + DigitRuns(r)
  {
    TailOfConcat(p, r);
    DigitRunsSkip(p + r);
    DigitRunsSkip(p);
  }

  lemma TailOfConcat(p: string, r: string)
    requires p != []
    ensures (p + r)[0] == p[0] && (p + r)[1..] == p[1..] + r
  {
  }

  /** A leading non-digit contributes no run. */
  lemma DigitRunsSkip(s: string)
    requires s != [] && !IsDigitIn(s[0], 10)
    ensures DigitRuns(s) == DigitRuns(s[1..])
  {
  }

  lemma AppendPastRun(p: string, r: string, m: nat)
    requires p != [] && IsDigitIn(p[0], 10) && m == DigitRun(p, 10) && m < |p|
    requires DigitRuns(p[m..] + r) == DigitRuns(p[m..]) + DigitRuns(r)
    ensures DigitRuns(p + r) == DigitRuns(p) + DigitRuns(r)
  {
    var s := p + r;
    DigitRunStops(p, r, 10);
    assert s[0] == p[0];
    assert p == p[..m] + p[m..];
    Associates(p[..m], p[m..], r);
    assert s[..m] == p[..m];
    assert s[m..] == p[m..] + r;
    assert DigitRuns(s) == [p[..m]] + (DigitRuns(p[m..]) + DigitRuns(r));
  }

  /** A digit run that ends inside p is not lengthened by what follows p. */
  lemma DigitRunStops(p: string, r: string, radix: nat)
    requires DigitRun(p, radix) < |p|
    ensures DigitRun(p + r, radix) == DigitRun(p, radix)
  {
    var m := DigitRun(p, radix);
    assert p == p[..m] + p[m..];
    assert p + r == p[..m] + (p[m..] + r);
    DigitRunOfDigits(p[..m], p[m..] + r, radix);
  }

  /** A string with no digit has no run. */
  lemma {:induction false} DigitRunsNone(p: string)
    requires forall k :: 0 <= k < |p| ==> !IsDigitIn(p[k], 10)
    ensures DigitRuns(p) == []
  {
    if p != [] {
      DigitRunsNone(p[1..]);
    }
  }

  /** The runs of `rgb(R, G, B)` are exactly R, G and B. */
  lemma RgbRuns(r: string, g: string, b: string)
    requires r != [] && AllDigitsIn(r, 10) && g != [] && AllDigitsIn(g, 10) && b != [] && AllDigitsIn(b, 10)
    ensures DigitRuns("rgb(" + r + ", " + g + ", " + b + ")") == [r, g, b]
  {
    var open, sep, close := "rgb(", ", ", ")";
    NoDigits(open);
    NoDigits(sep);
    NoDigits(close);
    var tail := sep + b + close;
    assert tail[0] == ',';
    DigitRunsSplit(sep, b, close);
    assert DigitRuns(tail) == [b];
    var middle := sep + g + tail;
    assert middle[0] == ',';
    DigitRunsSplit(sep, g, tail);
    assert DigitRuns(middle) == [g, b];
    DigitRunsSplit(open, r, middle);
    assert DigitRuns(open + r + middle) == [r, g, b];
    var front := open + r + sep + g;
    Associates(front, sep, b);
    Associates(front, sep + b, close);
    Associates(open + r + sep, g, tail);
    Associates(open + r, sep, g + tail);
    Associates(sep, g, tail);
  }

  lemma NoDigits(w: string)
    requires w == "rgb(" || w == ", " || w == ")"
    ensures w[0] != '0' && forall k :: 0 <= k < |w| ==> !IsDigitIn(w[k], 10)
    ensures DigitRuns(w) == []
  {
    DigitRunsNone(w);
  }

  /** `rgb(R, G, B)` gives black exactly when 299 R + 587 G + 114 B reaches 128000. */
  lemma RgbLiteralContrast(r: string, g: string, b: string)
    requires r != [] && AllDigitsIn(r, 10) && g != [] && AllDigitsIn(g, 10) && b != [] && AllDigitsIn(b, 10)
    ensures var x, y, z := DigitsValue(r, 10), DigitsValue(g, 10), DigitsValue(b, 10);
      ContrastYIQ("rgb(" + r + ", " + g + ", " + b + ")")
        == Ok(if 299 * x + 587 * y + 114 * z >= 128000 then Black else White)
  {
    var color := "rgb(" + r + ", " + g + ", " + b + ")";
    assert color[..3] == "rgb";
    RgbRuns(r, g, b);
    RgbContrast(color);
  }

  lemma UndefinedIsNaN()
    ensures ParseInt("undefined", 0).NaN?
  {
    ParseIntNaN("undefined");
    assert LeadingSpace("undefined") == 0;
  }

  /** A colour that is neither `rgb(...)` nor `#...` always gives white. */
  lemma OtherContrast(color: string)
    requires !StartsWith(color, "rgb") && !StartsWith(color, "#")
    ensures ContrastYIQ(color) == Ok(White)
  {
  }

  /** The digits of a string, in order. */
  function Digits(s: string): (d: string)
    ensures AllDigitsIn(d, 10)
  {
    if s == [] then [] else (if IsDigitIn(s[0], 10) then [s[0]] else []) + Digits(s[1..])
  }

  function Concat(runs: seq<string>): string
  {
    if runs == [] then [] else runs[0] + Concat(runs[1..])
  }

  /** The runs hold every digit of the string, in order, and nothing else. */
  lemma {:induction false} DigitRunsCoverDigits(s: string)
    ensures Concat(DigitRuns(s)) == Digits(s)
    decreases |s|
  {
    if s != [] {
      if !IsDigitIn(s[0], 10) {
        DigitRunsCoverDigits(s[1..]);
      } else {
        var n := DigitRun(s, 10);
        DigitRunsCoverDigits(s[n..]);
        assert s == s[..n] + s[n..];
        DigitsAppend(s[..n], s[n..]);
        DigitsOfDigits(s[..n]);
        assert DigitRuns(s) == [s[..n]] + DigitRuns(s[n..]);
        assert ([s[..n]] + DigitRuns(s[n..]))[1..] == DigitRuns(s[n..]);
      }
    }
  }

  lemma {:induction false} DigitsAppend(a: string, b: string)
    ensures Digits(a + b) == Digits(a) + Digits(b)
  {
    if a == [] {
      assert a + b == b;
      assert Digits(a) + Digits(b) == Digits(b);
    } else {
      assert (a + b)[0] == a[0];
      assert (a + b)[1..] == a[1..] + b;
      var h := if IsDigitIn(a[0], 10) then [a[0]] else [];
      var x, y := Digits(a[1..]), Digits(b);
      DigitsAppend(a[1..], b);
      assert Digits(a + b) == h + (x + y);
      assert h + (x + y) == (h + x) + y;
    }
  }

  lemma {:induction false} DigitsOfDigits(d: string)
    requires AllDigitsIn(d, 10)
    ensures Digits(d) == d
  {
    if d != [] {
      DigitsOfDigits(d[1..]);
      assert d == [d[0]] + d[1..];
    }
  }
}
