/**
 * The string built-ins the pipeline calls: trim, toLowerCase, the global
 * replace of one character, startsWith, slice and substr.
 */
module JsStrings {

  /**
   * WhiteSpace and LineTerminator code points of ECMAScript (section 12.2
   * and 12.3 of ECMA-262): the characters `trim` removes and `parseFloat`
   * and `parseInt` skip.
   */
  predicate IsWhiteSpace(c: char)
  {
    || c == '\t' || c == '\U{000B}' || c == '\U{000C}' || c == ' '
    || c == '\U{00A0}' || c == '\U{FEFF}' || c == '\U{1680}'
    || ('\U{2000}' <= c <= '\U{200A}') || c == '\U{202F}' || c == '\U{205F}' || c == '\U{3000}'
    || c == '\n' || c == '\r' || c == '\U{2028}' || c == '\U{2029}'
  }

  predicate AllWhiteSpace(w: string)
  {
    forall i :: 0 <= i < |w| ==> IsWhiteSpace(w[i])
  }

  /** How many white-space characters the string starts with. */
  function LeadingSpace(s: string): (n: nat)
    ensures n <= |s| && AllWhiteSpace(s[..n])
    ensures n < |s| ==> !IsWhiteSpace(s[n])
  {
    if s != [] && IsWhiteSpace(s[0]) then
      var m := LeadingSpace(s[1..]);
      assert s[1..][..m] == s[1..m + 1];
      1 + m
    else 0
  }

  /** How many white-space characters the string ends with. */
  function TrailingSpace(s: string): (n: nat)
    ensures n <= |s| && AllWhiteSpace(s[|s| - n..])
    ensures n < |s| ==> !IsWhiteSpace(s[|s| - n - 1])
  {
    if s != [] && IsWhiteSpace(s[|s| - 1]) then
      var m := TrailingSpace(s[..|s| - 1]);
      assert s[..|s| - 1][|s| - 1 - m..] == s[|s| - 1 - m..|s| - 1];
      1 + m
    else 0
  }

  /** The string without its leading white space (what `parseFloat` and `parseInt` skip). */
  function TrimStart(s: string): string
  {
    s[LeadingSpace(s)..]
  }

  /** The string without its trailing white space. */
  function TrimEnd(s: string): string
  {
    s[..|s| - TrailingSpace(s)]
  }

  /** `String.prototype.trim`. */
  function Trim(s: string): string
  {
    TrimEnd(TrimStart(s))
  }

  /** A string that `trim` leaves as it is: empty, or no white space at either end. */
  predicate Unpadded(t: string)
  {
    t != [] ==> !IsWhiteSpace(t[0]) && !IsWhiteSpace(t[|t| - 1])
  }

  /**
   * `trim` removes white space at both ends and nothing else: the input is
   * white space w1, the result, and white space w2; the result is unpadded.
   */
  lemma TrimShape(s: string) returns (w1: string, w2: string)
    ensures AllWhiteSpace(w1) && AllWhiteSpace(w2) && s == w1 + Trim(s) + w2
  {
    var t := TrimStart(s);
    var r := TrimEnd(t);
    w1, w2 := s[..|s| - |t|], t[|r|..];
    assert s == w1 + t;
    assert t == r + w2;
  }

  lemma TrimUnpadded(s: string)
    ensures Unpadded(Trim(s))
  {
    var t := TrimStart(s);
    var r := TrimEnd(t);
    if r != [] {
      assert r[0] == t[0];
    }
  }

  /** A string that starts with a non-space character keeps it as the first character of its trim. */
  lemma TrimKeepsFirst(t: string)
    requires t != [] && !IsWhiteSpace(t[0])
    ensures Trim(t) != [] && Trim(t)[0] == t[0]
  {
    assert LeadingSpace(t) == 0;
    assert TrimStart(t) == t;
    TrailingSpaceBelow(t);
  }

  lemma {:induction false} TrailingSpaceBelow(t: string)
    requires t != [] && !IsWhiteSpace(t[0])
    ensures TrailingSpace(t) < |t|
  {
    if IsWhiteSpace(t[|t| - 1]) {
      var u := t[..|t| - 1];
      assert u[0] == t[0];
      TrailingSpaceBelow(u);
    }
  }

  /** A trimmed string has no leading white space left. */
  lemma TrimStartOfTrimmed(s: string)
    ensures TrimStart(Trim(s)) == Trim(s)
  {
    TrimUnpadded(s);
    var t := Trim(s);
    if t != [] {
      assert LeadingSpace(t) == 0;
    }
  }

  lemma {:induction false} TrimStartPadded(w: string, t: string)
    requires AllWhiteSpace(w)
    requires t == [] || !IsWhiteSpace(t[0])
    ensures TrimStart(w + t) == t
  {
    if w != [] {
      assert (w + t)[1..] == w[1..] + t;
      TrimStartPadded(w[1..], t);
    } else {
      assert w + t == t;
    }
  }

  /** White space in front of a string makes no difference to `TrimStart`. */
  lemma TrimStartSkips(w: string, s: string)
    requires AllWhiteSpace(w)
    ensures TrimStart(w + s) == TrimStart(s)
  {
    var n := LeadingSpace(s);
    var t := TrimStart(s);
    assert s == s[..n] + t;
    assert w + s == (w + s[..n]) + t;
    assert AllWhiteSpace(w + s[..n]) by {
      forall k | 0 <= k < |w + s[..n]| ensures IsWhiteSpace((w + s[..n])[k]) {
        if k < |w| { assert (w + s[..n])[k] == w[k]; } else { assert (w + s[..n])[k] == s[..n][k - |w|]; }
      }
    }
    TrimStartPadded(w + s[..n], t);
  }

  lemma {:induction false} TrimEndPadded(t: string, w: string)
    requires AllWhiteSpace(w)
    requires t == [] || !IsWhiteSpace(t[|t| - 1])
    ensures TrimEnd(t + w) == t
  {
    if w != [] {
      assert (t + w)[..|t + w| - 1] == t + w[..|w| - 1];
      TrimEndPadded(t, w[..|w| - 1]);
    } else {
      assert t + w == t;
    }
  }

  /** Conversely, `trim` of white space, an unpadded string and white space is that string. */
  lemma TrimPadded(w1: string, t: string, w2: string)
    requires AllWhiteSpace(w1) && AllWhiteSpace(w2) && Unpadded(t)
    ensures Trim(w1 + t + w2) == t
  {
    if t == [] {
      assert w1 + t + w2 == w1 + w2;
      assert AllWhiteSpace(w1 + w2);
      TrimStartPadded(w1 + w2, []);
      assert w1 + w2 + [] == w1 + w2;
    } else {
      assert w1 + t + w2 == w1 + (t + w2);
      TrimStartPadded(w1, t + w2);
      TrimEndPadded(t, w2);
    }
  }

  /**
   * `toLowerCase` on one character. The model maps the Basic Latin and
   * Latin-1 upper-case letters (A-Z, and U+00C0 to U+00DE except U+00D7)
   * to their lower-case forms and leaves every other character alone.
   */
  function LowerChar(c: char): char
  {
    if 'A' <= c <= 'Z' || ('\U{00C0}' <= c <= '\U{00DE}' && c != '\U{00D7}') then
      (c as int + 32) as char
    else
      c
  }

  lemma LowerCharIdempotent(c: char)
    ensures LowerChar(LowerChar(c)) == LowerChar(c)
  {
  }

  /** `String.prototype.toLowerCase`. */
  function ToLower(s: string): (r: string)
    ensures |r| == |s|
    ensures forall i :: 0 <= i < |s| ==> r[i] == LowerChar(s[i])
  {
    if s == [] then [] else [LowerChar(s[0])] + ToLower(s[1..])
  }

  lemma ToLowerIdempotent(s: string)
    ensures ToLower(ToLower(s)) == ToLower(s)
  {
    forall i | 0 <= i < |s|
      ensures ToLower(ToLower(s))[i] == ToLower(s)[i]
    {
      LowerCharIdempotent(s[i]);
    }
  }

  /** Lower-casing never creates or removes white space. */
  lemma LowerCharWhiteSpace(c: char)
    ensures IsWhiteSpace(LowerChar(c)) == IsWhiteSpace(c)
  {
  }

  lemma {:induction false} TrimStartToLower(s: string)
    ensures TrimStart(ToLower(s)) == ToLower(TrimStart(s))
  {
    if s != [] {
      LowerCharWhiteSpace(s[0]);
      assert ToLower(s)[1..] == ToLower(s[1..]);
      if IsWhiteSpace(s[0]) {
        TrimStartToLower(s[1..]);
      }
    }
  }

  lemma TrimEndToLower(s: string)
    ensures TrimEnd(ToLower(s)) == ToLower(TrimEnd(s))
  {
    TrailingSpaceToLower(s);
    ToLowerPrefix(s, |s| - TrailingSpace(s));
  }

  lemma {:induction false} TrailingSpaceToLower(s: string)
    ensures TrailingSpace(ToLower(s)) == TrailingSpace(s)
  {
    if s != [] {
      var p := s[..|s| - 1];
      LowerCharWhiteSpace(s[|s| - 1]);
      ToLowerPrefix(s, |s| - 1);
      if IsWhiteSpace(s[|s| - 1]) {
        TrailingSpaceToLower(p);
      }
    }
  }

  lemma ToLowerPrefix(s: string, n: nat)
    requires n <= |s|
    ensures ToLower(s)[..n] == ToLower(s[..n])
  {
  }

  /** `trim` and `toLowerCase` commute, so the order in which a key is normalised does not matter. */
  lemma TrimToLower(s: string)
    ensures Trim(ToLower(s)) == ToLower(Trim(s))
  {
    TrimStartToLower(s);
    TrimEndToLower(TrimStart(s));
  }

  /** `s.replace(/c/g, '')` for a single character c. */
  function RemoveAll(s: string, c: char): (r: string)
    ensures c !in r
  {
    if s == [] then [] else (if s[0] == c then [] else [s[0]]) + RemoveAll(s[1..], c)
  }

  /** Removing c keeps every other character as often as it occurs. */
  lemma {:induction false} RemoveAllKeeps(s: string, c: char)
    ensures forall d :: d != c ==> multiset(RemoveAll(s, c))[d] == multiset(s)[d]
  {
    if s != [] {
      RemoveAllKeeps(s[1..], c);
      assert s == [s[0]] + s[1..];
    }
  }

  /** Every character RemoveAll leaves comes from the string it was given. */
  lemma RemoveAllFrom(s: string, c: char)
    ensures forall i :: 0 <= i < |RemoveAll(s, c)| ==> RemoveAll(s, c)[i] in s
  {
    var r := RemoveAll(s, c);
    RemoveAllKeeps(s, c);
    forall i | 0 <= i < |r| ensures r[i] in s {
      assert r[i] in multiset(r);
      assert r[i] != c;
    }
  }

  /** What RemoveAll does to one character. */
  lemma RemoveAllSingle(x: char, c: char)
    ensures RemoveAll([x], c) == if x == c then [] else [x]
  {
    assert [x][1..] == [];
  }

  /** Removing c from a string with one c in the middle. */
  lemma RemoveAllDrops(a: string, c: char, b: string)
    ensures RemoveAll(a + [c] + b, c) == RemoveAll(a + b, c)
  {
    RemoveAllAppend(a + [c], b, c);
    RemoveAllAppend(a, [c], c);
    RemoveAllSingle(c, c);
    RemoveAllAppend(a, b, c);
    assert RemoveAll(a, c) + [] == RemoveAll(a, c);
  }

  /** Removing c from a string with some other character x in the middle keeps x. */
  lemma RemoveAllKeepsOther(a: string, x: char, b: string, c: char)
    requires x != c
    ensures RemoveAll(a + [x] + b, c) == RemoveAll(a, c) + [x] + RemoveAll(b, c)
  {
    RemoveAllAppend(a + [x], b, c);
    RemoveAllAppend(a, [x], c);
    RemoveAllSingle(x, c);
  }

  lemma {:induction false} RemoveAllAppend(a: string, b: string, c: char)
    ensures RemoveAll(a + b, c) == RemoveAll(a, c) + RemoveAll(b, c)
  {
    if a == [] {
      assert a + b == b;
      assert RemoveAll(a, c) + RemoveAll(b, c) == RemoveAll(b, c);
    } else {
      assert (a + b)[0] == a[0];
      assert (a + b)[1..] == a[1..] + b;
      var h := if a[0] == c then [] else [a[0]];
      var x, y := RemoveAll(a[1..], c), RemoveAll(b, c);
      RemoveAllAppend(a[1..], b, c);
      assert RemoveAll(a + b, c) == h + (x + y);
      assert h + (x + y) == (h + x) + y;
    }
  }

  lemma {:induction false} RemoveAllAbsent(s: string, c: char)
    requires c !in s
    ensures RemoveAll(s, c) == s
  {
    if s != [] {
      assert c !in s[1..] by {
        forall k | 0 <= k < |s[1..]| ensures s[1..][k] != c { assert s[1..][k] == s[k + 1]; }
      }
      RemoveAllAbsent(s[1..], c);
      assert s == [s[0]] + s[1..];
    }
  }

  /** Removing characters from white space leaves white space. */
  lemma AllWhiteSpaceKept(w: string, c: char)
    requires AllWhiteSpace(w)
    ensures AllWhiteSpace(RemoveAll(w, c))
  {
    RemoveAllKeeps(w, c);
    var r := RemoveAll(w, c);
    forall i | 0 <= i < |r| ensures IsWhiteSpace(r[i]) {
      assert r[i] in multiset(r);
      assert r[i] in multiset(w);
      var j :| 0 <= j < |w| && w[j] == r[i];
    }
  }

  /** Removing c twice is removing it once. */
  lemma RemoveAllIdempotent(s: string, c: char)
    ensures RemoveAll(RemoveAll(s, c), c) == RemoveAll(s, c)
  {
    RemoveAllAbsent(RemoveAll(s, c), c);
  }

  /** `s.startsWith(p)`. */
  predicate StartsWith(s: string, p: string)
  {
    |p| <= |s| && s[..|p|] == p
  }

  /** The smaller of two integers, as the clamps of `substr` and `slice` use it. */
  function Min(a: int, b: int): int
  {
    if a <= b then a else b
  }

  /** `s.substr(start, length)` for non-negative arguments: clamped to the string. */
  function Substr(s: string, start: nat, length: nat): (r: string)
    ensures |r| <= length
    ensures start + length <= |s| ==> r == s[start..start + length]
  {
    var from := Min(start, |s|);
    s[from..Min(start + length, |s|)]
  }

  /** `s.slice(1)`: everything but the first character. */
  function SliceFrom1(s: string): (r: string)
    ensures s != [] ==> s == [s[0]] + r
    ensures s == [] ==> r == []
  {
    if s == [] then [] else s[1..]
  }
}
