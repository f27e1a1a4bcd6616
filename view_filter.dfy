/**
 * The data logic of `applyFilters`: keep the records whose life expectancy
 * lies in [lifeMin, lifeMax], sort them by GDP per capita from high to low,
 * and keep the first N when a number is selected rather than "all".
 */
module ViewFilter {
  import opened Values
  import opened JsStrings
  import opened Validity
  import opened Sorting

  /** `d.LifeExpectancy >= lifeMin && d.LifeExpectancy <= lifeMax`. */
  predicate InRange(r: CountryRecord, lifeMin: real, lifeMax: real)
  {
    lifeMin <= r.lifeExpectancy.v <= lifeMax
  }

  /** `allData.filter(range test)`: a fresh sequence, `allData` is left alone. */
  function RangeFilter(s: seq<CountryRecord>, lifeMin: real, lifeMax: real): (r: seq<CountryRecord>)
    ensures |r| <= |s|
    ensures forall k :: 0 <= k < |r| ==> InRange(r[k], lifeMin, lifeMax)
  {
    if s == [] then []
    else (if InRange(s[0], lifeMin, lifeMax) then [s[0]] else []) + RangeFilter(s[1..], lifeMin, lifeMax)
  }

  /** The value of the top-N select: "all", or a count. */
  datatype TopN = All | Top(n: nat)

  /** `data.slice(0, n)` when a count is selected. */
  function Take(s: seq<CountryRecord>, topN: TopN): (r: seq<CountryRecord>)
    ensures |r| == if topN.Top? then Min(topN.n, |s|) else |s|
    ensures r == s[..|r|]
  {
    match topN
    case All => s
    case Top(n) => s[..Min(n, |s|)]
  }

  /** `applyFilters()` as a function of its inputs. */
  function View(allData: seq<CountryRecord>, lifeMin: real, lifeMax: real, topN: TopN): seq<CountryRecord>
  {
    Take(SortDesc(RangeFilter(allData, lifeMin, lifeMax)), topN)
  }

  /** The range filter keeps every in-range record as often as it occurs, and nothing else. */
  lemma {:induction false} RangeFilterCounts(s: seq<CountryRecord>, lifeMin: real, lifeMax: real, x: CountryRecord)
    ensures multiset(RangeFilter(s, lifeMin, lifeMax))[x] ==
      if InRange(x, lifeMin, lifeMax) then multiset(s)[x] else 0
  {
    if s != [] {
      RangeFilterCounts(s[1..], lifeMin, lifeMax, x);
      assert s == [s[0]] + s[1..];
    }
  }

  /** Every record shown has its life expectancy in the selected range. */
  lemma ViewInRange(allData: seq<CountryRecord>, lifeMin: real, lifeMax: real, topN: TopN)
    ensures forall k :: 0 <= k < |View(allData, lifeMin, lifeMax, topN)| ==>
      InRange(View(allData, lifeMin, lifeMax, topN)[k], lifeMin, lifeMax)
  {
    var f := RangeFilter(allData, lifeMin, lifeMax);
    SortDescPermutes(f);
    var v := View(allData, lifeMin, lifeMax, topN);
    forall k | 0 <= k < |v| ensures InRange(v[k], lifeMin, lifeMax) {
      assert v[k] == SortDesc(f)[k];
      assert v[k] in multiset(f);
      var i :| 0 <= i < |f| && f[i] == v[k];
    }
  }

  /** The records shown are in order of GDP per capita, highest first. */
  lemma ViewSorted(allData: seq<CountryRecord>, lifeMin: real, lifeMax: real, topN: TopN)
    ensures SortedDesc(View(allData, lifeMin, lifeMax, topN))
  {
    SortDescSorted(RangeFilter(allData, lifeMin, lifeMax));
  }

  /**
   * The view is the first records of the sorted in-range set: N of them,
   * or all when there are at most N, or all when "all" is selected.
   */
  lemma ViewIsSortedPrefix(allData: seq<CountryRecord>, lifeMin: real, lifeMax: real, topN: TopN)
    ensures var sorted := SortDesc(RangeFilter(allData, lifeMin, lifeMax));
      var v := View(allData, lifeMin, lifeMax, topN);
      multiset(sorted) == multiset(RangeFilter(allData, lifeMin, lifeMax)) &&
      v == sorted[..|v|] &&
      |v| == if topN.Top? then Min(topN.n, |RangeFilter(allData, lifeMin, lifeMax)|)
             else |RangeFilter(allData, lifeMin, lifeMax)|
  {
    SortDescPermutes(RangeFilter(allData, lifeMin, lifeMax));
  }

  /** No record left out of a top-N view has a higher GDP than a record in it. */
  lemma ViewDominates(allData: seq<CountryRecord>, lifeMin: real, lifeMax: real, topN: TopN)
    ensures var v := View(allData, lifeMin, lifeMax, topN);
      forall x, y :: x in v && y in multiset(RangeFilter(allData, lifeMin, lifeMax)) - multiset(v) ==>
        Gdp(y) <= Gdp(x)
  {
    var f := RangeFilter(allData, lifeMin, lifeMax);
    var sorted := SortDesc(f);
    var v := View(allData, lifeMin, lifeMax, topN);
    SortDescPermutes(f);
    SortDescSorted(f);
    assert v == sorted[..|v|];
    var rest := sorted[|v|..];
    assert sorted == v + rest;
    assert multiset(f) == multiset(v) + multiset(rest);
    MultisetMinus(multiset(f), multiset(v), multiset(rest));
    SortedSplit(v, rest);
  }

  lemma MultisetMinus(a: multiset<CountryRecord>, b: multiset<CountryRecord>, c: multiset<CountryRecord>)
    requires a == b + c
    ensures a - b == c
  {
  }

  lemma SortedSplit(v: seq<CountryRecord>, rest: seq<CountryRecord>)
    requires SortedDesc(v + rest)
    ensures forall x, y :: x in v && y in multiset(rest) ==> Gdp(y) <= Gdp(x)
  {
    forall x, y | x in v && y in multiset(rest) ensures Gdp(y) <= Gdp(x) {
      var i :| 0 <= i < |v| && v[i] == x;
      var j :| 0 <= j < |rest| && rest[j] == y;
      assert (v + rest)[i] == x && (v + rest)[|v| + j] == y;
    }
  }

  /** Nothing is shown exactly when no record is in range or a count of zero is selected. */
  lemma ViewEmpty(allData: seq<CountryRecord>, lifeMin: real, lifeMax: real, topN: TopN)
    ensures View(allData, lifeMin, lifeMax, topN) == [] <==>
      RangeFilter(allData, lifeMin, lifeMax) == [] || topN == Top(0)
  {
  }

  /** The filter is empty exactly when no record is in range. */
  lemma {:induction false} RangeFilterComplete(s: seq<CountryRecord>, lifeMin: real, lifeMax: real)
    ensures (forall k :: 0 <= k < |s| ==> !InRange(s[k], lifeMin, lifeMax)) <==>
      RangeFilter(s, lifeMin, lifeMax) == []
  {
    if s != [] {
      RangeFilterComplete(s[1..], lifeMin, lifeMax);
      assert forall k :: 1 <= k < |s| ==> s[k] == s[1..][k - 1];
    }
  }

  /** Filtering twice with the same controls shows the same records. */
  lemma ViewIdempotent(allData: seq<CountryRecord>, lifeMin: real, lifeMax: real, topN: TopN)
    ensures var v := View(allData, lifeMin, lifeMax, topN);
      View(v, lifeMin, lifeMax, topN) == v
  {
    var v := View(allData, lifeMin, lifeMax, topN);
    ViewInRange(allData, lifeMin, lifeMax, topN);
    ViewSorted(allData, lifeMin, lifeMax, topN);
    RangeFilterAllIn(v, lifeMin, lifeMax);
    SortDescOfSorted(v);
  }

  lemma {:induction false} RangeFilterAllIn(s: seq<CountryRecord>, lifeMin: real, lifeMax: real)
    requires forall k :: 0 <= k < |s| ==> InRange(s[k], lifeMin, lifeMax)
    ensures RangeFilter(s, lifeMin, lifeMax) == s
  {
    if s != [] {
      RangeFilterAllIn(s[1..], lifeMin, lifeMax);
      assert s == [s[0]] + s[1..];
    }
  }

  /** The range filter keeps the order of `allData`: filtering a concatenation filters each part in turn. */
  lemma {:induction false} RangeFilterAppend(a: seq<CountryRecord>, b: seq<CountryRecord>, lifeMin: real, lifeMax: real)
    ensures RangeFilter(a + b, lifeMin, lifeMax) == RangeFilter(a, lifeMin, lifeMax) + RangeFilter(b, lifeMin, lifeMax)
  {
    if a == [] {
      assert a + b == b;
    } else {
      assert (a + b)[0] == a[0];
      assert (a + b)[1..] == a[1..] + b;
      RangeFilterAppend(a[1..], b, lifeMin, lifeMax);
      var h := if InRange(a[0], lifeMin, lifeMax) then [a[0]] else [];
      Associates(h, RangeFilter(a[1..], lifeMin, lifeMax), RangeFilter(b, lifeMin, lifeMax));
    }
  }

  /** Selecting the records of one GDP and selecting by life expectancy can be done in either order. */
  lemma {:induction false} WithGdpRangeFilter(s: seq<CountryRecord>, lifeMin: real, lifeMax: real, g: real)
    ensures WithGdp(RangeFilter(s, lifeMin, lifeMax), g) == RangeFilter(WithGdp(s, g), lifeMin, lifeMax)
  {
    if s != [] {
      var h := if InRange(s[0], lifeMin, lifeMax) then [s[0]] else [];
      var k := if Gdp(s[0]) == g then [s[0]] else [];
      WithGdpRangeFilter(s[1..], lifeMin, lifeMax, g);
      WithGdpAppend(h, RangeFilter(s[1..], lifeMin, lifeMax), g);
      RangeFilterAppend(k, WithGdp(s[1..], g), lifeMin, lifeMax);
      if h != [] {
        WithGdpSingle(s[0], g);
      }
      if k != [] {
        assert RangeFilter(k, lifeMin, lifeMax) == h by { assert k[1..] == []; }
      }
    }
  }

  /**
   * Records of equal GDP per capita are listed in their `allData` order:
   * among the in-range records with a given GDP, the sorted list keeps the
   * order of the input, as `Array.prototype.sort` does.
   */
  lemma ViewTiesInOrder(allData: seq<CountryRecord>, lifeMin: real, lifeMax: real, g: real)
    ensures WithGdp(SortDesc(RangeFilter(allData, lifeMin, lifeMax)), g)
         == RangeFilter(WithGdp(allData, g), lifeMin, lifeMax)
  {
    SortDescStable(RangeFilter(allData, lifeMin, lifeMax), g);
    WithGdpRangeFilter(allData, lifeMin, lifeMax, g);
  }

  /** The records of one GDP that the view shows are the first of those in range, in `allData` order. */
  lemma ViewTiesPrefix(allData: seq<CountryRecord>, lifeMin: real, lifeMax: real, topN: TopN, g: real)
    ensures WithGdp(View(allData, lifeMin, lifeMax, topN), g) <= RangeFilter(WithGdp(allData, g), lifeMin, lifeMax)
  {
    var sorted := SortDesc(RangeFilter(allData, lifeMin, lifeMax));
    var v := View(allData, lifeMin, lifeMax, topN);
    var rest := sorted[|v|..];
    assert sorted == v + rest;
    WithGdpAppend(v, rest, g);
    ViewTiesInOrder(allData, lifeMin, lifeMax, g);
  }
}
