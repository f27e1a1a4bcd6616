/**
 * `mergeDatasets`: an inner join of the GDP rows with the life-expectancy
 * rows on the normalised country name. The life rows are first loaded into
 * a map keyed by that name (a loop, last row wins); then every GDP row is
 * looked up, turned into a record or a null, and the nulls are dropped.
 */
module Merge {
  import opened Values
  import opened JsStrings
  import opened CellParsers

  /** A spreadsheet row as `sheet_to_json` gives it: column header to cell value. */
  type Row = map<string, JsValue>

  /** `row[column]`: a missing column reads as undefined. */
  function Get(row: Row, column: string): JsValue
  {
    if column in row then row[column] else Undefined
  }

  /** A merged country record, before the validity gate. */
  datatype Record = Record(country: string, gdpPerCapita: Num, population: Num, lifeExpectancy: Num)

  /** The join key: `Country.trim().toLowerCase()`. */
  function Key(country: string): string
  {
    ToLower(Trim(country))
  }

  /** A life row the index stores: its `Country` is a non-empty string. */
  predicate Indexed(row: Row)
  {
    var c := Get(row, "Country");
    Truthy(c) && c.Str?
  }

  /** A life row whose `Country` is truthy but not a string: `.trim()` throws on it. */
  predicate LifeRowThrows(row: Row)
  {
    var c := Get(row, "Country");
    Truthy(c) && !c.Str?
  }

  /** A life row that the index stores under key k. */
  predicate HasKey(row: Row, k: string)
  {
    Indexed(row) && Key(Get(row, "Country").s) == k
  }

  /** One turn of the `forEach` that fills the life index. */
  function IndexStep(m: map<string, Row>, row: Row): Outcome<map<string, Row>>
  {
    var c := Get(row, "Country");
    if !Truthy(c) then Ok(m)
    else if c.Str? then Ok(m[Key(c.s) := row])
    else TypeError
  }

  /** The life index after the rows of `life` have been visited in order. */
  function LifeIndex(life: seq<Row>): Outcome<map<string, Row>>
  {
    if life == [] then Ok(map[])
    else
      match LifeIndex(life[..|life| - 1])
      case TypeError => TypeError
      case Ok(m) => IndexStep(m, life[|life| - 1])
  }

  /** The loop that fills `lifeMap`; it stops at the first row that throws. */
  method BuildLifeIndex(life: seq<Row>) returns (r: Outcome<map<string, Row>>)
    ensures r == LifeIndex(life)
  {
    var m: map<string, Row> := map[];
    var i := 0;
    while i < |life|
      invariant 0 <= i <= |life|
      invariant LifeIndex(life[..i]) == Ok(m)
    {
      assert life[..i + 1][..i] == life[..i];
      var c := Get(life[i], "Country");
      if Truthy(c) {
        if !c.Str? {
          assert LifeIndex(life[..i + 1]).TypeError?;
          LifeIndexStaysThrown(life, i + 1);
          return TypeError;
        }
        m := m[Key(c.s) := life[i]];
      }
      i := i + 1;
    }
    assert life[..i] == life;
    r := Ok(m);
  }

  /** Once a row has thrown, the rest of the loop never runs. */
  lemma {:induction false} LifeIndexStaysThrown(life: seq<Row>, n: nat)
    requires n <= |life| && LifeIndex(life[..n]).TypeError?
    ensures LifeIndex(life).TypeError?
  {
    if n < |life| {
      var p := life[..|life| - 1];
      assert p[..n] == life[..n];
      LifeIndexStaysThrown(p, n);
    } else {
      assert life[..n] == life;
    }
  }

  /** Building the index throws exactly when some life row's `Country` is truthy but not a string. */
  lemma {:induction false} LifeIndexThrows(life: seq<Row>)
    ensures LifeIndex(life).TypeError? <==> exists i :: 0 <= i < |life| && LifeRowThrows(life[i])
  {
    if life != [] {
      var p := life[..|life| - 1];
      LifeIndexThrows(p);
      if LifeRowThrows(life[|life| - 1]) {
        assert LifeIndex(life).TypeError?;
      }
      if (exists i :: 0 <= i < |life| && LifeRowThrows(life[i])) && !LifeRowThrows(life[|life| - 1]) {
        var i :| 0 <= i < |life| && LifeRowThrows(life[i]);
        assert p[i] == life[i];
      }
      if exists i :: 0 <= i < |p| && LifeRowThrows(p[i]) {
        var i :| 0 <= i < |p| && LifeRowThrows(p[i]);
        assert life[i] == p[i];
      }
    }
  }

  /**
   * Reference definition of "the last life row stored under key k": its
   * index, or -1 when no row has that key.
   */
  function LastMatch(life: seq<Row>, k: string): (r: int)
    ensures -1 <= r < |life|
    ensures r >= 0 ==> HasKey(life[r], k)
    ensures forall j :: r < j < |life| ==> !HasKey(life[j], k)
  {
    if life == [] then -1
    else if HasKey(life[|life| - 1], k) then |life| - 1
    else
      var r := LastMatch(life[..|life| - 1], k);
      assert forall j :: r < j < |life| - 1 ==> life[j] == life[..|life| - 1][j];
      r
  }

  /**
   * The index holds key k exactly when some life row has key k, and then it
   * holds the last such row: later rows overwrite earlier ones.
   */
  lemma {:induction false} LifeIndexLookup(life: seq<Row>, k: string)
    requires LifeIndex(life).Ok?
    ensures k in LifeIndex(life).value <==> LastMatch(life, k) >= 0
    ensures k in LifeIndex(life).value ==> LifeIndex(life).value[k] == life[LastMatch(life, k)]
  {
    if life != [] {
      var p := life[..|life| - 1];
      LifeIndexLookup(p, k);
      var last := life[|life| - 1];
      if !HasKey(last, k) {
        var m := LifeIndex(p).value;
        if Indexed(last) {
          assert LifeIndex(life).value == m[Key(Get(last, "Country").s) := last];
        }
        assert LastMatch(life, k) == LastMatch(p, k);
        if LastMatch(p, k) >= 0 {
          assert life[LastMatch(p, k)] == p[LastMatch(p, k)];
        }
      }
    }
  }

  /** The record built for a GDP row and the life row it matched. */
  function MergeRecord(country: string, g: Row, l: Row): Record
  {
    Record(country, ParseNumber(Get(g, "GDP per capita")), ParsePopulation(Get(g, "Population")),
           ParseFloatOf(Get(l, "Life Expectancy")))
  }

  /** A GDP row whose `Country` is not a string: `.trim()` throws on it. */
  predicate GdpRowThrows(g: Row)
  {
    !Get(g, "Country").Str?
  }

  /** The callback of `gdpData.map`: a record when the key is in the index, null otherwise. */
  function MatchGdp(g: Row, index: map<string, Row>): (r: Outcome<Option<Record>>)
    ensures r.TypeError? <==> GdpRowThrows(g)
    ensures r.Ok? && r.value.Some? ==> r.value.value.country == Get(g, "Country").s
  {
    var c := Get(g, "Country");
    if !c.Str? then TypeError
    else
      var k := Key(c.s);
      if k in index then Ok(Some(MergeRecord(c.s, g, index[k]))) else Ok(None)
  }

  /** The results of a run of calls, or the first throw among them. */
  function AllOk<T>(xs: seq<Outcome<T>>): (r: Outcome<seq<T>>)
    ensures r.Ok? ==> |r.value| == |xs|
  {
    if xs == [] then Ok([])
    else if xs[0].TypeError? then TypeError
    else
      match AllOk(xs[1..])
      case TypeError => TypeError
      case Ok(ys) => Ok([xs[0].value] + ys)
  }

  lemma {:induction false} AllOkThrows<T>(xs: seq<Outcome<T>>)
    ensures AllOk(xs).TypeError? <==> exists i :: 0 <= i < |xs| && xs[i].TypeError?
  {
    if xs != [] {
      AllOkThrows(xs[1..]);
      assert forall i :: 1 <= i < |xs| ==> xs[i] == xs[1..][i - 1];
    }
  }

  lemma {:induction false} AllOkEntries<T>(xs: seq<Outcome<T>>)
    requires AllOk(xs).Ok?
    ensures forall i :: 0 <= i < |xs| ==> xs[i].Ok? && AllOk(xs).value[i] == xs[i].value
  {
    if xs != [] {
      AllOkEntries(xs[1..]);
      assert forall i :: 1 <= i < |xs| ==> xs[i] == xs[1..][i - 1];
    }
  }

  /** `gdpData.map(callback)`: the callback on every row in order, or the first throw. */
  function MapGdp(gdp: seq<Row>, index: map<string, Row>): (r: Outcome<seq<Option<Record>>>)
    ensures r.Ok? ==> |r.value| == |gdp|
  {
    AllOk(seq(|gdp|, i requires 0 <= i < |gdp| => MatchGdp(gdp[i], index)))
  }

  /** The map throws exactly when the callback throws on some row. */
  lemma MapGdpThrows(gdp: seq<Row>, index: map<string, Row>)
    ensures MapGdp(gdp, index).TypeError? <==> exists i :: 0 <= i < |gdp| && GdpRowThrows(gdp[i])
  {
    var calls := seq(|gdp|, i requires 0 <= i < |gdp| => MatchGdp(gdp[i], index));
    AllOkThrows(calls);
    assert forall i :: 0 <= i < |gdp| ==> calls[i] == MatchGdp(gdp[i], index);
  }

  /** When the map does not throw, entry i is the callback's record or null for row i. */
  lemma MapGdpEntries(gdp: seq<Row>, index: map<string, Row>)
    requires MapGdp(gdp, index).Ok?
    ensures forall i :: 0 <= i < |gdp| ==>
      MatchGdp(gdp[i], index).Ok? && MapGdp(gdp, index).value[i] == MatchGdp(gdp[i], index).value
  {
    var calls := seq(|gdp|, i requires 0 <= i < |gdp| => MatchGdp(gdp[i], index));
    AllOkEntries(calls);
    assert forall i :: 0 <= i < |gdp| ==> calls[i] == MatchGdp(gdp[i], index);
  }

  /** `.filter(d => d !== null)`. */
  function DropNulls(xs: seq<Option<Record>>): (r: seq<Record>)
    ensures |r| <= |xs|
  {
    if xs == [] then []
    else (if xs[0].Some? then [xs[0].value] else []) + DropNulls(xs[1..])
  }

  /** `mergeDatasets(gdpData, lifeData)`: the records of the join, or the TypeError a `.trim()` throws. */
  function Merged(gdp: seq<Row>, life: seq<Row>): Outcome<seq<Record>>
  {
    match LifeIndex(life)
    case TypeError => TypeError
    case Ok(index) =>
      match MapGdp(gdp, index)
      case TypeError => TypeError
      case Ok(xs) => Ok(DropNulls(xs))
  }

  method MergeDatasets(gdp: seq<Row>, life: seq<Row>) returns (r: Outcome<seq<Record>>)
    ensures r == Merged(gdp, life)
  {
    var index := BuildLifeIndex(life);
    if index.TypeError? {
      return TypeError;
    }
    var mapped := MapGdp(gdp, index.value);
    if mapped.TypeError? {
      return TypeError;
    }
    r := Ok(DropNulls(mapped.value));
  }

  /** The merge throws exactly when a life row or a GDP row has an unusable `Country`. */
  lemma MergedThrows(gdp: seq<Row>, life: seq<Row>)
    ensures Merged(gdp, life).TypeError? <==>
      (exists i :: 0 <= i < |life| && LifeRowThrows(life[i])) ||
      (exists i :: 0 <= i < |gdp| && GdpRowThrows(gdp[i]))
  {
    LifeIndexThrows(life);
    if LifeIndex(life).Ok? {
      MapGdpThrows(gdp, LifeIndex(life).value);
    }
  }

  predicate Increasing(idx: seq<nat>)
  {
    forall a, b :: 0 <= a < b < |idx| ==> idx[a] < idx[b]
  }

  function Shift(idx: seq<nat>): (r: seq<nat>)
    ensures |r| == |idx| && forall j :: 0 <= j < |idx| ==> r[j] == idx[j] + 1
  {
    seq(|idx|, j requires 0 <= j < |idx| => idx[j] + 1)
  }

  /** The positions of the non-null entries, in increasing order. */
  function Positions(xs: seq<Option<Record>>): (idx: seq<nat>)
    ensures |idx| == |DropNulls(xs)| && Increasing(idx)
    ensures forall j :: 0 <= j < |idx| ==> idx[j] < |xs|
  {
    if xs == [] then []
    else
      var rest := Shift(Positions(xs[1..]));
      if xs[0].Some? then [0] + rest else rest
  }

  /** `DropNulls` keeps the non-null entries, in order. */
  lemma {:induction false} DropNullsPicks(xs: seq<Option<Record>>)
    ensures forall j :: 0 <= j < |Positions(xs)| ==> xs[Positions(xs)[j]] == Some(DropNulls(xs)[j])
  {
    if xs != [] {
      var t := xs[1..];
      DropNullsPicks(t);
      assert xs == [xs[0]] + t;
      PicksStep(xs[0], t, Positions(t), DropNulls(t));
    }
  }

  /** One step of `DropNullsPicks`: a head entry in front of a tail whose positions are known. */
  lemma PicksStep(x: Option<Record>, t: seq<Option<Record>>, rest: seq<nat>, kept: seq<Record>)
    requires |rest| == |kept|
    requires forall j :: 0 <= j < |rest| ==> rest[j] < |t| && t[rest[j]] == Some(kept[j])
    ensures var p := (if x.Some? then [0] else []) + Shift(rest);
      var d := (if x.Some? then [x.value] else []) + kept;
      |p| == |d| && forall j :: 0 <= j < |p| ==> p[j] < |t| + 1 && ([x] + t)[p[j]] == Some(d[j])
  {
    var k := if x.Some? then 1 else 0;
    var p := (if x.Some? then [0] else []) + Shift(rest);
    var d := (if x.Some? then [x.value] else []) + kept;
    forall j | k <= j < |p|
      ensures p[j] < |t| + 1 && ([x] + t)[p[j]] == Some(d[j])
    {
      assert p[j] == rest[j - k] + 1;
      assert d[j] == kept[j - k];
    }
  }

  /** Every non-null entry is kept. */
  lemma {:induction false} PositionsComplete(xs: seq<Option<Record>>)
    ensures forall i :: 0 <= i < |xs| && xs[i].Some? ==> i in Positions(xs)
  {
    if xs != [] {
      PositionsComplete(xs[1..]);
      var rest := Positions(xs[1..]);
      var shifted := Shift(rest);
      forall i | 1 <= i < |xs| && xs[i].Some? ensures i in shifted {
        assert xs[1..][i - 1] == xs[i];
        var j :| 0 <= j < |rest| && rest[j] == i - 1;
        assert shifted[j] == i;
      }
    }
  }

  /**
   * The join: the output lists, in GDP order, one record for every GDP row
   * whose key is in the life index and for no other row. The record keeps
   * the GDP row's own `Country` string, reads GDP and population from the
   * GDP row, and reads life expectancy from the last life row with that key.
   */
  lemma MergedJoin(gdp: seq<Row>, life: seq<Row>) returns (idx: seq<nat>)
    requires Merged(gdp, life).Ok?
    ensures forall i :: 0 <= i < |gdp| ==> Get(gdp[i], "Country").Str?
    ensures var out := Merged(gdp, life).value;
      |out| <= |gdp| && |idx| == |out| && Increasing(idx) &&
      (forall j :: 0 <= j < |idx| ==>
        idx[j] < |gdp| &&
        var c := Get(gdp[idx[j]], "Country").s;
        LastMatch(life, Key(c)) >= 0 &&
        out[j] == MergeRecord(c, gdp[idx[j]], life[LastMatch(life, Key(c))])) &&
      (forall i :: 0 <= i < |gdp| && LastMatch(life, Key(Get(gdp[i], "Country").s)) >= 0 ==> i in idx)
  {
    var index := LifeIndex(life).value;
    var xs := MapGdp(gdp, index).value;
    MapGdpEntries(gdp, index);
    idx := Positions(xs);
    DropNullsPicks(xs);
    PositionsComplete(xs);
    forall j | 0 <= j < |idx|
      ensures var c := Get(gdp[idx[j]], "Country").s;
        LastMatch(life, Key(c)) >= 0 &&
        Merged(gdp, life).value[j] == MergeRecord(c, gdp[idx[j]], life[LastMatch(life, Key(c))])
    {
      LifeIndexLookup(life, Key(Get(gdp[idx[j]], "Country").s));
    }
    forall i | 0 <= i < |gdp| && LastMatch(life, Key(Get(gdp[i], "Country").s)) >= 0
      ensures i in idx
    {
      LifeIndexLookup(life, Key(Get(gdp[i], "Country").s));
    }
  }

  /** Matching ignores white space around the country name. */
  lemma KeyIgnoresPadding(w1: string, name: string, w2: string)
    requires AllWhiteSpace(w1) && AllWhiteSpace(w2) && Unpadded(name)
    ensures Key(w1 + name + w2) == Key(name)
  {
    TrimPadded(w1, name, w2);
    TrimPadded([], name, []);
    assert [] + name + [] == name;
  }

  /** Matching ignores letter case. */
  lemma KeyIgnoresCase(name: string)
    ensures Key(ToLower(name)) == Key(name)
  {
    TrimToLower(name);
    ToLowerIdempotent(Trim(name));
  }

  /** So a GDP name matches the same name in another case with white space around it. */
  lemma KeyMatchesVariant(w1: string, name: string, w2: string)
    requires AllWhiteSpace(w1) && AllWhiteSpace(w2) && Unpadded(name)
    ensures Key(w1 + ToLower(name) + w2) == Key(name)
  {
    var lower := ToLower(name);
    if name != [] {
      LowerCharWhiteSpace(name[0]);
      LowerCharWhiteSpace(name[|name| - 1]);
    }
    KeyIgnoresPadding(w1, lower, w2);
    KeyIgnoresCase(name);
  }

  /** A life row whose `Country` is falsy (absent, empty, null, 0, false) leaves the index as it was. */
  lemma IndexSkipsFalsy(life: seq<Row>, row: Row)
    requires !Truthy(Get(row, "Country"))
    ensures LifeIndex(life + [row]) == LifeIndex(life)
  {
    assert (life + [row])[..|life|] == life;
  }
}
