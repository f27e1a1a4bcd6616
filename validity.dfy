/**
 * The validity gate applied by `init` to the merge output: a record is kept
 * when its GDP per capita is a number above zero and its life expectancy and
 * population are numbers.
 */
module Validity {
  import opened Values
  import opened Merge

  /** `!isNaN(GDPPerCapita) && GDPPerCapita > 0 && !isNaN(LifeExpectancy) && !isNaN(Population)`. */
  predicate IsValid(r: Record)
  {
    r.gdpPerCapita.Val? && r.gdpPerCapita.v > 0.0 && r.lifeExpectancy.Val? && r.population.Val?
  }

  /** A record that passed the gate: the element type of `allData`. */
  type CountryRecord = r: Record | IsValid(r) witness Record("", Val(1.0), Val(0.0), Val(0.0))

  /** `merged.filter(gate)`. */
  function ValidOnly(xs: seq<Record>): (r: seq<CountryRecord>)
    ensures |r| <= |xs|
  {
    if xs == [] then []
    else if IsValid(xs[0]) then
      var x: CountryRecord := xs[0];
      [x] + ValidOnly(xs[1..])
    else ValidOnly(xs[1..])
  }

  /** The positions of the records the gate keeps, in increasing order. */
  function Kept(xs: seq<Record>): (idx: seq<nat>)
    ensures |idx| == |ValidOnly(xs)| && Increasing(idx)
    ensures forall j :: 0 <= j < |idx| ==> idx[j] < |xs|
  {
    if xs == [] then []
    else
      var rest := Shift(Kept(xs[1..]));
      if IsValid(xs[0]) then [0] + rest else rest
  }

  /** The gate's output is the merge output with the invalid records taken out, order kept. */
  lemma {:induction false} ValidOnlyPicks(xs: seq<Record>)
    ensures forall j :: 0 <= j < |Kept(xs)| ==> ValidOnly(xs)[j] == xs[Kept(xs)[j]]
  {
    if xs != [] {
      ValidOnlyPicks(xs[1..]);
      var rest := Kept(xs[1..]);
      assert forall j :: 0 <= j < |rest| ==> xs[rest[j] + 1] == xs[1..][rest[j]];
    }
  }

  /** Every valid record of the merge output is kept. */
  lemma {:induction false} KeptComplete(xs: seq<Record>)
    ensures forall i :: 0 <= i < |xs| && IsValid(xs[i]) ==> i in Kept(xs)
  {
    if xs != [] {
      KeptComplete(xs[1..]);
      var rest := Kept(xs[1..]);
      var shifted := Shift(rest);
      forall i | 1 <= i < |xs| && IsValid(xs[i]) ensures i in shifted {
        assert xs[1..][i - 1] == xs[i];
        var j :| 0 <= j < |rest| && rest[j] == i - 1;
        assert shifted[j] == i;
      }
    }
  }

  /** A valid record occurs in the output as often as in the input. */
  lemma {:induction false} ValidOnlyCounts(xs: seq<Record>, x: CountryRecord)
    ensures multiset(ValidOnly(xs))[x] == multiset(xs)[x]
  {
    if xs != [] {
      ValidOnlyCounts(xs[1..], x);
      assert xs == [xs[0]] + xs[1..];
    }
  }
}
