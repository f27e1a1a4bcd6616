/**
 * `data.sort((a, b) => b.GDPPerCapita - a.GDPPerCapita)` on records that
 * passed the gate. Every such record has a GDP figure, so the comparator is
 * a consistent order, and the sort is stable (Array.prototype.sort, section
 * 23.1.3.30 of ECMA-262): records are ordered by GDP per capita from high to
 * low, and records with equal GDP keep their relative order. That result is
 * the same for every stable sort; it is specified here as an insertion sort
 * and computed by an in-place insertion sort on an array.
 */
module Sorting {
  import opened Values
  import opened Merge
  import opened Validity

  function Gdp(r: CountryRecord): real
  {
    r.gdpPerCapita.v
  }

  /** Non-increasing in GDP per capita. */
  predicate SortedDesc(s: seq<CountryRecord>)
  {
    forall i, j :: 0 <= i < j < |s| ==> Gdp(s[i]) >= Gdp(s[j])
  }

  /** Place x after every record whose GDP is at least its own. */
  function Insert(s: seq<CountryRecord>, x: CountryRecord): (r: seq<CountryRecord>)
    ensures |r| == |s| + 1
  {
    if s == [] then [x]
    else if Gdp(s[0]) < Gdp(x) then [x] + s
    else [s[0]] + Insert(s[1..], x)
  }

  /** The stable sort by GDP per capita, descending. */
  function SortDesc(s: seq<CountryRecord>): (r: seq<CountryRecord>)
    ensures |r| == |s|
  {
    if s == [] then [] else Insert(SortDesc(s[..|s| - 1]), s[|s| - 1])
  }

  lemma {:induction false} InsertPermutes(s: seq<CountryRecord>, x: CountryRecord)
    ensures multiset(Insert(s, x)) == multiset(s) + multiset{x}
  {
    if s != [] && Gdp(s[0]) >= Gdp(x) {
      InsertPermutes(s[1..], x);
      assert s == [s[0]] + s[1..];
    }
  }

  /** The sort is a permutation. */
  lemma {:induction false} SortDescPermutes(s: seq<CountryRecord>)
    ensures multiset(SortDesc(s)) == multiset(s)
  {
    if s != [] {
      var p := s[..|s| - 1];
      SortDescPermutes(p);
      InsertPermutes(SortDesc(p), s[|s| - 1]);
      assert s == p + [s[|s| - 1]];
    }
  }

  /** Where `Insert` puts x: just before the first record with a lower GDP. */
  lemma {:induction false} InsertAt(s: seq<CountryRecord>, x: CountryRecord, j: nat)
    requires j <= |s|
    requires forall k :: 0 <= k < j ==> Gdp(s[k]) >= Gdp(x)
    requires j == |s| || Gdp(s[j]) < Gdp(x)
    ensures Insert(s, x) == s[..j] + [x] + s[j..]
  {
    if j == 0 {
      InsertAtFront(s, x);
    } else {
      var t := s[1..];
      assert forall k :: 0 <= k < j - 1 ==> t[k] == s[k + 1];
      InsertAt(t, x, j - 1);
      InsertAtStep(s, x, j);
    }
  }

  lemma InsertAtFront(s: seq<CountryRecord>, x: CountryRecord)
    requires s == [] || Gdp(s[0]) < Gdp(x)
    ensures Insert(s, x) == s[..0] + [x] + s[0..]
  {
    assert s[..0] == [] && s[0..] == s;
    AppendEmpty([x] + s);
  }

  lemma InsertAtStep(s: seq<CountryRecord>, x: CountryRecord, j: nat)
    requires 0 < j <= |s| && Gdp(s[0]) >= Gdp(x)
    requires Insert(s[1..], x) == s[1..][..j - 1] + [x] + s[1..][j - 1..]
    ensures Insert(s, x) == s[..j] + [x] + s[j..]
  {
    assert s[1..][..j - 1] == s[1..j] && s[1..][j - 1..] == s[j..];
    assert [s[0]] + s[1..j] == s[..j];
    Associates([s[0]], s[1..j] + [x], s[j..]);
    Associates([s[0]], s[1..j], [x]);
  }

  lemma InsertSorted(s: seq<CountryRecord>, x: CountryRecord)
    requires SortedDesc(s)
    ensures SortedDesc(Insert(s, x))
  {
    var j := FirstBelow(s, x);
    InsertAt(s, x, j);
  }

  /** The index of the first record whose GDP is below that of x, or |s|. */
  function FirstBelow(s: seq<CountryRecord>, x: CountryRecord): (j: nat)
    requires SortedDesc(s)
    ensures j <= |s|
    ensures forall k :: 0 <= k < j ==> Gdp(s[k]) >= Gdp(x)
    ensures forall k :: j <= k < |s| ==> Gdp(s[k]) < Gdp(x)
  {
    if s == [] then 0
    else if Gdp(s[0]) < Gdp(x) then 0
    else 1 + FirstBelow(s[1..], x)
  }

  /** The sort produces a non-increasing sequence. */
  lemma {:induction false} SortDescSorted(s: seq<CountryRecord>)
    ensures SortedDesc(SortDesc(s))
  {
    if s != [] {
      SortDescSorted(s[..|s| - 1]);
      InsertSorted(SortDesc(s[..|s| - 1]), s[|s| - 1]);
    }
  }

  /** The records of s with GDP g, in their order in s. */
  function WithGdp(s: seq<CountryRecord>, g: real): (r: seq<CountryRecord>)
    ensures forall k :: 0 <= k < |r| ==> Gdp(r[k]) == g
  {
    if s == [] then []
    else (if Gdp(s[0]) == g then [s[0]] else []) + WithGdp(s[1..], g)
  }

  lemma {:induction false} WithGdpAppend(a: seq<CountryRecord>, b: seq<CountryRecord>, g: real)
    ensures WithGdp(a + b, g) == WithGdp(a, g) + WithGdp(b, g)
  {
    if a == [] {
      assert a + b == b;
    } else {
      assert (a + b)[1..] == a[1..] + b;
      WithGdpAppend(a[1..], b, g);
    }
  }

  lemma {:induction false} WithGdpNone(s: seq<CountryRecord>, g: real)
    requires forall k :: 0 <= k < |s| ==> Gdp(s[k]) != g
    ensures WithGdp(s, g) == []
  {
    if s != [] {
      WithGdpNone(s[1..], g);
    }
  }

  lemma WithGdpSingle(x: CountryRecord, g: real)
    ensures WithGdp([x], g) == if Gdp(x) == g then [x] else []
  {
    assert [x][1..] == [];
  }

  /** Inserting x into a sorted sequence puts it after every other record with its GDP. */
  lemma InsertStable(s: seq<CountryRecord>, x: CountryRecord, g: real)
    requires SortedDesc(s)
    ensures WithGdp(Insert(s, x), g) == WithGdp(s, g) + WithGdp([x], g)
  {
    var j := FirstBelow(s, x);
    InsertAt(s, x, j);
    assert s[..j] + s[j..] == s;
    InsertStableAt(s[..j], x, s[j..], g);
  }

  lemma InsertStableAt(pre: seq<CountryRecord>, x: CountryRecord, post: seq<CountryRecord>, g: real)
    requires forall k :: 0 <= k < |post| ==> Gdp(post[k]) < Gdp(x)
    ensures WithGdp(pre + [x] + post, g) == WithGdp(pre + post, g) + WithGdp([x], g)
  {
    WithGdpAppend(pre + [x], post, g);
    WithGdpAppend(pre, [x], g);
    WithGdpAppend(pre, post, g);
    WithGdpSingle(x, g);
    if Gdp(x) == g {
      WithGdpNone(post, g);
      AppendEmpty(WithGdp(pre, g) + [x]);
      AppendEmpty(WithGdp(pre, g));
    } else {
      AppendEmpty(WithGdp(pre, g));
      AppendEmpty(WithGdp(pre, g) + WithGdp(post, g));
    }
  }

  /** Stability: records with equal GDP come out in the order they went in. */
  lemma {:induction false} SortDescStable(s: seq<CountryRecord>, g: real)
    ensures WithGdp(SortDesc(s), g) == WithGdp(s, g)
  {
    if s != [] {
      var p := s[..|s| - 1];
      SortDescStable(p, g);
      SortDescSorted(p);
      InsertStable(SortDesc(p), s[|s| - 1], g);
      assert s == p + [s[|s| - 1]];
      WithGdpAppend(p, [s[|s| - 1]], g);
    }
  }

  /** A sequence that is already sorted is left as it is. */
  lemma {:induction false} SortDescOfSorted(s: seq<CountryRecord>)
    requires SortedDesc(s)
    ensures SortDesc(s) == s
  {
    if s != [] {
      var p, last := s[..|s| - 1], s[|s| - 1];
      SortedLast(s);
      SortDescOfSorted(p);
      InsertAt(p, last, |p|);
      assert p[..|p|] == p && p[|p|..] == [];
      AppendEmpty(p + [last]);
      assert p + [last] == s;
    }
  }

  /** Dropping the last record of a sorted sequence leaves it sorted, above that record. */
  lemma SortedLast(s: seq<CountryRecord>)
    requires SortedDesc(s) && s != []
    ensures SortedDesc(s[..|s| - 1])
    ensures forall k :: 0 <= k < |s| - 1 ==> Gdp(s[k]) >= Gdp(s[|s| - 1])
  {
  }

  /** The in-place insertion sort, with the same result as `SortDesc`. */
  method SortByGdpDescending(a: array<CountryRecord>)
    modifies a
    ensures a[..] == SortDesc(old(a[..]))
  {
    ghost var s := a[..];
    var i := 0;
    while i < a.Length
      invariant 0 <= i <= a.Length
      invariant a[..i] == SortDesc(s[..i])
      invariant a[i..] == s[i..]
    {
      SortDescSorted(s[..i]);
      assert a[i] == s[i];
      InsertNext(a, i);
      assert s[..i + 1] == s[..i] + [s[i]];
      assert s[..i + 1][..i] == s[..i];
      assert a[i + 1..] == s[i + 1..];
      i := i + 1;
    }
    assert a[..] == a[..a.Length];
    assert s == s[..a.Length];
  }

  /** One pass of the insertion sort: a[i] is moved into the sorted run a[..i]. */
  method InsertNext(a: array<CountryRecord>, i: nat)
    requires i < a.Length && SortedDesc(a[..i])
    modifies a
    ensures a[..i + 1] == Insert(old(a[..i]), old(a[i]))
    ensures a[i + 1..] == old(a[i + 1..])
  {
    ghost var sorted := a[..i];
    var x := a[i];
    var j := MakeRoom(a, i, x);
    a[j] := x;
    PlacedIsInsert(sorted, x, j, a[..i + 1]);
  }

  /**
   * The inner loop of the pass: shift the records of a[..i] with a GDP
   * below that of x one place to the right, and return the gap left.
   */
  method MakeRoom(a: array<CountryRecord>, i: nat, x: CountryRecord) returns (j: nat)
    requires i < a.Length
    modifies a
    ensures j <= i
    ensures forall k :: 0 <= k < j ==> a[k] == old(a[k])
    ensures forall k :: j < k <= i ==> a[k] == old(a[k - 1])
    ensures forall k :: i < k < a.Length ==> a[k] == old(a[k])
    ensures forall k :: j <= k < i ==> Gdp(old(a[k])) < Gdp(x)
    ensures j == 0 || Gdp(a[j - 1]) >= Gdp(x)
  {
    j := i;
    while j > 0 && Gdp(a[j - 1]) < Gdp(x)
      invariant 0 <= j <= i
      invariant forall k :: 0 <= k < j ==> a[k] == old(a[k])
      invariant forall k :: j < k <= i ==> a[k] == old(a[k - 1])
      invariant forall k :: i < k < a.Length ==> a[k] == old(a[k])
      invariant forall k :: j <= k < i ==> Gdp(old(a[k])) < Gdp(x)
    {
      a[j] := a[j - 1];
      j := j - 1;
    }
  }

  /** The array contents an insertion pass leaves behind are `Insert` of the sorted run. */
  lemma PlacedIsInsert(sorted: seq<CountryRecord>, x: CountryRecord, j: nat, b: seq<CountryRecord>)
    requires SortedDesc(sorted) && j <= |sorted| && |b| == |sorted| + 1
    requires j == 0 || Gdp(sorted[j - 1]) >= Gdp(x)
    requires forall k :: j <= k < |sorted| ==> Gdp(sorted[k]) < Gdp(x)
    requires forall k :: 0 <= k < j ==> b[k] == sorted[k]
    requires b[j] == x
    requires forall k :: j < k < |b| ==> b[k] == sorted[k - 1]
    ensures b == Insert(sorted, x)
  {
    assert forall k :: 0 <= k < j ==> Gdp(sorted[k]) >= Gdp(x);
    InsertAt(sorted, x, j);
    var r := sorted[..j] + [x] + sorted[j..];
    assert forall k :: 0 <= k < j ==> r[k] == sorted[k];
    assert forall k :: j < k < |b| ==> r[k] == sorted[k - 1];
  }
}
