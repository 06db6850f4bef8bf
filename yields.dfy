/** The yield view: one row per deployment location (its largest explosion),
    the `n` largest of those, shown in ascending order of upper yield and
    labelled "location (year)". */
module Yields {
  import opened Events
  import opened Seqs
  import Sorting
  import Names

  function DigitChar(d: nat): (c: char)
    requires d < 10
    ensures '0' <= c <= '9'
  {
    (48 + d) as char
  }

  function DigitValue(c: char): nat
    requires '0' <= c <= '9'
  {
    c as int - 48
  }

  predicate IsDigits(s: string) {
    forall i :: 0 <= i < |s| ==> '0' <= s[i] <= '9'
  }

  /** Decimal digits of `n`, most significant first. */
  function NatToString(n: nat): (s: string)
    ensures |s| > 0 && IsDigits(s)
  {
    if n < 10 then [DigitChar(n)] else NatToString(n / 10) + [DigitChar(n % 10)]
  }

  /** `astype(str)` of an integer. */
  function IntToString(n: int): (s: string)
    ensures |s| > 0
  {
    if n < 0 then "-" + NatToString(-n) else NatToString(n)
  }

  function ParseDigits(s: string): nat
    requires IsDigits(s)
  {
    if s == [] then 0 else ParseDigits(s[..|s| - 1]) * 10 + DigitValue(s[|s| - 1])
  }

  /** Reads back an integer written by `IntToString`. */
  function ParseInt(s: string): Option<int> {
    if |s| > 1 && s[0] == '-' && IsDigits(s[1..]) then Some(-(ParseDigits(s[1..]) as int))
    else if |s| > 0 && IsDigits(s) then Some(ParseDigits(s))
    else None
  }

  lemma {:induction false} NatToStringRoundTrip(n: nat)
    ensures ParseDigits(NatToString(n)) == n
  {
    if n >= 10 {
      NatToStringRoundTrip(n / 10);
      var s := NatToString(n);
      assert s[..|s| - 1] == NatToString(n / 10);
    }
  }

  lemma IntToStringRoundTrip(n: int)
    ensures ParseInt(IntToString(n)) == Some(n)
  {
    if n < 0 {
      NatToStringRoundTrip(-n);
      assert IntToString(n)[1..] == NatToString(-n);
    } else {
      NatToStringRoundTrip(n);
      assert IntToString(n)[0] != '-';
    }
  }

  /** The `Unique Identifier` column: `location + " (" + year + ")"`. */
  function UniqueIdentifier(e: Event): (text: string)
    ensures |text| > |e.location| + 2
    ensures text[..|e.location|] == e.location && text[|e.location|..|e.location| + 2] == " ("
    ensures text[|text| - 1] == ')'
  {
    e.location + " (" + IntToString(e.year) + ")"
  }

  /** The year written in a label, given the location it starts with. */
  function YearOfLabel(text: string, location: string): Option<int> {
    var prefix := location + " (";
    if |text| > |prefix| && text[..|prefix|] == prefix && text[|text| - 1] == ')'
    then ParseInt(text[|prefix|..|text| - 1])
    else None
  }

  /** A label starts with its row's location and gives back its row's year. */
  lemma LabelRoundTrip(e: Event)
    ensures |UniqueIdentifier(e)| > |e.location| && UniqueIdentifier(e)[..|e.location|] == e.location
    ensures YearOfLabel(UniqueIdentifier(e), e.location) == Some(e.year)
  {
    var text := UniqueIdentifier(e);
    var prefix := e.location + " (";
    assert text == prefix + IntToString(e.year) + ")";
    assert text[..|prefix|] == prefix;
    assert text[|prefix|..|text| - 1] == IntToString(e.year);
    IntToStringRoundTrip(e.year);
  }

  /** Two rows at the same location have the same label exactly when they
      are from the same year. */
  lemma LabelsSeparateYears(a: Event, b: Event)
    requires a.location == b.location
    ensures UniqueIdentifier(a) == UniqueIdentifier(b) <==> a.year == b.year
  {
    LabelRoundTrip(a);
    LabelRoundTrip(b);
  }

  function Upper(e: Event): real { e.yieldUpper }

  function LocationColumn(rows: seq<Event>): (r: seq<string>)
    ensures |r| == |rows| && forall i :: 0 <= i < |rows| ==> r[i] == rows[i].location
  {
    seq(|rows|, i requires 0 <= i < |rows| => rows[i].location)
  }

  /** Row `i` is the first row at `loc` with the largest upper yield at `loc`. */
  predicate IsFirstMaxAt(rows: seq<Event>, loc: string, i: int) {
    && 0 <= i < |rows| && rows[i].location == loc
    && (forall k :: 0 <= k < |rows| && rows[k].location == loc ==> rows[k].yieldUpper <= rows[i].yieldUpper)
    && (forall k :: 0 <= k < i && rows[k].location == loc ==> rows[k].yieldUpper < rows[i].yieldUpper)
  }

  /** `idxmax` of the upper yield within the group of `loc`. */
  function IdxMax(rows: seq<Event>, loc: string): (r: Option<nat>)
    ensures r.None? <==> loc !in LocationColumn(rows)
    ensures r.Some? ==> IsFirstMaxAt(rows, loc, r.value)
  {
    if rows == [] then None
    else
      var init := rows[..|rows| - 1];
      var last := rows[|rows| - 1];
      var p := IdxMax(init, loc);
      assert forall k :: 0 <= k < |init| ==> init[k] == rows[k];
      assert LocationColumn(rows) == LocationColumn(init) + [last.location];
      if last.location != loc then p
      else if p.None? || last.yieldUpper > rows[p.value].yieldUpper then Some(|rows| - 1)
      else p
  }

  /** `x` is the first largest explosion at its own location. */
  ghost predicate IsBestRow(rows: seq<Event>, x: Event) {
    exists i :: IsFirstMaxAt(rows, x.location, i) && x == rows[i]
  }

  predicate DistinctLocations(rows: seq<Event>) {
    forall i, j :: 0 <= i < j < |rows| ==> rows[i].location != rows[j].location
  }

  /** Strictly ascending by location name, the order of `groupby`'s keys. */
  predicate ByLocation(rows: seq<Event>) {
    forall i, j :: 0 <= i < j < |rows| ==> Names.Below(rows[i].location, rows[j].location)
  }

  /** The keys of `groupby(location)`: every location once, in ascending order. */
  function GroupKeys(rows: seq<Event>): (k: seq<string>)
    ensures |k| == |Distinct(LocationColumn(rows))|
    ensures NoDuplicates(k)
    ensures forall i, j :: 0 <= i < j < |k| ==> Names.Below(k[i], k[j])
    ensures forall loc :: loc in k <==> loc in LocationColumn(rows)
  {
    var distinct := Distinct(LocationColumn(rows));
    Names.SortKeepsNames(distinct);
    Names.AscendingDistinctIsStrict(Names.Sort(distinct));
    Names.Sort(distinct)
  }

  /** `df.loc[idx]` for the `idxmax` of each of the locations `locs`. */
  function RowsAt(rows: seq<Event>, locs: seq<string>): (r: seq<Event>)
    requires forall loc :: loc in locs ==> loc in LocationColumn(rows)
    ensures |r| == |locs|
    ensures forall j :: 0 <= j < |r| ==> r[j].location == locs[j] && IsBestRow(rows, r[j])
  {
    var r := seq(|locs|, j requires 0 <= j < |locs| => rows[IdxMax(rows, locs[j]).value]);
    assert forall j :: 0 <= j < |r| ==> IsFirstMaxAt(rows, locs[j], IdxMax(rows, locs[j]).value);
    r
  }

  /** `df.loc[df.groupby(location)[upper].idxmax()]`: one row per location, its
      first largest explosion, in ascending order of location name. */
  function BestPerLocation(rows: seq<Event>): (r: seq<Event>)
    ensures |r| == |Distinct(LocationColumn(rows))|
    ensures DistinctLocations(r)
    ensures ByLocation(r)
    ensures forall j :: 0 <= j < |r| ==> IsBestRow(rows, r[j])
    ensures forall loc :: loc in LocationColumn(rows) ==> loc in LocationColumn(r)
  {
    var locs := GroupKeys(rows);
    var r := RowsAt(rows, locs);
    assert LocationColumn(r) == locs;
    r
  }

  /** `nlargest(n, upper)`: the first `n` rows in order of non-increasing upper yield. */
  function Largest(rows: seq<Event>, n: nat): (r: seq<Event>)
    ensures |r| == if n < |rows| then n else |rows|
    ensures multiset(r) <= multiset(rows)
  {
    var sorted := Sorting.SortDesc(rows, Upper);
    var k := if n < |sorted| then n else |sorted|;
    assert |sorted| == |multiset(sorted)| == |rows|;
    assert sorted == sorted[..k] + sorted[k..];
    sorted[..k]
  }

  /** The rows the chart shows: the `n` largest per-location maxima, re-sorted
      by ascending upper yield. */
  function TopYields(rows: seq<Event>, n: nat): (r: seq<Event>)
    ensures Sorting.SortedAsc(r, Upper)
  {
    Sorting.SortAsc(Largest(BestPerLocation(rows), n), Upper)
  }

  /** A sub-multiset of rows with distinct locations has distinct locations. */
  lemma {:induction false} DistinctLocationsSub(a: seq<Event>, b: seq<Event>)
    requires multiset(a) <= multiset(b) && DistinctLocations(b)
    ensures DistinctLocations(a)
  {
    assert NoDuplicates(b);
    NoDuplicatesMultiset(b);
    NoDuplicatesMultiset(a);
    forall i, j | 0 <= i < j < |a| ensures a[i].location != a[j].location {
      assert a[i] in multiset(b) && a[j] in multiset(b);
      var p :| 0 <= p < |b| && b[p] == a[i];
      var q :| 0 <= q < |b| && b[q] == a[j];
      assert p != q;
    }
  }

  /** Every per-location row is a row of the table. */
  lemma BestRowsAreRows(rows: seq<Event>)
    ensures forall x :: x in BestPerLocation(rows) ==> x in rows
  {
    var best := BestPerLocation(rows);
    forall x | x in best ensures x in rows {
      var j :| 0 <= j < |best| && best[j] == x;
      assert IsBestRow(rows, best[j]);
    }
  }

  /** When every location occurs once, every row is its location's maximum. */
  lemma DistinctRowsAreBest(rows: seq<Event>)
    requires DistinctLocations(rows)
    ensures forall x :: x in rows ==> x in BestPerLocation(rows)
  {
    var column := LocationColumn(rows);
    var best := BestPerLocation(rows);
    forall x | x in rows ensures x in best {
      var k :| 0 <= k < |rows| && rows[k] == x;
      assert column[k] == x.location && column[k] in column;
      assert x.location in LocationColumn(best);
      var j :| 0 <= j < |best| && LocationColumn(best)[j] == x.location;
      var i :| IsFirstMaxAt(rows, best[j].location, i) && best[j] == rows[i];
      assert i == k;
    }
  }

  /** Two duplicate-free sequences with the same elements are permutations of each other. */
  lemma SameElementsPermutation(a: seq<Event>, b: seq<Event>)
    requires NoDuplicates(a) && NoDuplicates(b)
    requires forall x :: x in a <==> x in b
    ensures multiset(a) == multiset(b)
  {
    NoDuplicatesMultiset(a);
    NoDuplicatesMultiset(b);
    forall x ensures multiset(a)[x] == multiset(b)[x] {
      assert x in a <==> x in multiset(a);
      assert x in b <==> x in multiset(b);
    }
  }

  /** When every location occurs once, the per-location rows are the rows
      themselves, each once, reordered by location name. */
  lemma BestPerLocationOfDistinct(rows: seq<Event>)
    requires DistinctLocations(rows)
    ensures |BestPerLocation(rows)| == |rows|
    ensures forall x :: x in BestPerLocation(rows) <==> x in rows
    ensures multiset(BestPerLocation(rows)) == multiset(rows)
  {
    DistinctOfNoDuplicates(LocationColumn(rows));
    BestRowsAreRows(rows);
    DistinctRowsAreBest(rows);
    var best := BestPerLocation(rows);
    assert NoDuplicates(best) && NoDuplicates(rows);
    SameElementsPermutation(best, rows);
  }

  /** Rows already one per location and in location order come back unchanged. */
  lemma BestPerLocationOfSorted(rows: seq<Event>)
    requires ByLocation(rows)
    ensures BestPerLocation(rows) == rows
  {
    var column := LocationColumn(rows);
    assert DistinctLocations(rows) by {
      forall i, j | 0 <= i < j < |rows| ensures rows[i].location != rows[j].location {
        Names.BelowIrreflexive(rows[i].location);
      }
    }
    DistinctOfNoDuplicates(column);
    assert Names.Ascending(column) by {
      forall i, j | 0 <= i < j < |column| ensures !Names.Below(column[j], column[i]) {
        if Names.Below(column[j], column[i]) {
          Names.BelowTransitive(column[i], column[j], column[i]);
          Names.BelowIrreflexive(column[i]);
        }
      }
    }
    Names.SortAscending(column);
    var best := BestPerLocation(rows);
    forall j | 0 <= j < |rows| ensures best[j] == rows[j] {
      var k := IdxMax(rows, column[j]).value;
      assert IsFirstMaxAt(rows, rows[j].location, k);
      assert k == j;
    }
  }

  /** Taking the per-location maxima a second time changes nothing. */
  lemma BestPerLocationIdempotent(rows: seq<Event>)
    ensures BestPerLocation(BestPerLocation(rows)) == BestPerLocation(rows)
  {
    BestPerLocationOfSorted(BestPerLocation(rows));
  }

  /** The `n` largest rows of a sequence dominate the rows left out. */
  lemma {:induction false} LargestSpec(rows: seq<Event>, n: nat)
    ensures |Largest(rows, n)| == if n < |rows| then n else |rows|
    ensures multiset(Largest(rows, n)) <= multiset(rows)
    ensures forall x, y :: x in rows && x !in Largest(rows, n) && y in Largest(rows, n) ==> x.yieldUpper <= y.yieldUpper
  {
    var sorted := Sorting.SortDesc(rows, Upper);
    var k := if n < |sorted| then n else |sorted|;
    assert |sorted| == |multiset(sorted)| == |rows|;
    assert sorted == sorted[..k] + sorted[k..];
    Sorting.PrefixDominates(sorted, k, Upper);
    forall x | x in rows && x !in sorted[..k] ensures x in sorted[k..] {
      assert x in multiset(sorted);
    }
  }

  /** Every per-location row is the first largest explosion at its location. */
  lemma BestRowsAreFirstMax(rows: seq<Event>, x: Event)
    requires x in BestPerLocation(rows)
    ensures IsBestRow(rows, x)
  {
    var best := BestPerLocation(rows);
    var j :| 0 <= j < |best| && best[j] == x;
  }

  /** The chart's rows are per-location rows, at most `n` of them. */
  lemma {:induction false} TopYieldsFromBest(rows: seq<Event>, n: nat)
    ensures multiset(TopYields(rows, n)) <= multiset(BestPerLocation(rows))
    ensures |TopYields(rows, n)| == |Largest(BestPerLocation(rows), n)|
  {
    var top := Largest(BestPerLocation(rows), n);
    LargestSpec(BestPerLocation(rows), n);
    assert multiset(TopYields(rows, n)) == multiset(top);
    assert |TopYields(rows, n)| == |multiset(TopYields(rows, n))|;
  }

  lemma {:induction false} TopYieldsRows(rows: seq<Event>, n: nat)
    ensures var r := TopYields(rows, n);
      && DistinctLocations(r)
      && (forall j :: 0 <= j < |r| ==> IsBestRow(rows, r[j]))
  {
    var r := TopYields(rows, n);
    TopYieldsFromBest(rows, n);
    DistinctLocationsSub(r, BestPerLocation(rows));
    forall j | 0 <= j < |r| ensures IsBestRow(rows, r[j]) {
      assert r[j] in multiset(r);
      BestRowsAreFirstMax(rows, r[j]);
    }
  }

  lemma {:induction false} TopYieldsDominate(rows: seq<Event>, n: nat)
    ensures var r := TopYields(rows, n);
      forall x, y :: x in BestPerLocation(rows) && x !in r && y in r ==> x.yieldUpper <= y.yieldUpper
  {
    var best := BestPerLocation(rows);
    var top := Largest(best, n);
    var r := TopYields(rows, n);
    LargestSpec(best, n);
    assert multiset(r) == multiset(top);
    forall x, y | x in best && x !in r && y in r ensures x.yieldUpper <= y.yieldUpper {
      assert x !in multiset(top);
      assert y in multiset(top);
    }
  }

  /** The chart's rows: at most `n` (fewer only when there are fewer locations),
      from pairwise distinct locations, each the first largest explosion at its
      location, and none smaller than a per-location maximum left out. */
  lemma {:induction false} TopYieldsSpec(rows: seq<Event>, n: nat)
    ensures var r := TopYields(rows, n);
      var locations := |Distinct(LocationColumn(rows))|;
      && |r| == (if n < locations then n else locations)
      && DistinctLocations(r)
      && (forall j :: 0 <= j < |r| ==> IsBestRow(rows, r[j]))
      && (forall x, y :: x in BestPerLocation(rows) && x !in r && y in r ==> x.yieldUpper <= y.yieldUpper)
  {
    var r := TopYields(rows, n);
    assert |r| == (if n < |Distinct(LocationColumn(rows))| then n else |Distinct(LocationColumn(rows))|) by {
      LargestSpec(BestPerLocation(rows), n);
      TopYieldsFromBest(rows, n);
    }
    assert DistinctLocations(r) && forall j :: 0 <= j < |r| ==> IsBestRow(rows, r[j]) by {
      TopYieldsRows(rows, n);
    }
    assert forall x, y :: x in BestPerLocation(rows) && x !in r && y in r ==> x.yieldUpper <= y.yieldUpper by {
      TopYieldsDominate(rows, n);
    }
  }

  /** One bar pair of the chart. */
  datatype RankedExplosion = RankedExplosion(identifier: string, yieldLower: real, yieldUpper: real)

  function Ranked(e: Event): RankedExplosion {
    RankedExplosion(UniqueIdentifier(e), e.yieldLower, e.yieldUpper)
  }

  /** The data path of `yield_explosions(df, top_n)`. */
  function YieldExplosions(rows: seq<Event>, n: nat): (r: seq<RankedExplosion>)
    ensures |r| == |TopYields(rows, n)|
    ensures forall j :: 0 <= j < |r| ==> r[j] == Ranked(TopYields(rows, n)[j])
  {
    var top := TopYields(rows, n);
    var r := seq(|top|, j requires 0 <= j < |top| => Ranked(top[j]));
    assert |r| == |top|;
    r
  }

  /** The bars are in ascending order of upper yield, at most `n` of them,
      and each bar's label gives back the location and year of its row. */
  lemma {:induction false} YieldExplosionsSpec(rows: seq<Event>, n: nat)
    ensures var r := YieldExplosions(rows, n);
      var top := TopYields(rows, n);
      && |r| <= n
      && (forall i, j :: 0 <= i < j < |r| ==> r[i].yieldUpper <= r[j].yieldUpper)
      && (forall j :: 0 <= j < |r| ==> r[j].identifier[..|top[j].location|] == top[j].location)
      && (forall j :: 0 <= j < |r| ==> YearOfLabel(r[j].identifier, top[j].location) == Some(top[j].year))
  {
    var top := TopYields(rows, n);
    LargestSpec(BestPerLocation(rows), n);
    TopYieldsFromBest(rows, n);
    forall j | 0 <= j < |top| ensures
      && |UniqueIdentifier(top[j])| > |top[j].location|
      && UniqueIdentifier(top[j])[..|top[j].location|] == top[j].location
      && YearOfLabel(UniqueIdentifier(top[j]), top[j].location) == Some(top[j].year)
    {
      LabelRoundTrip(top[j]);
    }
  }
}
