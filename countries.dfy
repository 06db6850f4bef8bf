/** The country view: source-country codes replaced by display names,
    explosions counted per country, the selection restricted to the chosen
    countries, the long tail folded into "Others", and the largest slice
    singled out. */
module Countries {
  import opened Events
  import opened Seqs
  import Sorting

  /** The fixed code-to-name replacement table of the view. */
  const CountryNames: map<string, string> := map[
    "USA" := "United States",
    "USSR" := "Soviet Union",
    "FRANCE" := "France",
    "CHINA" := "China",
    "UK" := "United Kingdom",
    "INDIA" := "India",
    "PAKIST" := "Pakistan"]

  /** `Series.replace(dict)` on one value: codes of the table become names,
      anything else is left as it is. */
  function DisplayName(code: string): (name: string)
    ensures name == code <==> code !in CountryNames
    ensures code in CountryNames ==> name in CountryNames.Values
    ensures name !in CountryNames
  {
    if code in CountryNames then CountryNames[code] else code
  }

  /** The `WEAPON SOURCE COUNTRY` column overwritten with display names. */
  function NormaliseCountries(rows: seq<Event>): (r: seq<Event>)
    ensures |r| == |rows|
    ensures forall i :: 0 <= i < |rows| ==> r[i] == rows[i].(sourceCountry := DisplayName(rows[i].sourceCountry))
  {
    seq(|rows|, i requires 0 <= i < |rows| => rows[i].(sourceCountry := DisplayName(rows[i].sourceCountry)))
  }

  /** Running the view's replacement on an already normalised table changes nothing,
      and every code of the table is gone from the column. */
  lemma NormaliseCountriesIdempotent(rows: seq<Event>)
    ensures NormaliseCountries(NormaliseCountries(rows)) == NormaliseCountries(rows)
    ensures forall i :: 0 <= i < |rows| ==> NormaliseCountries(rows)[i].sourceCountry !in CountryNames
  {
  }

  /** The country column. */
  function CountryColumn(rows: seq<Event>): (r: seq<string>)
    ensures |r| == |rows| && forall i :: 0 <= i < |rows| ==> r[i] == rows[i].sourceCountry
  {
    seq(|rows|, i requires 0 <= i < |rows| => rows[i].sourceCountry)
  }

  /** One row of `value_counts()`. */
  datatype CountryCount = CountryCount(country: string, count: nat)

  function Countries(t: seq<CountryCount>): (r: seq<string>)
    ensures |r| == |t| && forall i :: 0 <= i < |t| ==> r[i] == t[i].country
  {
    seq(|t|, i requires 0 <= i < |t| => t[i].country)
  }

  function Counts(c: CountryCount): int { c.count }

  lemma {:induction false} CountsNonNegative(t: seq<CountryCount>)
    ensures Sum(t, Counts) >= 0
  {
    if t != [] {
      CountsNonNegative(t[1..]);
    }
  }

  /** Number of rows a table of counts accounts for. */
  function Total(t: seq<CountryCount>): nat {
    CountsNonNegative(t);
    Sum(t, Counts)
  }

  predicate DistinctCountries(t: seq<CountryCount>) {
    forall i, j :: 0 <= i < j < |t| ==> t[i].country != t[j].country
  }

  /** `t` counts the values of `xs`: one row per distinct value, each with its multiplicity. */
  predicate IsTallyOf(t: seq<CountryCount>, xs: seq<string>) {
    && DistinctCountries(t)
    && (forall i :: 0 <= i < |t| ==> t[i].count == multiset(xs)[t[i].country] && t[i].count > 0)
    && (forall x :: x in xs ==> x in Countries(t))
  }

  predicate NonIncreasing(t: seq<CountryCount>) {
    forall i, j :: 0 <= i < j < |t| ==> t[i].count >= t[j].count
  }

  function Occurrences(xs: seq<string>): string -> real {
    (k: string) => multiset(xs)[k] as real
  }

  /** The distinct values of `xs` ordered by non-increasing multiplicity,
      ties in order of first appearance. */
  function CountKeys(xs: seq<string>): seq<string> {
    Sorting.SortDesc(Distinct(xs), Occurrences(xs))
  }

  lemma CountKeysSpec(xs: seq<string>)
    ensures NoDuplicates(CountKeys(xs))
    ensures forall k :: k in CountKeys(xs) ==> k in xs
    ensures forall x :: x in xs ==> x in CountKeys(xs)
    ensures Sorting.SortedDesc(CountKeys(xs), Occurrences(xs))
  {
    var d := Distinct(xs);
    var keys := CountKeys(xs);
    assert multiset(keys) == multiset(d);
    assert forall k :: k in keys <==> k in multiset(d);
    NoDuplicatesMultiset(d);
    NoDuplicatesMultiset(keys);
  }

  /** `value_counts()`: the distinct values in order of non-increasing count. */
  function ValueCounts(xs: seq<string>): (r: seq<CountryCount>)
    ensures IsTallyOf(r, xs)
    ensures NonIncreasing(r)
  {
    var keys := CountKeys(xs);
    CountKeysSpec(xs);
    var r := seq(|keys|, i requires 0 <= i < |keys| => CountryCount(keys[i], multiset(xs)[keys[i]]));
    assert Countries(r) == keys;
    assert forall i :: 0 <= i < |r| ==> r[i].count > 0 by {
      forall i | 0 <= i < |r| ensures r[i].count > 0 {
        assert keys[i] in keys;
      }
    }
    assert NonIncreasing(r) by {
      forall i, j | 0 <= i < j < |r| ensures r[i].count >= r[j].count {
        assert Occurrences(xs)(keys[i]) >= Occurrences(xs)(keys[j]);
      }
    }
    r
  }

  /** Sum of the multiplicities in `xs` of the values in `keys`. */
  function OccurrenceSum(keys: seq<string>, xs: seq<string>): int {
    if keys == [] then 0 else multiset(xs)[keys[0]] + OccurrenceSum(keys[1..], xs)
  }

  lemma {:induction false} TotalIsOccurrenceSum(t: seq<CountryCount>, xs: seq<string>)
    requires forall i :: 0 <= i < |t| ==> t[i].count == multiset(xs)[t[i].country]
    ensures Total(t) == OccurrenceSum(Countries(t), xs)
  {
    if t != [] {
      assert Countries(t)[1..] == Countries(t[1..]);
      TotalIsOccurrenceSum(t[1..], xs);
    }
  }

  lemma {:induction false} OccurrenceSumEmpty(keys: seq<string>)
    ensures OccurrenceSum(keys, []) == 0
  {
    if keys != [] {
      OccurrenceSumEmpty(keys[1..]);
    }
  }

  lemma {:induction false} OccurrenceSumSnoc(keys: seq<string>, xs: seq<string>, x: string)
    requires NoDuplicates(keys)
    ensures OccurrenceSum(keys, xs + [x]) == OccurrenceSum(keys, xs) + if x in keys then 1 else 0
  {
    if keys != [] {
      assert NoDuplicates(keys[1..]) by {
        forall i, j | 0 <= i < j < |keys| - 1 ensures keys[1..][i] != keys[1..][j] {
          assert keys[1..][i] == keys[i + 1] && keys[1..][j] == keys[j + 1];
        }
      }
      OccurrenceSumSnoc(keys[1..], xs, x);
      assert multiset(xs + [x]) == multiset(xs) + multiset{x};
      if x == keys[0] {
        assert x !in keys[1..] by {
          forall i | 0 <= i < |keys| - 1 ensures keys[1..][i] != x {
            assert keys[1..][i] == keys[i + 1];
          }
        }
      } else {
        assert x in keys <==> x in keys[1..] by {
          assert keys == [keys[0]] + keys[1..];
        }
      }
    }
  }

  lemma {:induction false} OccurrenceSumCoversAll(keys: seq<string>, xs: seq<string>)
    requires NoDuplicates(keys)
    requires forall x :: x in xs ==> x in keys
    ensures OccurrenceSum(keys, xs) == |xs|
  {
    if xs == [] {
      OccurrenceSumEmpty(keys);
    } else {
      var init := xs[..|xs| - 1];
      assert xs == init + [xs[|xs| - 1]];
      OccurrenceSumCoversAll(keys, init);
      OccurrenceSumSnoc(keys, init, xs[|xs| - 1]);
    }
  }

  /** A table of counts accounts for every value it tallies exactly once. */
  lemma TotalOfTally(t: seq<CountryCount>, xs: seq<string>)
    requires IsTallyOf(t, xs)
    ensures Total(t) == |xs|
  {
    TotalIsOccurrenceSum(t, xs);
    OccurrenceSumCoversAll(Countries(t), xs);
  }

  /** `country_counts.index[:4]`: the default selection of the multiselect. */
  function DefaultSelection(counts: seq<CountryCount>): (d: seq<string>)
    ensures |d| == if |counts| < 4 then |counts| else 4
    ensures forall i :: 0 <= i < |d| ==> d[i] == counts[i].country
  {
    Countries(counts[..if |counts| < 4 then |counts| else 4])
  }

  /** The default selection is the (up to) four most frequent countries, none repeated. */
  lemma DefaultSelectionSpec(xs: seq<string>)
    ensures var counts := ValueCounts(xs);
      var d := DefaultSelection(counts);
      && |d| == (if |counts| < 4 then |counts| else 4)
      && NoDuplicates(d)
      && (forall c :: c in d ==> c in xs)
      && (forall i, j :: 0 <= i < |d| <= j < |counts| ==> multiset(xs)[d[i]] >= counts[j].count)
  {
    var counts := ValueCounts(xs);
    var d := DefaultSelection(counts);
    forall i | 0 <= i < |d| ensures d[i] == counts[i].country && d[i] in xs {
      assert counts[i].count > 0;
    }
  }

  /** The mask `country_counts.index.isin(selected_countries)`. */
  function IsSelected(selected: seq<string>): CountryCount -> bool {
    (c: CountryCount) => c.country in selected
  }

  /** The mask `isin(selected_countries)` on the country column. */
  function NameSelected(selected: seq<string>): string -> bool {
    (x: string) => x in selected
  }

  /** The counts of the selected countries; an empty selection gives an empty table. */
  function SelectCountries(counts: seq<CountryCount>, selected: seq<string>): (r: seq<CountryCount>)
    ensures forall c :: c in r ==> c in counts && c.country in selected
    ensures forall c :: c in counts && c.country in selected ==> c in r
  {
    if |selected| > 0 then Filter(counts, IsSelected(selected)) else []
  }

  lemma {:induction false} FilterKeepsOrder(t: seq<CountryCount>, p: CountryCount -> bool)
    ensures DistinctCountries(t) ==> DistinctCountries(Filter(t, p))
    ensures NonIncreasing(t) ==> NonIncreasing(Filter(t, p))
  {
    if t != [] {
      var u := Filter(t[1..], p);
      FilterKeepsOrder(t[1..], p);
      if p(t[0]) {
        var r := Filter(t, p);
        assert r == [t[0]] + u;
        forall j | 0 < j < |r| ensures r[j] in t[1..] {
          assert r[j] == u[j - 1] && u[j - 1] in u;
        }
        forall j | 0 < j < |r| ensures (DistinctCountries(t) ==> r[0].country != r[j].country)
          && (NonIncreasing(t) ==> r[0].count >= r[j].count)
        {
          var k :| 0 <= k < |t| - 1 && t[1..][k] == r[j];
          assert t[k + 1] == r[j];
        }
      }
    }
  }

  /** The selected counts tally the rows whose country is selected. */
  lemma {:induction false} SelectedIsTally(xs: seq<string>, selected: seq<string>)
    ensures IsTallyOf(SelectCountries(ValueCounts(xs), selected), Filter(xs, NameSelected(selected)))
  {
    var counts := ValueCounts(xs);
    var f := SelectCountries(counts, selected);
    var ys := Filter(xs, NameSelected(selected));
    if |selected| > 0 {
      FilterKeepsOrder(counts, IsSelected(selected));
    }
    SelectedCounts(counts, xs, selected);
    SelectedCovers(counts, xs, selected);
  }

  lemma {:induction false} SelectedCounts(counts: seq<CountryCount>, xs: seq<string>, selected: seq<string>)
    requires IsTallyOf(counts, xs)
    ensures var f := SelectCountries(counts, selected);
      forall i :: 0 <= i < |f| ==> f[i].count == multiset(Filter(xs, NameSelected(selected)))[f[i].country] && f[i].count > 0
  {
    var f := SelectCountries(counts, selected);
    FilterMultiset(xs, NameSelected(selected));
    forall i | 0 <= i < |f|
      ensures f[i].count == multiset(Filter(xs, NameSelected(selected)))[f[i].country] && f[i].count > 0
    {
      assert f[i] in f;
      var k :| 0 <= k < |counts| && counts[k] == f[i];
    }
  }

  lemma {:induction false} SelectedCovers(counts: seq<CountryCount>, xs: seq<string>, selected: seq<string>)
    requires IsTallyOf(counts, xs)
    ensures forall x :: x in Filter(xs, NameSelected(selected)) ==> x in Countries(SelectCountries(counts, selected))
  {
    var f := SelectCountries(counts, selected);
    forall x | x in Filter(xs, NameSelected(selected)) ensures x in Countries(f) {
      assert x in xs && x in selected;
      var k :| 0 <= k < |counts| && Countries(counts)[k] == x;
      assert counts[k] in f;
      var j :| 0 <= j < |f| && f[j] == counts[k];
      assert Countries(f)[j] == x;
    }
  }

  /** Restricting to the selection keeps the descending order, keeps one row per
      country, and the slices account for exactly the rows whose country is selected. */
  lemma {:induction false} SelectCountriesSpec(xs: seq<string>, selected: seq<string>)
    ensures var f := SelectCountries(ValueCounts(xs), selected);
      && NonIncreasing(f)
      && IsTallyOf(f, Filter(xs, NameSelected(selected)))
      && Total(f) == |Filter(xs, NameSelected(selected))|
  {
    FilterKeepsOrder(ValueCounts(xs), IsSelected(selected));
    SelectedIsTally(xs, selected);
    TotalOfTally(SelectCountries(ValueCounts(xs), selected), Filter(xs, NameSelected(selected)));
  }

  /** The label of the bucket that collects the countries after the third. */
  const Others: string := "Others"

  /** Row `k` is the first row of `t` labelled `key`. */
  predicate FirstLabelled(t: seq<CountryCount>, key: string, k: int) {
    0 <= k < |t| && t[k].country == key && forall i :: 0 <= i < k ==> t[i].country != key
  }

  /** `series[key] = value`: overwrites the row labelled `key` in place, or
      appends a row when no row carries that label. Labels are unique in the
      `value_counts` index this is applied to; with a repeated label pandas
      would overwrite every such row, while this replaces the first. */
  function SetCount(t: seq<CountryCount>, key: string, value: nat): (r: seq<CountryCount>)
    ensures key !in Countries(t) ==> r == t + [CountryCount(key, value)]
    ensures key in Countries(t) ==> |r| == |t|
  {
    if t == [] then [CountryCount(key, value)]
    else if t[0].country == key then
      [CountryCount(key, value)] + t[1..]
    else
      assert Countries(t) == [t[0].country] + Countries(t[1..]);
      [t[0]] + SetCount(t[1..], key, value)
  }

  /** Assigning to a label that is present replaces its row (the first, were
      the label repeated) and nothing else. */
  lemma {:induction false} SetCountOverwrites(t: seq<CountryCount>, key: string, value: nat, k: int)
    requires FirstLabelled(t, key, k)
    ensures SetCount(t, key, value) == t[..k] + [CountryCount(key, value)] + t[k + 1..]
  {
    if k > 0 {
      assert FirstLabelled(t[1..], key, k - 1);
      SetCountOverwrites(t[1..], key, value, k - 1);
      assert t[..k] == [t[0]] + t[1..][..k - 1] && t[k + 1..] == t[1..][k..];
    }
  }

  /** The slices of the pie: more than four rows become the first three plus an
      "Others" row holding the sum of the rest. */
  function TopCountries(f: seq<CountryCount>): (r: seq<CountryCount>)
    ensures |f| <= 4 ==> r == f
  {
    if |f| > 4 then SetCount(f[..3], Others, Total(f[3..]))
    else f
  }

  /** With more than four rows and no selected country called "Others", the
      pie has exactly four slices: the first three rows unchanged and then the
      sum of the rest; in every such case the pie accounts for every row. */
  lemma {:induction false} TopCountriesSpec(f: seq<CountryCount>)
    requires Others !in Countries(f[..if |f| < 3 then |f| else 3])
    ensures |f| > 4 ==> TopCountries(f) == f[..3] + [CountryCount(Others, Total(f[3..]))]
    ensures |TopCountries(f)| <= 4
    ensures Total(TopCountries(f)) == Total(f)
  {
    if |f| > 4 {
      var r := TopCountries(f);
      var o := CountryCount(Others, Total(f[3..]));
      SumConcat(f[..3], [o], Counts);
      SumConcat(f[..3], f[3..], Counts);
      assert f == f[..3] + f[3..];
      assert Total([o]) == Total(f[3..]) by {
        assert [o][1..] == [];
      }
    }
  }

  /** Row `i` holds the first largest count of `t`. */
  predicate IsFirstMax(t: seq<CountryCount>, i: int) {
    && 0 <= i < |t|
    && (forall k :: 0 <= k < |t| ==> t[k].count <= t[i].count)
    && (forall k :: 0 <= k < i ==> t[k].count < t[i].count)
  }

  /** `Series.argmax()`: position of the first largest count. */
  function ArgMax(t: seq<CountryCount>): (i: nat)
    requires t != []
    ensures IsFirstMax(t, i)
  {
    if |t| == 1 then 0
    else
      var j := ArgMax(t[1..]);
      assert forall k :: 1 <= k < |t| ==> t[k] == t[1..][k - 1];
      if t[0].count >= t[1..][j].count then 0 else j + 1
  }

  /** The `explodes` list: 0.25 for the first largest slice, 0 for every other one. */
  function Explodes(t: seq<CountryCount>): (r: seq<real>)
    ensures |r| == |t|
    ensures forall i :: 0 <= i < |t| ==> r[i] == (if IsFirstMax(t, i) then 0.25 else 0.0)
  {
    assert forall i :: 0 <= i < |t| ==> (IsFirstMax(t, i) <==> i == ArgMax(t));
    seq(|t|, i requires 0 <= i < |t| => if i == ArgMax(t) then 0.25 else 0.0)
  }

  /** Exactly one slice of a non-empty pie is pulled out. */
  lemma ExactlyOneExploded(t: seq<CountryCount>)
    requires t != []
    ensures exists i :: 0 <= i < |t| && Explodes(t)[i] == 0.25
    ensures forall i, j :: 0 <= i < |t| && 0 <= j < |t| && Explodes(t)[i] == 0.25 && Explodes(t)[j] == 0.25 ==> i == j
  {
    var m := ArgMax(t);
    assert Explodes(t)[m] == 0.25;
  }

  /** Everything the country view draws. */
  datatype CountryPie = CountryPie(
    counts: seq<CountryCount>,
    defaultSelection: seq<string>,
    slices: seq<CountryCount>,
    explodes: seq<real>)

  /** The data path of `country_explosions` for the countries the user selected. */
  function CountryExplosions(rows: seq<Event>, selected: seq<string>): (v: CountryPie)
    ensures IsTallyOf(v.counts, CountryColumn(NormaliseCountries(rows)))
    ensures |v.defaultSelection| <= 4 && |v.slices| <= 4 && |v.explodes| == |v.slices|
  {
    var counts := ValueCounts(CountryColumn(NormaliseCountries(rows)));
    var slices := TopCountries(SelectCountries(counts, selected));
    CountryPie(counts, DefaultSelection(counts), slices, Explodes(slices))
  }

  /** The country view counts every row once, keeps at most four slices that
      account for every selected row (when "Others" is not itself selected),
      shows nothing for an empty selection and pulls out exactly one slice
      otherwise. Running it on the already normalised table gives the same view. */
  lemma CountryExplosionsSpec(rows: seq<Event>, selected: seq<string>)
    ensures var v := CountryExplosions(rows, selected);
      var names := CountryColumn(NormaliseCountries(rows));
      && IsTallyOf(v.counts, names) && NonIncreasing(v.counts)
      && Total(v.counts) == |rows|
      && |v.slices| <= 4
      && (Others !in selected ==> Total(v.slices) == |Filter(names, NameSelected(selected))|)
      && (selected == [] ==> v.slices == [])
      && (v.slices != [] ==> exists i :: 0 <= i < |v.slices| && v.explodes[i] == 0.25)
      && (forall i, j :: 0 <= i < |v.slices| && 0 <= j < |v.slices| && v.explodes[i] == 0.25 && v.explodes[j] == 0.25 ==> i == j)
    ensures CountryExplosions(NormaliseCountries(rows), selected) == CountryExplosions(rows, selected)
  {
    var names := CountryColumn(NormaliseCountries(rows));
    var counts := ValueCounts(names);
    var f := SelectCountries(counts, selected);
    TotalOfTally(counts, names);
    SelectCountriesSpec(names, selected);
    var top := if |f| < 3 then |f| else 3;
    if Others !in selected {
      assert Others !in Countries(f[..top]) by {
        forall i | 0 <= i < top ensures Countries(f[..top])[i] != Others {
          assert f[i] in f;
        }
      }
      TopCountriesSpec(f);
    }
    ViewPullsOutOne(rows, selected);
    NormaliseCountriesIdempotent(rows);
  }

  /** A view with slices pulls out exactly one of them. */
  lemma ViewPullsOutOne(rows: seq<Event>, selected: seq<string>)
    ensures var v := CountryExplosions(rows, selected);
      && (v.slices != [] ==> exists i :: 0 <= i < |v.slices| && v.explodes[i] == 0.25)
      && (forall i, j :: 0 <= i < |v.slices| && 0 <= j < |v.slices| && v.explodes[i] == 0.25 && v.explodes[j] == 0.25 ==> i == j)
  {
    var v := CountryExplosions(rows, selected);
    assert v.explodes == Explodes(v.slices);
    if v.slices != [] {
      ExactlyOneExploded(v.slices);
    }
  }
}
