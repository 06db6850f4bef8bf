/** The timeline view: number of explosions per year, restricted to the
    slider's year range, with the busiest and the quietest year of the range. */
module Annual {
  import opened Events
  import opened Seqs
  import Dates

  /** One row of `groupby("Year").size()`. */
  datatype AnnualCount = AnnualCount(year: int, count: nat)

  predicate StrictlyAscending(a: seq<AnnualCount>) {
    forall i, j :: 0 <= i < j < |a| ==> a[i].year < a[j].year
  }

  /** The count the table `a` gives for year `y` (0 when `y` has no row). */
  function CountOf(a: seq<AnnualCount>, y: int): nat {
    if a == [] then 0 else if a[0].year == y then a[0].count else CountOf(a[1..], y)
  }

  /** `a` is the per-year tally of `years`: ascending by year, no zero rows,
      and for every year the count of rows in that year. */
  ghost predicate IsYearTally(a: seq<AnnualCount>, years: seq<int>) {
    && StrictlyAscending(a)
    && (forall i :: 0 <= i < |a| ==> a[i].count > 0)
    && (forall y :: CountOf(a, y) == multiset(years)[y])
  }

  function Counts(a: AnnualCount): int { a.count }

  /** Number of rows a table accounts for. */
  function Total(a: seq<AnnualCount>): int { Sum(a, Counts) }

  lemma {:induction false} CountOfAbsent(a: seq<AnnualCount>, y: int)
    requires StrictlyAscending(a)
    requires a == [] || y < a[0].year
    ensures CountOf(a, y) == 0
  {
    if a != [] {
      assert a[1..] == [] || a[0].year < a[1..][0].year;
      CountOfAbsent(a[1..], y);
    }
  }

  /** Adds one row of year `y` to an ascending tally. */
  function Tally(a: seq<AnnualCount>, y: int): (r: seq<AnnualCount>)
  {
    if a == [] then [AnnualCount(y, 1)]
    else if a[0].year == y then [AnnualCount(y, a[0].count + 1)] + a[1..]
    else if y < a[0].year then [AnnualCount(y, 1)] + a
    else [a[0]] + Tally(a[1..], y)
  }

  lemma {:induction false} TallyAbove(a: seq<AnnualCount>, y: int, b: int)
    requires forall i :: 0 <= i < |a| ==> a[i].year > b
    requires y > b
    ensures forall i :: 0 <= i < |Tally(a, y)| ==> Tally(a, y)[i].year > b
  {
    if a != [] && a[0].year < y {
      TallyAbove(a[1..], y, b);
    }
  }

  lemma {:induction false} TallyAscending(a: seq<AnnualCount>, y: int)
    requires StrictlyAscending(a)
    ensures StrictlyAscending(Tally(a, y))
  {
    if a != [] && a[0].year < y {
      TallyAscending(a[1..], y);
      TallyAbove(a[1..], y, a[0].year);
    }
  }

  lemma {:induction false} TallyCounts(a: seq<AnnualCount>, y: int)
    requires StrictlyAscending(a)
    ensures forall z :: CountOf(Tally(a, y), z) == CountOf(a, z) + if z == y then 1 else 0
  {
    var r := Tally(a, y);
    if a == [] {
    } else if a[0].year == y {
      assert r[1..] == a[1..];
    } else if y < a[0].year {
      assert r[1..] == a;
      CountOfAbsent(a, y);
    } else {
      TallyCounts(a[1..], y);
      assert r[1..] == Tally(a[1..], y);
    }
  }

  lemma {:induction false} TallyPositive(a: seq<AnnualCount>, y: int)
    requires forall i :: 0 <= i < |a| ==> a[i].count > 0
    ensures forall i :: 0 <= i < |Tally(a, y)| ==> Tally(a, y)[i].count > 0
  {
    if a != [] && a[0].year < y {
      TallyPositive(a[1..], y);
    }
  }

  lemma {:induction false} TallyTotal(a: seq<AnnualCount>, y: int)
    ensures Total(Tally(a, y)) == Total(a) + 1
  {
    var r := Tally(a, y);
    if a == [] {
      assert r[1..] == [];
    } else if a[0].year == y {
      assert r[1..] == a[1..];
    } else if y < a[0].year {
      assert r[1..] == a;
    } else {
      TallyTotal(a[1..], y);
      assert r[1..] == Tally(a[1..], y);
    }
  }

  /** `groupby("Year").size()`: the per-year counts of the Year column. */
  function CountByYear(years: seq<int>): (r: seq<AnnualCount>)
    ensures IsYearTally(r, years)
    ensures Total(r) == |years|
  {
    if years == [] then []
    else
      var init := years[..|years| - 1];
      var last := years[|years| - 1];
      var a := CountByYear(init);
      TallyAscending(a, last);
      TallyCounts(a, last);
      TallyPositive(a, last);
      TallyTotal(a, last);
      assert years == init + [last];
      Tally(a, last)
  }

  /** For an ascending table the lookup finds each row's own count. */
  lemma {:induction false} CountOfRow(a: seq<AnnualCount>, i: int)
    requires StrictlyAscending(a) && 0 <= i < |a|
    ensures CountOf(a, a[i].year) == a[i].count
  {
    if i > 0 {
      CountOfRow(a[1..], i - 1);
    }
  }

  lemma {:induction false} CountOfHasRow(a: seq<AnnualCount>, y: int)
    requires CountOf(a, y) > 0
    ensures exists i :: 0 <= i < |a| && a[i].year == y
  {
    if a[0].year != y {
      CountOfHasRow(a[1..], y);
      var i :| 0 <= i < |a| - 1 && a[1..][i].year == y;
      assert a[i + 1].year == y;
    }
  }

  /** A tally has exactly one row per distinct year present in the data, and
      no row for a year without events. */
  lemma TallyRows(a: seq<AnnualCount>, years: seq<int>)
    requires IsYearTally(a, years)
    ensures forall i :: 0 <= i < |a| ==> a[i].year in years
    ensures forall y :: y in years ==> exists i :: 0 <= i < |a| && a[i].year == y
  {
    forall i | 0 <= i < |a| ensures a[i].year in years {
      CountOfRow(a, i);
    }
    forall y | y in years ensures exists i :: 0 <= i < |a| && a[i].year == y {
      assert multiset(years)[y] > 0;
      CountOfHasRow(a, y);
    }
  }

  /** A year with a non-zero count is not before the table's first row. */
  lemma {:induction false} FirstRowIsEarliest(a: seq<AnnualCount>, y: int)
    requires StrictlyAscending(a)
    requires CountOf(a, y) > 0
    ensures a != [] && a[0].year <= y
  {
    if a[0].year != y {
      FirstRowIsEarliest(a[1..], y);
    }
  }

  /** The tally of a column is unique: two tables that both satisfy
      `IsYearTally` for the same years are equal. */
  lemma {:induction false} TallyUnique(a: seq<AnnualCount>, b: seq<AnnualCount>)
    requires StrictlyAscending(a) && (forall i :: 0 <= i < |a| ==> a[i].count > 0)
    requires StrictlyAscending(b) && (forall i :: 0 <= i < |b| ==> b[i].count > 0)
    requires forall y :: CountOf(a, y) == CountOf(b, y)
    ensures a == b
  {
    if a != [] {
      assert CountOf(a, a[0].year) == a[0].count;
      FirstRowIsEarliest(b, a[0].year);
    }
    if b != [] {
      assert CountOf(b, b[0].year) == b[0].count;
      FirstRowIsEarliest(a, b[0].year);
    }
    if a != [] {
      assert a[0].count == CountOf(a, a[0].year) == CountOf(b, b[0].year) == b[0].count;
      forall y ensures CountOf(a[1..], y) == CountOf(b[1..], y) {
        if y != a[0].year {
          assert CountOf(a, y) == CountOf(a[1..], y);
          assert CountOf(b, y) == CountOf(b[1..], y);
        } else {
          assert a[1..] == [] || y < a[1..][0].year;
          assert b[1..] == [] || y < b[1..][0].year;
          CountOfAbsent(a[1..], y);
          CountOfAbsent(b[1..], y);
        }
      }
      TallyUnique(a[1..], b[1..]);
      assert a == [a[0]] + a[1..] && b == [b[0]] + b[1..];
    }
  }

  predicate InRange(y: int, start: int, end: int) {
    start <= y <= end
  }

  /** The rows of the table whose year lies in the inclusive range [start, end]. */
  function SelectRange(a: seq<AnnualCount>, start: int, end: int): (r: seq<AnnualCount>)
    ensures forall x :: x in r ==> x in a && InRange(x.year, start, end)
    ensures forall x :: x in a && InRange(x.year, start, end) ==> x in r
  {
    Filter(a, (x: AnnualCount) => InRange(x.year, start, end))
  }

  /** The selected rows are rows of the table, in the table's order. */
  lemma SelectRangeSubsequence(a: seq<AnnualCount>, start: int, end: int)
    ensures IsSubsequence(SelectRange(a, start, end), a)
  {
    FilterIsSubsequence(a, (x: AnnualCount) => InRange(x.year, start, end));
  }

  /** Selecting a range of an ascending table keeps it ascending. */
  lemma {:induction false} SelectRangeAscending(a: seq<AnnualCount>, start: int, end: int)
    requires StrictlyAscending(a)
    ensures StrictlyAscending(SelectRange(a, start, end))
  {
    if a != [] {
      SelectRangeAscending(a[1..], start, end);
      var t := SelectRange(a[1..], start, end);
      var s := SelectRange(a, start, end);
      if InRange(a[0].year, start, end) {
        assert s == [a[0]] + t;
        forall i, j | 0 <= i < j < |s| ensures s[i].year < s[j].year {
          if i == 0 {
            assert s[j] == t[j - 1] && t[j - 1] in a[1..];
          }
        }
      } else {
        assert s == t;
      }
    }
  }

  /** Selecting a range keeps the count of every year in range and drops the others. */
  lemma {:induction false} SelectRangeCounts(a: seq<AnnualCount>, start: int, end: int, y: int)
    requires StrictlyAscending(a)
    ensures CountOf(SelectRange(a, start, end), y) == if InRange(y, start, end) then CountOf(a, y) else 0
  {
    if a != [] {
      SelectRangeCounts(a[1..], start, end, y);
      var t := SelectRange(a[1..], start, end);
      var s := SelectRange(a, start, end);
      if InRange(a[0].year, start, end) {
        assert s == [a[0]] + t && s[1..] == t;
      } else {
        assert s == t;
        if y == a[0].year {
          SelectRangeAscending(a[1..], start, end);
          assert t == [] || y < t[0].year by {
            if t != [] { assert t[0] in a[1..]; }
          }
          CountOfAbsent(t, y);
        }
      }
    }
  }

  /** The year-range mask over the Year column. */
  function YearInRange(start: int, end: int): int -> bool {
    (y: int) => InRange(y, start, end)
  }

  /** Selecting a range of the per-year counts gives the per-year counts of
      the events in that range, and so accounts for exactly those events. */
  lemma {:induction false} SelectRangeIsTallyOfRange(years: seq<int>, start: int, end: int)
    ensures SelectRange(CountByYear(years), start, end) == CountByYear(Filter(years, YearInRange(start, end)))
    ensures Total(SelectRange(CountByYear(years), start, end)) == |Filter(years, YearInRange(start, end))|
  {
    var a := CountByYear(years);
    var ys := Filter(years, YearInRange(start, end));
    var b := CountByYear(ys);
    var s := SelectRange(a, start, end);
    SelectRangeAscending(a, start, end);
    FilterMultiset(years, YearInRange(start, end));
    forall y ensures CountOf(s, y) == CountOf(b, y) {
      SelectRangeCounts(a, start, end, y);
      assert CountOf(b, y) == multiset(ys)[y];
      assert CountOf(a, y) == multiset(years)[y];
    }
    forall i | 0 <= i < |s| ensures s[i].count > 0 {
      assert s[i] in a;
    }
    TallyUnique(s, b);
  }

  /** `get_max_and_min`: largest and smallest count of the selection, each
      with the year of the first row that reaches it. */
  datatype Extremes = Extremes(maxCount: nat, maxYear: int, minCount: nat, minYear: int)

  /** Why the timeline view cannot be produced: a row whose assembled number
      year·10000 + month·100 + day spells no date pandas can represent
      (`pd.to_datetime`), or an empty selection (`.iloc[0]` of an empty
      frame raises IndexError). */
  datatype AnnualError = BadDate(cause: Dates.DateError) | EmptySelection

  function MaxCount(a: seq<AnnualCount>): (m: nat)
    requires a != []
    ensures forall i :: 0 <= i < |a| ==> a[i].count <= m
    ensures exists i :: 0 <= i < |a| && a[i].count == m
  {
    if |a| == 1 then a[0].count
    else
      var m := MaxCount(a[1..]);
      assert forall i :: 1 <= i < |a| ==> a[i] == a[1..][i - 1];
      if a[0].count >= m then a[0].count else m
  }

  function MinCount(a: seq<AnnualCount>): (m: nat)
    requires a != []
    ensures forall i :: 0 <= i < |a| ==> m <= a[i].count
    ensures exists i :: 0 <= i < |a| && a[i].count == m
  {
    if |a| == 1 then a[0].count
    else
      var m := MinCount(a[1..]);
      assert forall i :: 1 <= i < |a| ==> a[i] == a[1..][i - 1];
      if a[0].count <= m then a[0].count else m
  }

  /** Row `i` is the first row of `a` whose count is `c`. */
  predicate FirstWithCount(a: seq<AnnualCount>, c: nat, i: int) {
    0 <= i < |a| && a[i].count == c && forall k :: 0 <= k < i ==> a[k].count != c
  }

  /** `selected_data[selected_data["Counts"] == c]["Year"].iloc[0]`. */
  function FirstYearWith(a: seq<AnnualCount>, c: nat): (y: int)
    requires exists i :: 0 <= i < |a| && a[i].count == c
    ensures exists i :: FirstWithCount(a, c, i) && a[i].year == y
  {
    if a[0].count == c then
      assert FirstWithCount(a, c, 0);
      a[0].year
    else
      var y := FirstYearWith(a[1..], c);
      var i :| FirstWithCount(a[1..], c, i) && a[1..][i].year == y;
      assert FirstWithCount(a, c, i + 1);
      y
  }

  ghost predicate IsExtremes(a: seq<AnnualCount>, x: Extremes) {
    && (forall i :: 0 <= i < |a| ==> x.minCount <= a[i].count <= x.maxCount)
    && (exists i :: FirstWithCount(a, x.maxCount, i) && a[i].year == x.maxYear)
    && (exists i :: FirstWithCount(a, x.minCount, i) && a[i].year == x.minYear)
  }

  function GetMaxAndMin(a: seq<AnnualCount>): (r: Result<Extremes, AnnualError>)
    ensures r.Err? <==> a == []
    ensures r.Err? ==> r.error == EmptySelection
    ensures r.Ok? ==> IsExtremes(a, r.value)
  {
    if a == [] then Err(EmptySelection)
    else
      var hi := MaxCount(a);
      var lo := MinCount(a);
      Ok(Extremes(hi, FirstYearWith(a, hi), lo, FirstYearWith(a, lo)))
  }

  /** On an ascending table the reported years are the earliest years that
      reach the maximum and the minimum. */
  lemma ExtremesAreEarliest(a: seq<AnnualCount>, x: Extremes)
    requires StrictlyAscending(a) && IsExtremes(a, x)
    ensures forall i :: 0 <= i < |a| && a[i].count == x.maxCount ==> x.maxYear <= a[i].year
    ensures forall i :: 0 <= i < |a| && a[i].count == x.minCount ==> x.minYear <= a[i].year
  {
    var p :| FirstWithCount(a, x.maxCount, p) && a[p].year == x.maxYear;
    var q :| FirstWithCount(a, x.minCount, q) && a[q].year == x.minYear;
    forall i | 0 <= i < |a| && a[i].count == x.maxCount ensures x.maxYear <= a[i].year {
      assert p <= i;
    }
    forall i | 0 <= i < |a| && a[i].count == x.minCount ensures x.minYear <= a[i].year {
      assert q <= i;
    }
  }

  /** What the timeline view shows: the selected per-year counts and the sentences' figures. */
  datatype Timeline = Timeline(selected: seq<AnnualCount>, extremes: Extremes)

  /** The data path of `annual_nuclear_explosions` for the slider range [start, end]. */
  function AnnualNuclearExplosions(rows: seq<Event>, start: int, end: int): (r: Result<Timeline, AnnualError>)
    ensures r.Err? && r.error.BadDate? <==> Dates.YearColumn(rows).Err?
    ensures r.Err? && !r.error.BadDate? ==> r.error == EmptySelection
    ensures r.Ok? ==> r.value.selected != [] && IsExtremes(r.value.selected, r.value.extremes)
  {
    match Dates.YearColumn(rows)
    case Err(e) => Err(BadDate(e))
    case Ok(years) =>
      var selected := SelectRange(CountByYear(years), start, end);
      match GetMaxAndMin(selected)
      case Err(e) => Err(e)
      case Ok(x) => Ok(Timeline(selected, x))
  }

  /** The rows whose year is in the range. */
  function RowsInRange(rows: seq<Event>, start: int, end: int): seq<Event> {
    Filter(rows, (e: Event) => InRange(Dates.Year(e), start, end))
  }

  /** The timeline view fails exactly on a row whose assembled number
      year·10000 + month·100 + day spells no date pandas can represent
      (`Dates.DateColumn` fails, and then with that row's error) or on a range
      without events; otherwise its table is the ascending per-year tally of
      the years in range, which accounts for the events in range one by one,
      and its extremes are attained bounds of that table. */
  lemma TimelineSpec(rows: seq<Event>, start: int, end: int)
    ensures var r := AnnualNuclearExplosions(rows, start, end);
      && (r.Err? && r.error.BadDate? <==> Dates.DateColumn(rows).Err?)
      && (r.Err? && r.error.BadDate? ==> r.error.cause == Dates.DateColumn(rows).error)
      && (r.Err? && r.error == EmptySelection <==> Dates.DateColumn(rows).Ok? && RowsInRange(rows, start, end) == [])
      && (r.Ok? ==> Total(r.value.selected) == |RowsInRange(rows, start, end)|)
      && (r.Ok? ==> StrictlyAscending(r.value.selected))
      && (r.Ok? ==> forall i :: 0 <= i < |r.value.selected| ==> InRange(r.value.selected[i].year, start, end))
      && (r.Ok? ==> IsExtremes(r.value.selected, r.value.extremes))
      && (r.Ok? ==> IsYearTally(r.value.selected, Filter(Dates.YearColumn(rows).value, YearInRange(start, end))))
  {
    var r := AnnualNuclearExplosions(rows, start, end);
    var yc := Dates.YearColumn(rows);
    if yc.Ok? {
      var years := yc.value;
      SelectRangeIsTallyOfRange(years, start, end);
      YearsInRange(rows, years, start, end);
      var selected := SelectRange(CountByYear(years), start, end);
      CountByYearEmpty(Filter(years, YearInRange(start, end)));
      forall i | 0 <= i < |selected| ensures InRange(selected[i].year, start, end) {
        assert selected[i] in selected;
      }
    }
  }

  /** The Year column filtered by range has as many entries as the rows in range. */
  lemma {:induction false} YearsInRange(rows: seq<Event>, years: seq<int>, start: int, end: int)
    requires |years| == |rows| && forall i :: 0 <= i < |rows| ==> years[i] == Dates.Year(rows[i])
    ensures |Filter(years, YearInRange(start, end))| == |RowsInRange(rows, start, end)|
  {
    if rows != [] {
      YearsInRange(rows[1..], years[1..], start, end);
    }
  }

  lemma CountByYearEmpty(years: seq<int>)
    ensures CountByYear(years) == [] <==> years == []
  {
    if years != [] {
      assert Total(CountByYear(years)) > 0;
    }
  }
}
