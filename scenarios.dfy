/** Worked cases of the views on small tables. */
module Scenarios {
  import opened Events
  import opened Seqs
  import opened Annual
  import Dates
  import Countries
  import Yields
  import Sorting
  import Names

  function At(location: string, year: int, upper: real): Event {
    Event("USA", location, year, 7, 1, 0.0, upper, 0.0, 0.0)
  }

  /** A row dated 1 July of a year pandas can represent converts, and its
      `Year` is its own year. */
  lemma JulyFirst(location: string, year: int, upper: real)
    requires 1678 <= year <= 2261
    ensures Dates.ToDate(At(location, year, upper)).Ok?
    ensures Dates.Year(At(location, year, upper)) == year
  {
    Dates.CalendarDateSpellsItself(At(location, year, upper));
  }

  /** Every row dated 1 July converts, so the `Year` column is the rows' years. */
  lemma YearsOfThree()
    ensures Dates.YearColumn([At("Trinity", 1945, 20.0), At("Hiroshima", 1945, 15.0), At("Bikini", 1946, 21.0)])
         == Ok([1945, 1945, 1946])
  {
    var rows := [At("Trinity", 1945, 20.0), At("Hiroshima", 1945, 15.0), At("Bikini", 1946, 21.0)];
    JulyFirst("Trinity", 1945, 20.0);
    JulyFirst("Hiroshima", 1945, 15.0);
    JulyFirst("Bikini", 1946, 21.0);
    assert Dates.DateColumn(rows).Ok?;
    var column := Dates.YearColumn(rows).value;
    assert |column| == 3 && column[0] == 1945 && column[1] == 1945 && column[2] == 1946;
    assert column == [1945, 1945, 1946];
  }

  /** Month 0 and day 101 assemble to 19450101, so the row gets 1 January 1945. */
  lemma MonthZeroSpellsJanuary()
    ensures Dates.ToDate(Event("USA", "Trinity", 1945, 0, 101, 0.0, 20.0, 0.0, 0.0)) == Ok(Dates.Date(1945, 1, 1))
  {
    var e := Event("USA", "Trinity", 1945, 0, 101, 0.0, 20.0, 0.0, 0.0);
    assert Dates.Assembled(e) == 19450101;
    assert Dates.Spelled(e) == Dates.Date(1945, 1, 1);
  }

  /** Month 101 assembles to 19460101: the row is counted in 1946, not in its
      `Date.Year` 1945. */
  lemma MonthOverflowChangesYear()
    ensures Dates.ToDate(Event("USA", "Trinity", 1945, 101, 1, 0.0, 20.0, 0.0, 0.0)).Ok?
    ensures Dates.Year(Event("USA", "Trinity", 1945, 101, 1, 0.0, 20.0, 0.0, 0.0)) == 1946
  {
    var e := Event("USA", "Trinity", 1945, 101, 1, 0.0, 20.0, 0.0, 0.0);
    assert Dates.Assembled(e) == 19460101;
    assert Dates.Spelled(e) == Dates.Date(1946, 1, 1);
  }

  /** Counting the years 1945, 1945, 1946 gives (1945, 2), (1946, 1). */
  lemma TallyOfThree()
    ensures CountByYear([1945, 1945, 1946]) == [AnnualCount(1945, 2), AnnualCount(1946, 1)]
  {
    var years := [1945, 1945, 1946];
    var expected := [AnnualCount(1945, 2), AnnualCount(1946, 1)];
    assert years == [1945] + [1945] + [1946];
    assert expected[1..] == [AnnualCount(1946, 1)] && expected[1..][1..] == [];
    forall y ensures CountOf(CountByYear(years), y) == CountOf(expected, y) {
      assert multiset(years)[y] == if y == 1945 then 2 else if y == 1946 then 1 else 0;
      if y != 1945 {
        assert CountOf(expected, y) == CountOf(expected[1..], y);
        if y != 1946 {
          assert CountOf(expected[1..], y) == CountOf(expected[1..][1..], y) == 0;
        }
      }
    }
    TallyUnique(CountByYear(years), expected);
  }

  /** The range 1945..1946 keeps both rows of the table. */
  lemma RangeOfTwo()
    ensures SelectRange([AnnualCount(1945, 2), AnnualCount(1946, 1)], 1945, 1946)
         == [AnnualCount(1945, 2), AnnualCount(1946, 1)]
  {
    var expected := [AnnualCount(1945, 2), AnnualCount(1946, 1)];
    assert expected[1..] == [AnnualCount(1946, 1)] && expected[1..][1..] == [];
  }

  /** In the table (1945, 2), (1946, 1) the maximum 2 is reached in 1945 and
      the minimum 1 in 1946. */
  lemma ExtremesOfTwo()
    ensures GetMaxAndMin([AnnualCount(1945, 2), AnnualCount(1946, 1)]) == Ok(Extremes(2, 1945, 1, 1946))
  {
    var a := [AnnualCount(1945, 2), AnnualCount(1946, 1)];
    var x := GetMaxAndMin(a).value;
    assert x.minCount <= a[1].count && a[0].count <= x.maxCount;
    var p :| FirstWithCount(a, x.maxCount, p) && a[p].year == x.maxYear;
    var q :| FirstWithCount(a, x.minCount, q) && a[q].year == x.minYear;
    assert p == 0 && q == 1;
  }

  /** Three events in 1945, 1945 and 1946 give two rows, (1945, 2) and
      (1946, 1); the maximum 2 is reached in 1945, the minimum 1 in 1946. */
  lemma TimelineOfThreeEvents()
    ensures var rows := [At("Trinity", 1945, 20.0), At("Hiroshima", 1945, 15.0), At("Bikini", 1946, 21.0)];
      AnnualNuclearExplosions(rows, 1945, 1946)
        == Ok(Timeline([AnnualCount(1945, 2), AnnualCount(1946, 1)], Extremes(2, 1945, 1, 1946)))
  {
    YearsOfThree();
    TallyOfThree();
    RangeOfTwo();
    ExtremesOfTwo();
  }

  /** A slider range that covers only years without events (1947 here)
      leaves nothing to take the first row of: the view fails. */
  lemma TimelineOfEmptyRange()
    ensures var rows := [At("Trinity", 1945, 20.0), At("Bikini", 1946, 21.0), At("Enewetak", 1948, 37.0)];
      AnnualNuclearExplosions(rows, 1947, 1947) == Err(EmptySelection)
  {
    var rows := [At("Trinity", 1945, 20.0), At("Bikini", 1946, 21.0), At("Enewetak", 1948, 37.0)];
    JulyFirst("Trinity", 1945, 20.0);
    JulyFirst("Bikini", 1946, 21.0);
    JulyFirst("Enewetak", 1948, 37.0);
    assert Dates.DateColumn(rows).Ok?;
    TimelineSpec(rows, 1947, 1947);
    assert RowsInRange(rows, 1947, 1947) == [] by {
      assert rows[1..][1..][1..] == [];
    }
  }

  /** An empty selection of countries draws no slice. */
  lemma NoCountrySelected(rows: seq<Event>)
    ensures Countries.CountryExplosions(rows, []).slices == []
    ensures Countries.CountryExplosions(rows, []).explodes == []
  {
    Countries.CountryExplosionsSpec(rows, []);
  }

  function Bikini(): Event { At("Bikini", 1954, 15000.0) }
  function NovayaZemlya(): Event { At("Novaya Zemlya", 1961, 50000.0) }
  function Nevada(): Event { At("Nevada", 1955, 1.0) }

  lemma SortCons(a: string, s: seq<string>)
    ensures Names.Sort([a] + s) == Names.Insert(a, Names.Sort(s))
  {
    assert ([a] + s)[1..] == s;
  }

  lemma InsertFront(x: string, s: seq<string>)
    requires s == [] || !Names.Below(s[0], x)
    ensures Names.Insert(x, s) == [x] + s
  {
  }

  lemma InsertBehind(x: string, y: string)
    requires Names.Below(y, x)
    ensures Names.Insert(x, [y]) == [y, x]
  {
    assert [y][1..] == [];
    InsertFront(x, []);
  }

  /** Names a, b with b below a sort to b, a. */
  lemma SortTwoNames(a: string, b: string)
    requires Names.Below(b, a)
    ensures Names.Sort([a, b]) == [b, a]
  {
    SortCons(b, []);
    assert [b] + [] == [b];
    SortCons(a, [b]);
    assert [a] + [b] == [a, b];
    InsertBehind(a, b);
  }

  /** Names a, b, c with c below b but not below a sort to a, c, b. */
  lemma SortThreeNames(a: string, b: string, c: string)
    requires Names.Below(c, b) && !Names.Below(c, a)
    ensures Names.Sort([a, b, c]) == [a, c, b]
  {
    SortTwoNames(b, c);
    SortCons(a, [b, c]);
    assert [a] + [b, c] == [a, b, c];
    InsertFront(a, [c, b]);
  }

  /** The group keys of rows at three distinct locations x, y, z whose names
      sort as x, z, y. */
  lemma KeysOfThreeRows(x: Event, y: Event, z: Event)
    requires x.location != y.location && y.location != z.location && x.location != z.location
    requires Names.Below(z.location, y.location) && !Names.Below(z.location, x.location)
    ensures Yields.GroupKeys([x, y, z]) == [x.location, z.location, y.location]
  {
    var column := Yields.LocationColumn([x, y, z]);
    assert column == [x.location, y.location, z.location];
    DistinctOfNoDuplicates(column);
    SortThreeNames(x.location, y.location, z.location);
  }

  /** The per-location rows of three rows at distinct locations, fetched in
      the order x, z, y, are those rows themselves. */
  lemma RowsAtThree(x: Event, y: Event, z: Event)
    requires x.location != y.location && y.location != z.location && x.location != z.location
    requires Yields.LocationColumn([x, y, z]) == [x.location, y.location, z.location]
    ensures Yields.RowsAt([x, y, z], [x.location, z.location, y.location]) == [x, z, y]
  {
    var rows := [x, y, z];
    var best := Yields.RowsAt(rows, [x.location, z.location, y.location]);
    forall j | 0 <= j < 3 ensures best[j] == [x, z, y][j] {
      var i :| Yields.IsFirstMaxAt(rows, best[j].location, i) && best[j] == rows[i];
    }
  }

  /** Rows x, y, z at three locations whose keys come as x, z, y group as x, z, y. */
  lemma BestOfThreeRows(x: Event, y: Event, z: Event)
    requires x.location != y.location && y.location != z.location && x.location != z.location
    requires Yields.GroupKeys([x, y, z]) == [x.location, z.location, y.location]
    ensures Yields.BestPerLocation([x, y, z]) == [x, z, y]
  {
    assert Yields.LocationColumn([x, y, z]) == [x.location, y.location, z.location];
    RowsAtThree(x, y, z);
  }

  /** The group keys of rows x, y at two locations with y's name below x's. */
  lemma KeysOfTwoRows(x: Event, y: Event)
    requires Names.Below(y.location, x.location)
    ensures Yields.GroupKeys([x, y]) == [y.location, x.location]
  {
    var column := Yields.LocationColumn([x, y]);
    assert column == [x.location, y.location];
    Names.BelowIrreflexive(x.location);
    DistinctOfNoDuplicates(column);
    SortTwoNames(x.location, y.location);
  }

  /** Rows x, y at two locations with y's name below x's group as y, x. */
  lemma BestOfTwoRows(x: Event, y: Event)
    requires Names.Below(y.location, x.location)
    ensures Yields.BestPerLocation([x, y]) == [y, x]
  {
    var rows := [x, y];
    KeysOfTwoRows(x, y);
    Names.BelowIrreflexive(x.location);
    var best := Yields.BestPerLocation(rows);
    forall j | 0 <= j < 2 ensures best[j] == [y, x][j] {
      var i :| Yields.IsFirstMaxAt(rows, best[j].location, i) && best[j] == rows[i];
    }
  }

  /** "Nevada" is below "Novaya Zemlya" at the second letter, and not below "Bikini". */
  lemma NevadaBetween()
    ensures Names.Below("Nevada", "Novaya Zemlya")
    ensures !Names.Below("Nevada", "Bikini")
    ensures Names.Below("Bikini", "Nevada")
  {
    assert "Nevada"[1..] == "evada" && "Novaya Zemlya"[1..] == "ovaya Zemlya";
  }

  /** With one row per location, each row is its location's maximum, and the
      rows come out in location order: Bikini, Nevada, Novaya Zemlya. */
  lemma BestOfThree()
    ensures Yields.BestPerLocation([Bikini(), NovayaZemlya(), Nevada()]) == [Bikini(), Nevada(), NovayaZemlya()]
  {
    NevadaBetween();
    KeysOfThreeRows(Bikini(), NovayaZemlya(), Nevada());
    BestOfThreeRows(Bikini(), NovayaZemlya(), Nevada());
  }

  /** Two rows sorted by descending upper yield, the larger first. */
  lemma SortDescTwo(v: Event, z: Event)
    requires v.yieldUpper < z.yieldUpper
    ensures Sorting.SortDesc([v, z], Yields.Upper) == [z, v]
  {
    assert [v, z][1..] == [z];
    assert Sorting.SortDesc([z], Yields.Upper) == [z];
    assert Sorting.InsertDesc(v, [z], Yields.Upper) == [z] + Sorting.InsertDesc(v, [], Yields.Upper);
  }

  /** Inserting b between a larger z and a smaller v. */
  lemma InsertDescMiddle(b: Event, z: Event, v: Event)
    requires v.yieldUpper < b.yieldUpper < z.yieldUpper
    ensures Sorting.InsertDesc(b, [z, v], Yields.Upper) == [z, b, v]
  {
    assert [z, v][1..] == [v];
    assert Sorting.InsertDesc(b, [v], Yields.Upper) == [b, v];
  }

  /** Sorting rows b, v, z whose upper yields rank z, b, v from largest down. */
  lemma SortDescThree(b: Event, v: Event, z: Event)
    requires v.yieldUpper < b.yieldUpper < z.yieldUpper
    ensures Sorting.SortDesc([b, v, z], Yields.Upper) == [z, b, v]
  {
    SortDescTwo(v, z);
    InsertDescMiddle(b, z, v);
    assert [b, v, z][1..] == [v, z];
  }

  /** Sorting two rows ascending puts the smaller first. */
  lemma SortAscTwo(b: Event, z: Event)
    requires b.yieldUpper < z.yieldUpper
    ensures Sorting.SortAsc([z, b], Yields.Upper) == [b, z]
  {
    assert [z, b][1..] == [b];
    assert Sorting.SortAsc([b], Yields.Upper) == [b];
  }

  /** Of rows b, v, z whose upper yields rank z, b, v from largest down, the
      two largest are z and b, and the chart shows b before z. */
  lemma TopTwoOfThree(b: Event, v: Event, z: Event)
    requires v.yieldUpper < b.yieldUpper < z.yieldUpper
    ensures Sorting.SortAsc(Yields.Largest([b, v, z], 2), Yields.Upper) == [b, z]
  {
    SortDescThree(b, v, z);
    assert [z, b, v][..2] == [z, b];
    SortAscTwo(b, z);
  }

  /** Bikini (15000 kt), Novaya Zemlya (50000 kt) and Nevada (1 kt) with n = 2:
      the chart shows Bikini, then Novaya Zemlya. */
  lemma TwoLargestOfThree()
    ensures Yields.TopYields([Bikini(), NovayaZemlya(), Nevada()], 2) == [Bikini(), NovayaZemlya()]
  {
    BestOfThree();
    TopTwoOfThree(Bikini(), Nevada(), NovayaZemlya());
  }

  function BikiniTen(): Event { At("Bikini", 1946, 10.0) }
  function NevadaTen(): Event { At("Nevada", 1957, 10.0) }

  /** Nevada listed before Bikini still groups as Bikini, Nevada. */
  lemma KeysOfTie()
    ensures Yields.BestPerLocation([NevadaTen(), BikiniTen()]) == [BikiniTen(), NevadaTen()]
  {
    NevadaBetween();
    BestOfTwoRows(NevadaTen(), BikiniTen());
  }

  /** Two rows with equal upper yields keep their order under a descending sort. */
  lemma SortDescTie(b: Event, v: Event)
    requires b.yieldUpper == v.yieldUpper
    ensures Sorting.SortDesc([b, v], Yields.Upper) == [b, v]
  {
    assert [b, v][1..] == [v];
    assert Sorting.SortDesc([v], Yields.Upper) == [v];
  }

  /** Two 10 kt explosions and room for one bar: `nlargest` keeps the first of
      the tie in group order, so the chart shows Bikini. */
  lemma TieGoesToFirstLocation()
    ensures Yields.TopYields([NevadaTen(), BikiniTen()], 1) == [BikiniTen()]
  {
    KeysOfTie();
    SortDescTie(BikiniTen(), NevadaTen());
    assert [BikiniTen(), NevadaTen()][..1] == [BikiniTen()];
    assert Sorting.SortAsc([BikiniTen()], Yields.Upper) == [BikiniTen()];
  }
}
