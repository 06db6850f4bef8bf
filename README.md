# Nuclear explosions 1945-1998: a verified model of the data pipeline

`Final_Project.py` is a Streamlit app over a table of nuclear explosions
(one row per explosion: weapon source country, deployment location, date,
lower and upper yield estimates, coordinates). Each page of the app turns
the table into a small dataset and draws it. This project models the data
side of four pages as pure Dafny functions over a sequence of `Event` rows,
and proves what each page's data means:

- **Timeline** (`annual_nuclear_explosions`, module `Annual`, with the date
  columns in `Dates`). It builds the `Date` column from year, month and day
  the way pandas does: it assembles the number year·10000 + month·100 + day,
  reads it back as a YYYYMMDD date, and fails on the first row whose number
  spells no date pandas can represent. It reads `Year` back,
  counts explosions per year in ascending year order and keeps the years of
  the slider range. `get_max_and_min` then finds the largest and smallest
  yearly count, each with the first year that reaches it.
- **Explosions by country** (`country_explosions`, module `Countries`). It
  replaces the seven source-country codes by display names and counts rows
  per country in non-increasing order; the first four countries are the
  default selection. It keeps the selected countries, folds everything past
  the third into an "Others" slice when more than four remain, and pulls out
  the first largest slice.
- **Largest explosions by yield** (`yield_explosions`, module `Yields`). It
  labels each row `location (year)` and keeps, per deployment location, the
  first row with the largest upper yield, in ascending order of location name
  as `groupby` orders its keys. It then takes the `n` largest of
  those and shows them in ascending order of upper yield.
- **Map** (`map_of_explosions`, module `Geo`). It projects the location and
  coordinate columns and keeps the rows at Hiroshima or Nagasaki, in table
  order.

The supporting modules are these:

- `Events` holds the row type and `Option`/`Result`.
- `Seqs` holds the boolean-mask filter, first-appearance distinct values and
  sums.
- `Sorting` holds stable insertion sorts by a real key, which stand for
  `value_counts`, `nlargest` and `sort_values`.
- `Names` holds Python's order on strings and the sort `groupby` applies to
  its keys.
- `Scenarios` works through small concrete tables.

The year range, the country selection and `n` are parameters of the
functions; in the app they come from widgets.

## Model

| member | source | states |
|---|---|---|
| Dates.DaysInMonth | Final_Project.py:54 | January, March, May, July, August, October and December have 31 days; April, June, September and November 30; February 29 in a leap year and 28 otherwise |
| Dates.ToDate | Final_Project.py:54 | a row converts exactly when its assembled number year·10000 + month·100 + day spells a calendar date within pandas' Timestamp range (1677-09-22 to 2262-04-11), and then to that spelled date; otherwise the error names the row's triple |
| Dates.CalendarDateSpellsItself | Final_Project.py:54 | a row whose year, month and day already form a calendar date spells exactly that date |
| Dates.DateColumn | Final_Project.py:54 | the `Date` column exists exactly when every row converts, with each row's spelled date; otherwise the error is the first row that does not convert |
| Dates.YearOfCalendarDate | Final_Project.py:57 | a row that is a calendar date gets its own year in the `Year` column |
| Dates.YearColumn | Final_Project.py:57 | `Date.dt.year` succeeds exactly when the `Date` column does and then gives back every row's spelled year; otherwise it fails with the `Date` column's error |
| Annual.CountByYear | Final_Project.py:58 | `groupby("Year").size()` is strictly ascending by year, has only positive counts, gives every year its number of occurrences, and its counts add up to the number of rows |
| Annual.TallyRows | Final_Project.py:58 | the per-year table has exactly one row per distinct year present, and no other rows |
| Annual.TallyUnique | Final_Project.py:58 | two ascending tables with positive counts that give every year the same count are equal, so the per-year table is determined by the multiset of years |
| Annual.FirstRowIsEarliest | Final_Project.py:58 | the first row of an ascending per-year table carries the smallest year with a positive count |
| Annual.SelectRange | Final_Project.py:66 | the selection holds exactly the table rows whose year lies in [start, end] |
| Annual.SelectRangeSubsequence | Final_Project.py:66 | the selected rows are a subsequence of the table, so they keep its order |
| Annual.SelectRangeAscending | Final_Project.py:66 | selecting a range of an ascending table leaves it strictly ascending |
| Annual.SelectRangeCounts | Final_Project.py:66 | after selection a year in range keeps its count and every other year has none |
| Annual.SelectRangeIsTallyOfRange | Final_Project.py:57-66 | counting per year and then selecting the range equals counting only the years in range, and its total is the number of those rows |
| Annual.MaxCount | Final_Project.py:70 | the maximum count is at least every count of a non-empty selection and is reached by one of them |
| Annual.MinCount | Final_Project.py:71 | the minimum count is at most every count of a non-empty selection and is reached by one of them |
| Annual.FirstYearWith | Final_Project.py:72-73 | `selected[Counts == c]["Year"].iloc[0]` is the year of the first row whose count is c |
| Annual.GetMaxAndMin | Final_Project.py:69-74 | fails exactly on an empty selection (where `.iloc[0]` raises); otherwise returns attained bounds on every count, each with the year of its first row |
| Annual.ExtremesAreEarliest | Final_Project.py:72-73 | in an ascending table the reported year of the maximum (minimum) is the smallest year with that count |
| Annual.AnnualNuclearExplosions | Final_Project.py:54-74 | the timeline fails with a date error exactly when the `Year` column cannot be built, otherwise only with an empty selection; a timeline it returns has a non-empty table and attained extremes |
| Annual.TimelineSpec | Final_Project.py:54-74 | the timeline fails with the date error exactly when some row's assembled number year·10000 + month·100 + day spells no date pandas can represent (`Dates.DateColumn` fails), carrying that row's error, and with an empty selection exactly when no row lies in the range; otherwise its table is `groupby("Year").size()` of the years in range (strictly ascending, positive counts, each year with its number of rows), it accounts for every row in range, and its extremes are attained bounds |
| Countries.DisplayName | Final_Project.py:103-111 | a value changes exactly when it is a code of the table, and then becomes one of the table's names; no result is itself a code, so replacing twice is replacing once |
| Countries.NormaliseCountries | Final_Project.py:103-111 | the row count and every field except the source country are unchanged; a code of the table becomes its display name and any other value stays as it was |
| Countries.NormaliseCountriesIdempotent | Final_Project.py:103-111 | normalising a normalised table changes nothing, and no code of the table survives normalisation |
| Countries.CountKeysSpec | Final_Project.py:114 | the `value_counts` index lists each distinct country once, only countries of the column, in non-increasing order of occurrences |
| Countries.ValueCounts | Final_Project.py:114 | `value_counts` gives each distinct country exactly once with its number of occurrences (always positive) and is non-increasing by count |
| Countries.TotalOfTally | Final_Project.py:114 | the counts of a tally of a column add up to the column's length |
| Countries.DefaultSelection | Final_Project.py:117 | the default selection is the first min(4, #entries) countries of the counts, in their order |
| Countries.DefaultSelectionSpec | Final_Project.py:117-122 | the default selection is the first min(4, #countries) countries, distinct, each from the column, each with a count at least that of every country after them |
| Countries.SelectCountries | Final_Project.py:125-128 | the filtered counts are exactly the entries whose country is selected; an empty selection gives no entries |
| Countries.FilterKeepsOrder | Final_Project.py:126 | a boolean-mask filter keeps non-increasing counts non-increasing and distinct countries distinct |
| Countries.SelectCountriesSpec | Final_Project.py:125-128 | the filtered counts are non-increasing, tally exactly the rows whose country is selected, and add up to their number |
| Countries.SetCount | Final_Project.py:134 | assigning a key that is not yet in the Series appends it as the last entry; assigning a present key keeps the length |
| Countries.SetCountOverwrites | Final_Project.py:134 | assigning a present key replaces the entry labelled with it (labels are unique in a `value_counts` index) and leaves every other entry in place |
| Countries.TopCountries | Final_Project.py:131-136 | with four or fewer entries the slices are the filtered counts unchanged |
| Countries.TopCountriesSpec | Final_Project.py:131-136 | with more than four entries the slices are the first three followed by "Others" holding the sum of the rest; there are never more than four slices and the total is preserved |
| Countries.ArgMax | Final_Project.py:139 | `argmax` is the first index of a largest count |
| Countries.Explodes | Final_Project.py:139 | the explode list has one entry per slice, 0.25 exactly at the first largest slice and 0 elsewhere |
| Countries.ExactlyOneExploded | Final_Project.py:139 | a non-empty pie has exactly one pulled-out slice |
| Countries.CountryExplosions | Final_Project.py:103-139 | the counts tally the normalised country column; the default selection has at most four countries, the pie at most four slices and one explode offset per slice |
| Countries.ViewPullsOutOne | Final_Project.py:139 | the view pulls out some slice whenever it has one, and never two |
| Countries.CountryExplosionsSpec | Final_Project.py:103-139 | the country counts tally every row once; at most four slices; unless "Others" is selected the slices account for exactly the selected rows; no slice for an empty selection; exactly one slice is pulled out otherwise; the view of a normalised table is the same view |
| Yields.UniqueIdentifier | Final_Project.py:159 | a label starts with its row's location followed by " (" and ends with ")" |
| Yields.IntToStringRoundTrip | Final_Project.py:159 | `astype(str)` of a year parses back to that year, negatives included |
| Yields.LabelRoundTrip | Final_Project.py:159 | a label starts with its row's location and its parenthesised part gives back its row's year |
| Yields.LabelsSeparateYears | Final_Project.py:159 | at one location two rows get the same label exactly when they have the same year |
| Yields.IdxMax | Final_Project.py:162 | `idxmax` within a location is absent exactly when the location does not occur, and otherwise is the first row at that location with the largest upper yield |
| Names.BelowTransitive | Final_Project.py:162 | Python's string order is transitive |
| Names.BelowTotal | Final_Project.py:162 | of two different strings one is below the other |
| Names.BelowIrreflexive | Final_Project.py:162 | no string is below itself |
| Names.Sort | Final_Project.py:162 | `groupby` sorts its keys: the result is a permutation of the keys in ascending string order |
| Names.SortAscending | Final_Project.py:162 | sorting keys that are already in order changes nothing |
| Names.AscendingDistinctIsStrict | Final_Project.py:162 | ascending keys without repetitions are strictly ascending |
| Names.SortKeepsNames | Final_Project.py:162 | sorting keeps the same names, as many, and keeps them free of repetitions |
| Yields.GroupKeys | Final_Project.py:162 | the `groupby` keys are every location of the table once, no other, in strictly ascending name order |
| Yields.RowsAt | Final_Project.py:162-163 | `df.loc[idx]` has one row per requested location, at that location and its first largest row |
| Yields.BestPerLocation | Final_Project.py:162-163 | `df.loc[idx]` holds exactly one row per distinct location, each being its location's first largest row, in strictly ascending order of location name, and misses no location |
| Yields.BestRowsAreRows | Final_Project.py:162-163 | every per-location row is a row of the table |
| Yields.DistinctRowsAreBest | Final_Project.py:162-163 | when every location occurs once, every row is one of the per-location rows |
| Yields.BestPerLocationOfDistinct | Final_Project.py:162-163 | when every location occurs once, the per-location rows are a permutation of the rows: the same rows, each once, reordered by location name |
| Yields.BestPerLocationOfSorted | Final_Project.py:162-163 | rows already one per location and in ascending name order come back unchanged |
| Yields.BestPerLocationIdempotent | Final_Project.py:162-163 | taking per-location maxima twice is taking them once |
| Sorting.SortDesc | Final_Project.py:166 | sorting by descending key is a permutation and is non-increasing |
| Sorting.PrefixDominates | Final_Project.py:166 | in a non-increasing sequence every element of a prefix is at least every element after it |
| Yields.Largest | Final_Project.py:166 | `nlargest(n)` returns min(n, #rows) rows, all taken from the table |
| Yields.LargestSpec | Final_Project.py:166 | `nlargest(n)` returns min(n, #rows) of the rows and every row left out is at most every row kept |
| Sorting.SortAsc | Final_Project.py:172 | sorting by ascending key is a permutation and is non-decreasing |
| Yields.TopYields | Final_Project.py:172 | the chart's rows are in non-decreasing order of upper yield |
| Yields.TopYieldsSpec | Final_Project.py:162-172 | the chart has min(n, #locations) rows at pairwise distinct locations, each its location's first largest row, and every per-location maximum left out is at most every one shown |
| Yields.YieldExplosions | Final_Project.py:159-186 | one bar per chart row, carrying its label and both yield estimates |
| Yields.YieldExplosionsSpec | Final_Project.py:159-186 | at most n bars, in non-decreasing order of upper yield, each labelled with its row's location and giving back its row's year |
| Geo.MapColumns | Final_Project.py:205-206 | the projection keeps one point per row with that row's location, latitude and longitude |
| Geo.Locations | Final_Project.py:209 | the `isin` filter keeps exactly the points whose name is in the name list |
| Geo.LocationsSpec | Final_Project.py:209 | the kept points are a subsequence of the table with each kept point's multiplicity unchanged, and none are kept exactly when no point has a listed name |
| Geo.MapOfExplosions | Final_Project.py:205-209 | the map points are a subsequence of the projected table and all at Hiroshima or Nagasaki |
| Geo.MapOfExplosionsSpec | Final_Project.py:205-209 | every point on the map is Hiroshima or Nagasaki and comes from a row, and every row at Hiroshima or Nagasaki is on the map |
| Scenarios.MonthZeroSpellsJanuary | Final_Project.py:54 | year 1945, month 0, day 101 assemble to 19450101 and convert to 1 January 1945 |
| Scenarios.MonthOverflowChangesYear | Final_Project.py:54-57 | year 1945, month 101, day 1 assemble to 19460101, so the row is counted in 1946 |
| Scenarios.TimelineOfThreeEvents | Final_Project.py:54-74 | events in 1945, 1945 and 1946 give rows (1945, 2) and (1946, 1), maximum 2 in 1945 and minimum 1 in 1946 |
| Scenarios.TimelineOfEmptyRange | Final_Project.py:66-73 | a range that holds no event makes the timeline fail |
| Scenarios.NoCountrySelected | Final_Project.py:125-128 | an empty selection draws no slice and pulls none out |
| Scenarios.BestOfThree | Final_Project.py:162-163 | rows at Bikini, Novaya Zemlya and Nevada are their own per-location maxima and come out as Bikini, Nevada, Novaya Zemlya |
| Scenarios.TwoLargestOfThree | Final_Project.py:162-172 | yields 15000, 50000 and 1 kt with n = 2 show the 15000 kt row, then the 50000 kt row |
| Scenarios.TieGoesToFirstLocation | Final_Project.py:162-172 | two 10 kt rows, Nevada listed before Bikini, with n = 1 show Bikini, the first location by name |

## Left out

- Reading the CSV (`read_data`) is left out because it is file I/O. The model starts from a sequence of already parsed rows.
- The Streamlit pages, widgets and routing (`welcome`, the slider, the multiselect, the number input, the sidebar, `main`) are left out because they are UI. The year range, the selection and `n` are parameters. The model does not rely on the slider's bounds or the number input's 1 to 20 limits: any range and any `n` are accepted.
- The plots are left out because they are presentation: seaborn, the matplotlib line, pie and bars, the colour lookup, the explode offsets as drawn, and the "No data available" message. Of the pie, only the explode list's values are kept.
- The mean latitude and longitude and the pydeck map are left out because they are floating-point averaging and a foreign rendering library. Only the name filter is modelled.
- In-place column updates are modelled as new row sequences computed from the old ones. This covers the `Date`, `Year` and `Unique Identifier` columns, the overwrite of the country column and the "Others" assignment. Each run rereads the CSV and draws a single page, so no page sees another page's columns.
- Yields and coordinates are modelled as exact reals. They are only compared and copied, never combined. Missing (NaN) values are not modelled.
- Dates.ToDate / Dates.DateColumn: pandas parses the assembled number as text with the format `%Y%m%d`. The model reads it back arithmetically. The two agree on every number of eight digits. Any other number reads back with a year below 1000, above 9999 or negative, which lies outside the Timestamp range, so the model rejects that row; how pandas' text parse treats such a number is not modelled.
- Yields.IdxMax: `idxmax` skips rows whose upper yield is missing. Missing values are not modelled, so every row takes part.
- Yields.BestPerLocation: the groups come in ascending order of location name, as `groupby` sorts its keys. When rows tie at the cut-off, `nlargest` with `keep="first"` keeps the ones that come first in that order, as the stable descending sort does; which rows are kept is promised, not the order `nlargest` returns them in, and `sort_values` reorders them anyway. The order of equal counts in `value_counts` and of equal upper yields after `sort_values` depends on pandas' unstable default sort. The model uses stable sorts there, and no contract above depends on that order; which of two countries with the same largest count gets pulled out follows it and is therefore not promised.
- Countries.TopCountriesSpec: requires that none of the first three entries is a country literally named "Others". With such an entry, `top_countries["Others"] = others` overwrites it instead of appending a slice. `Countries.SetCount` models that overwrite as written, but the total is then not preserved.
- Countries.CountryExplosionsSpec: states that the slices account for the selected rows only when "Others" is not among the selected countries, for the same reason.
- An empty year selection is an error. A slider range that contains no event leaves `get_max_and_min` taking `.iloc[0]` of an empty frame, which raises. The model returns the `EmptySelection` error there and does not treat the result as an empty but valid timeline.
- A slider range is only filtered, never clamped to the observed years.
- An empty ranking draws nothing: `Yields.TopYields` of an empty table is empty.
