# WeatherLab report pipeline in Dafny

WeatherLab reads daily weather observations from a climate store. Each
observation has a date (year, month, day), a mean, minimum and maximum
temperature, and a precipitation amount. From them it prints three things:

- the total precipitation of one year;
- a Year / HDD / CDD table. A heating degree day (HDD) has a mean temperature
  below 18 C. A cooling degree day (CDD) has one of 18 C or more. The table
  is the inner join of the per-year HDD and CDD counts, ordered by year;
- the five days with the widest temperature range (`maxtemp - mintemp`),
  widest first.

This project models that pipeline as pure functions over an immutable
`seq<Observation>`. It proves what each step promises.

| file | module | models |
|---|---|---|
| `weather.dfy` | `Weather` | the `Observation` record |
| `seqs.dfy` | `Seqs` | `Where` (`Filter`), `Take`, first-occurrence `Distinct` |
| `stable_sort.dfy` | `StableSort` | `OrderBy` / `OrderByDescending` as one stable insertion sort by a real key |
| `precipitation.dfy` | `Precipitation` | `Where(year).Select(precipitation).Sum()` |
| `degree_days.dfy` | `DegreeDays` | the HDD/CDD filters and `GroupBy(year)` with `Count()` |
| `combined.dfy` | `Combined` | `Join` on year, then `OrderBy(year)` |
| `variability.dfy` | `Variability` | projection to the range, `OrderByDescending`, `Take(5)` |
| `format.dfy` | `Format` | `d4` / `d2` zero padding, table lines, `YYYY-MM-DD` labels, with parsers |
| `report.dfy` | `Report` | the whole run, the empty store, a worked three-day example |

The LINQ operators follow their LINQ-to-Objects behaviour:
- `Where` keeps input order.
- `GroupBy` emits one group per key, in order of first appearance.
- `Join` emits, for each outer element in order, the matching inner elements in order.
- `OrderBy` and `OrderByDescending` are stable.
- `Take(n)` keeps a prefix of length at most `n`.

Stability is stated key by key. For every key value, the elements carrying
that key form the same subsequence before and after the sort (`KeyFilter`).
`StableSort.SortedUnique` shows that this contract fixes the result. So the
report is a deterministic function of the input order.

The target year is a parameter; the program uses 2020 (`Report.ReportYear`).
Temperatures and precipitation are exact `real`s.

## Model

| member | source | states |
|---|---|---|
| `Precipitation.TotalPrecip` | WeatherLab/Program.cs:14-17 | the year's total precipitation; its contract is carried by the four `TotalPrecip…` lemmas below (reference sum, 0 when nothing matches, sign, additivity) |
| `Precipitation.TotalPrecipIsYearSum` | WeatherLab/Program.cs:14-17 | the total equals a one-pass sum that adds the precipitation of exactly the observations dated in the target year |
| `Precipitation.TotalPrecipNoMatch` | WeatherLab/Program.cs:14-17 | with no observation in the target year the total is 0, not an error |
| `Precipitation.TotalPrecipNonNegative` | WeatherLab/Program.cs:14-17 | non-negative readings give a non-negative total |
| `Precipitation.TotalPrecipAppend` | WeatherLab/Program.cs:14-17 | the total over a concatenation of two observation sequences is the sum of their totals |
| `DegreeDays.ExactlyOneKind` | WeatherLab/Program.cs:24-38 | every observation is a heating day or a cooling day, never both; a mean of exactly 18 counts as cooling |
| `DegreeDays.DaysPartition` | WeatherLab/Program.cs:23-46 | the heating and cooling filters split the observations as multisets: nothing lost, nothing duplicated |
| `DegreeDays.GroupByYear` | WeatherLab/Program.cs:25-31 | `GroupBy(year)` with `Count()` as a fold of `Bump`; never more groups than observations; the full contract (distinct years in first-appearance order, exact counts) is `DegreeDays.GroupByYearCorrect` |
| `DegreeDays.GroupByYearCorrect` | WeatherLab/Program.cs:25-31 | group years are the distinct input years in first-appearance order; each count is the number of observations of that year, at least 1; counts sum to the input length |
| `DegreeDays.BumpExisting` | WeatherLab/Program.cs:25-31 | adding an observation of a year that already has a group raises only that group's count, by one |
| `DegreeDays.BumpNew` | WeatherLab/Program.cs:25-31 | an observation of a new year opens a group of count 1 after the existing groups |
| `DegreeDays.HeatingByYear` | WeatherLab/Program.cs:23-32 | the HDD grouping; at most one group per observation; its contract is `DegreeDays.HeatingByYearCorrect` |
| `DegreeDays.CoolingByYear` | WeatherLab/Program.cs:37-46 | the CDD grouping; at most one group per observation; its contract is `DegreeDays.CoolingByYearCorrect` |
| `DegreeDays.HeatingByYearCorrect` | WeatherLab/Program.cs:23-32 | each year appears at most once; it appears exactly when it has a day below 18; its count is the number of such days, at least 1 |
| `DegreeDays.CoolingByYearCorrect` | WeatherLab/Program.cs:37-46 | each year appears at most once; it appears exactly when it has a day at or above 18; its count is the number of such days, at least 1 |
| `DegreeDays.DegreeDayCountsCoverAll` | WeatherLab/Program.cs:23-46 | all heating counts plus all cooling counts equal the number of observations |
| `DegreeDays.YearSplit` | WeatherLab/Program.cs:23-46 | within any year, heating days plus cooling days equal that year's observations |
| `Combined.JoinOne` | WeatherLab/Program.cs:62-72 | one outer group yields exactly the rows pairing it with a same-year inner group, carrying both counts, as many rows as there are such inner groups, and nothing when no inner year matches |
| `Combined.Join` | WeatherLab/Program.cs:62-72 | a row is in the inner join exactly when some outer and some inner group share its year, and the row carries their two counts |
| `Combined.JoinOneAtMostOne` | WeatherLab/Program.cs:62-72 | when inner years are unique, an outer group yields at most one row |
| `Combined.JoinUniqueYears` | WeatherLab/Program.cs:62-72 | joining two groupings with unique years gives rows with unique years |
| `Combined.JoinYears` | WeatherLab/Program.cs:62-72 | a year has a joined row exactly when it is in both groupings |
| `Combined.CombinedTable` | WeatherLab/Program.cs:62-73 | the joined, year-ordered table; its contract is the three `CombinedTable…` lemmas below (strictly ascending, which years appear, which counts they carry) |
| `Combined.CombinedTableAscending` | WeatherLab/Program.cs:62-73 | the combined table is strictly ascending by year |
| `Combined.CombinedTableYears` | WeatherLab/Program.cs:62-73 | a year has a row exactly when it has at least one heating day and at least one cooling day |
| `Combined.CombinedTableCounts` | WeatherLab/Program.cs:62-73 | each row carries its year's heating-day count and cooling-day count |
| `Combined.AllHeatingYearAbsent` | WeatherLab/Program.cs:62-73 | a year whose days are all below 18 has no row |
| `StableSort.SortBy` | WeatherLab/Program.cs:73 | `OrderBy` as insertion sort; keeps the length; its contract (ordered, permutation, stable) is `StableSort.SortByCorrect` |
| `StableSort.SortByCorrect` | WeatherLab/Program.cs:73 | the sort is ordered by the key, is a permutation, and keeps each key's elements in input order |
| `StableSort.InsertSorted` | WeatherLab/Program.cs:73 | inserting into a sorted sequence keeps it sorted |
| `StableSort.InsertKeyFilter` | WeatherLab/Program.cs:73 | an inserted element goes after every earlier element with the same key |
| `StableSort.SortedUnique` | WeatherLab/Program.cs:73 | two sequences ordered by a key with the same per-key subsequences are equal |
| `StableSort.StableSortIsSortBy` | WeatherLab/Program.cs:89 | every stable sort of a sequence equals the modelled sort, so the result is determined by the input |
| `StableSort.StableSortStrict` | WeatherLab/Program.cs:73 | a stable sort of input with unique keys is strictly ascending |
| `StableSort.SortByDescending` | WeatherLab/Program.cs:89 | `OrderByDescending`; keeps the length; its contract is `StableSort.SortByDescendingCorrect` |
| `StableSort.DescendingCutDominates` | WeatherLab/Program.cs:89-90 | cutting a largest-first sequence after k elements leaves out, counted with multiplicity, nothing with a larger key than a kept element |
| `StableSort.SortByDescendingCorrect` | WeatherLab/Program.cs:89 | the descending sort is non-increasing in the key, is a permutation, and keeps equal-key elements in input order |
| `Variability.TopVariable` | WeatherLab/Program.cs:81-90 | the top-n days; min(n, number of observations) entries; the rest of its contract is `Variability.TopVariableCorrect` |
| `Variability.TopVariableCorrect` | WeatherLab/Program.cs:81-90 | the list has min(n, number of observations) entries and is non-increasing in range; as a multiset it is contained in the projected days; every day left out, counted with its multiplicity, has a range no wider than every listed one |
| `Variability.TopVariableStable` | WeatherLab/Program.cs:89-90 | among days with equal range, the listed ones are the first such days in input order |
| `Variability.TopVariableDeterministic` | WeatherLab/Program.cs:89-90 | any stable descending sort of the days, cut after n, gives the same list |
| `Seqs.Filter` | WeatherLab/Program.cs:15 | `Where`: the result keeps only elements that satisfy the predicate, all drawn from the input, never longer than the input; completeness is `Seqs.FilterCount` |
| `Seqs.FilterCount` | WeatherLab/Program.cs:15 | every occurrence of a value that satisfies the predicate is kept and no occurrence of one that does not |
| `Seqs.FilterSplit` | WeatherLab/Program.cs:24-38 | a filter and its complement together give back the input as a multiset |
| `Seqs.FilterKeeps` | WeatherLab/Program.cs:24 | every element that satisfies the predicate is kept |
| `Seqs.Take` | WeatherLab/Program.cs:90 | the result has min(n, length) elements and is a prefix of the input |
| `Seqs.Distinct` | WeatherLab/Program.cs:25-31 | the result has no repeats and holds exactly the values of the input; its order is `Seqs.DistinctOrder` |
| `Seqs.DistinctOrder` | WeatherLab/Program.cs:25-31 | the distinct values are listed in the order of their first occurrence in the input |
| `Format.FormatD` | WeatherLab/Program.cs:76 | `{n:d<width>}`: at least `width` characters; a leading `-` exactly for negative numbers; only digits otherwise |
| `Format.FormatDRoundTrip` | WeatherLab/Program.cs:76 | parsing a `d4`/`d2` rendering returns the rendered integer, negative ones included |
| `Format.FormatDWidth` | WeatherLab/Program.cs:76 | a number from 0 to 10^width - 1 renders in exactly `width` characters |
| `Format.RenderRow` | WeatherLab/Program.cs:76 | one Year/HDD/CDD line, at least 14 characters; its round trip is `Format.RenderRowRoundTrip` |
| `Format.RenderRowRoundTrip` | WeatherLab/Program.cs:76 | a Year/HDD/CDD line splits at its tabs into three fields that read back as the row |
| `Format.HeaderIsNotRow` | WeatherLab/Program.cs:61 | the header line `Year\tHDD\tCDD` never reads back as a row |
| `Format.RenderTableRoundTrip` | WeatherLab/Program.cs:61-77 | the printed table is the header followed by one line per row, and line i + 1 reads back as row i |
| `Format.DateLabel` | WeatherLab/Program.cs:93 | the `YYYY-MM-DD` label, at least ten characters; its round trip is `Format.DateLabelRoundTrip` |
| `Format.DateLabelRoundTrip` | WeatherLab/Program.cs:93 | a date in years 0 to 9999 gives a ten-character `YYYY-MM-DD` label whose three fields read back as the date |
| `Report.Run` | WeatherLab/Program.cs:14-90 | the three aggregates of one run; its contract is carried by the lemmas of each step and by `Report.RunEmpty` and `Report.RunExample` |
| `Report.RunEmpty` | WeatherLab/Program.cs:14-90 | an empty store gives total 0 and two empty tables |
| `Report.RunExample` | WeatherLab/Program.cs:14-90 | the three-day example gives total 5, the single row (2020, 1, 1), and days ranked 25, 20, 10 |
| `Report.ExampleRender` | WeatherLab/Program.cs:76 | the example's row renders as `2020\t0001\t0001` |

## Left out

- The climate store (`WeatherSqliteContext` over `.\data\climate.db`, WeatherLab/Program.cs:9, 13). The input is a given `seq<Observation>`. `WeatherSqliteContext` is not part of this model. Connection and data-access failures are not modelled either.
- Query pushdown. Entity Framework may translate the LINQ chains to SQL. SQL gives no stable order to `GROUP BY` output or to ties in `ORDER BY ... DESC`. The model follows LINQ-to-Objects semantics. With unique years, the final `OrderBy(year)` makes the combined table the same either way. Among days with equal range, the top-five list may differ under SQL.
- Console output (WeatherLab/Program.cs:18, 61, 76, 79-80, 91-94). This is I/O. The text of the Year / HDD / CDD table, header included, is modelled as a sequence of strings (`Format.RenderTable`), and so are the date labels; the writing itself is not.
- Floating-point formatting: the default rendering of the precipitation sum (line 18) and the `0.00` rendering of the range (line 93). This is runtime numeric formatting.
- IEEE-754 semantics. Temperatures and precipitation are exact reals, so there is no rounding in `-` or `Sum`. There is no NaN either. A NaN mean temperature fails both `< 18` and `>= 18`, so with NaN readings the source's partition (`DegreeDays.ExactlyOneKind`, `DegreeDays.DaysPartition`) would not hold.
- Fixed-width integers. Years, months, days and counts are unbounded. Overflow of a 32-bit `Count()` would need more than 2^31 observations, and is not modelled.
