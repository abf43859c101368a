/**
 The whole report pipeline: the precipitation total of a target year, the
 Year / HDD / CDD table and the most variable days, computed from one
 sequence of observations. The program itself uses the target year 2020.
 */
module Report {
  import opened Seqs
  import opened StableSort
  import opened Weather
  import opened Precipitation
  import opened DegreeDays
  import opened Combined
  import opened Variability
  import opened Format

  /** The year the program reports precipitation for. */
  const ReportYear: int := 2020

  datatype Report = Report(totalPrecip: real, table: seq<CombinedRow>, mostVariable: seq<VariableDay>)

  /** The three aggregates the program prints, for target year `year`. */
  function Run(s: seq<Observation>, year: int): Report {
    Report(TotalPrecip(s, year), CombinedTable(s), TopVariable(s, TopCount))
  }

  /** An empty store is not an error: the total is 0 and both tables are empty. */
  lemma RunEmpty(year: int)
    ensures Run([], year) == Report(0.0, [], [])
  {
  }

  /**
   Three observations: 2020-01-01 (mean 10, range -5..20, no rain),
   2020-06-01 (mean 25, range 20..30, 5 mm) and 2021-01-01 (mean 5, range
   -10..10, no rain).
   */
  function Example(): seq<Observation> {
    [Observation(2020, 1, 1, 10.0, -5.0, 20.0, 0.0),
     Observation(2020, 6, 1, 25.0, 20.0, 30.0, 5.0),
     Observation(2021, 1, 1, 5.0, -10.0, 10.0, 0.0)]
  }

  /** In the example, 2020 received 5 mm. */
  lemma ExamplePrecip()
    ensures TotalPrecip(Example(), ReportYear) == 5.0
  {
    var s := Example();
    TotalPrecipIsYearSum(s, ReportYear);
    assert s[..2] == [s[0], s[1]] && s[..2][..1] == [s[0]] && [s[0]][..0] == [];
    assert PrecipOfYear([s[0]], ReportYear) == 0.0;
    assert PrecipOfYear(s[..2], ReportYear) == 5.0;
  }

  /** Filtering the example observations one at a time. */
  lemma ExampleFilter(p: Observation -> bool)
    ensures Filter(Example(), p)
         == (if p(Example()[0]) then [Example()[0]] else [])
          + (if p(Example()[1]) then [Example()[1]] else [])
          + (if p(Example()[2]) then [Example()[2]] else [])
  {
    var s := Example();
    assert s == [s[0]] + [s[1]] + [s[2]];
    FilterAppend([s[0]] + [s[1]], [s[2]], p);
    FilterAppend([s[0]], [s[1]], p);
    assert [s[0]][..0] == [] && [s[1]][..0] == [] && [s[2]][..0] == [];
  }

  /** In the example, 2021 has no cooling day, so only 2020 is in the table, with one day of each kind. */
  lemma ExampleTable()
    ensures CombinedTable(Example()) == [CombinedRow(2020, 1, 1)]
  {
    var s := Example();
    var o1, o2, o3 := s[0], s[1], s[2];
    ExampleFilter(IsHeating);
    ExampleFilter(IsCooling);
    assert HeatingDays(s) == [o1, o3];
    assert CoolingDays(s) == [o2];
    assert [o1, o3][..1] == [o1] && [o1][..0] == [] && [o2][..0] == [];
    assert GroupByYear([o1]) == [YearCount(2020, 1)];
    assert [YearCount(2020, 1)][1..] == [];
    assert Bump([YearCount(2020, 1)], 2021) == [YearCount(2020, 1), YearCount(2021, 1)];
    assert HeatingByYear(s) == [YearCount(2020, 1), YearCount(2021, 1)];
    assert CoolingByYear(s) == [YearCount(2020, 1)];
    assert Join(HeatingByYear(s), CoolingByYear(s)) == [CombinedRow(2020, 1, 1)];
    assert [CombinedRow(2020, 1, 1)][..0] == [];
  }

  lemma ExampleYear()
    ensures FormatD(2020, 4) == "2020"
  {
    assert DigitChar(0) == '0' && DigitChar(2) == '2';
    assert Digits(2) == "2";
    assert Digits(20) == Digits(2) + "0";
    assert Digits(202) == Digits(20) + "2";
    assert Digits(2020) == Digits(202) + "0";
  }

  lemma ExampleCount()
    ensures FormatD(1, 4) == "0001"
  {
    assert Digits(1) == "1";
    assert Zeros(3) == "000";
  }

  /** The example's table line, `d4`-padded. */
  lemma ExampleRender()
    ensures RenderRow(CombinedRow(2020, 1, 1)) == "2020\t0001\t0001"
  {
    ExampleYear();
    ExampleCount();
  }

  /** In the example, the days in order of range are 2020-01-01 (25), 2021-01-01 (20) and 2020-06-01 (10). */
  lemma ExampleTop()
    ensures TopVariable(Example(), TopCount)
         == [VariableDay(2020, 1, 1, 25.0), VariableDay(2021, 1, 1, 20.0), VariableDay(2020, 6, 1, 10.0)]
  {
    var s := Example();
    var d1, d2, d3 := VariableDay(2020, 1, 1, 25.0), VariableDay(2020, 6, 1, 10.0), VariableDay(2021, 1, 1, 20.0);
    var days := VariableDays(s);
    assert days == [d1, d2, d3];
    assert days[..2] == [d1, d2] && [d1, d2][..1] == [d1] && [d1][..0] == [];
    var neg := Negated(DeltaOf);
    NegatedApply(DeltaOf, d1);
    NegatedApply(DeltaOf, d2);
    NegatedApply(DeltaOf, d3);
    assert SortBy([d1], neg) == [d1];
    assert Insert([d1], d2, neg) == [d1, d2];
    assert SortBy([d1, d2], neg) == [d1, d2];
    assert SortBy([d1, d2, d3], neg) == Insert([d1, d2], d3, neg);
    assert Insert([d1], d3, neg) == [d1, d3];
    assert Insert([d1, d2], d3, neg) == [d1, d3, d2];
  }

  /** The whole report for the example. */
  lemma RunExample()
    ensures Run(Example(), ReportYear)
         == Report(5.0, [CombinedRow(2020, 1, 1)],
                   [VariableDay(2020, 1, 1, 25.0), VariableDay(2021, 1, 1, 20.0),
                    VariableDay(2020, 6, 1, 10.0)])
  {
    ExamplePrecip();
    ExampleTable();
    ExampleTop();
  }
}
