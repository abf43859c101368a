/**
 The total precipitation of one target year, written in the program as
 `Where(year == 2020).Select(precipitation).Sum()`. The target year is a
 parameter here.
 */
module Precipitation {
  import opened Seqs
  import opened Weather

  /** LINQ's `Sum` over exact reals; the sum of nothing is 0. */
  function Sum(xs: seq<real>): real {
    if |xs| == 0 then 0.0 else Sum(xs[..|xs| - 1]) + xs[|xs| - 1]
  }

  /** The `Select(precipitation)` projection. */
  function Precipitations(s: seq<Observation>): seq<real> {
    seq(|s|, i requires 0 <= i < |s| => s[i].precipitation)
  }

  /** The `Where(year == target)` filter. */
  function InYear(s: seq<Observation>, year: int): seq<Observation> {
    Filter(s, (o: Observation) => o.year == year)
  }

  /** Total precipitation recorded in `year`. */
  function TotalPrecip(s: seq<Observation>, year: int): real {
    Sum(Precipitations(InYear(s, year)))
  }

  /**
   Reference definition: walk the observations once, adding the
   precipitation of each one dated in `year` and nothing for the others.
   */
  function PrecipOfYear(s: seq<Observation>, year: int): real {
    if |s| == 0 then 0.0
    else
      var o := s[|s| - 1];
      PrecipOfYear(s[..|s| - 1], year) + (if o.year == year then o.precipitation else 0.0)
  }

  lemma InYearSnoc(s: seq<Observation>, o: Observation, year: int)
    ensures InYear(s + [o], year) == InYear(s, year) + (if o.year == year then [o] else [])
  {
    assert (s + [o])[..|s|] == s;
  }

  lemma PrecipitationsSnoc(s: seq<Observation>, o: Observation)
    ensures Precipitations(s + [o]) == Precipitations(s) + [o.precipitation]
  {
  }

  /** The pipeline's total is the sum over exactly the observations of `year`. */
  lemma {:induction false} TotalPrecipIsYearSum(s: seq<Observation>, year: int)
    ensures TotalPrecip(s, year) == PrecipOfYear(s, year)
    decreases |s|
  {
    if |s| > 0 {
      var init, o := s[..|s| - 1], s[|s| - 1];
      assert s == init + [o];
      TotalPrecipIsYearSum(init, year);
      InYearSnoc(init, o, year);
      if o.year == year {
        var ps := Precipitations(InYear(init, year) + [o]);
        PrecipitationsSnoc(InYear(init, year), o);
        assert ps[..|ps| - 1] == Precipitations(InYear(init, year));
      }
    }
  }

  /** With no observation in `year`, the total is 0 rather than an error. */
  lemma TotalPrecipNoMatch(s: seq<Observation>, year: int)
    requires forall i :: 0 <= i < |s| ==> s[i].year != year
    ensures TotalPrecip(s, year) == 0.0
  {
    TotalPrecipIsYearSum(s, year);
    YearSumNoMatch(s, year);
  }

  lemma {:induction false} YearSumNoMatch(s: seq<Observation>, year: int)
    requires forall i :: 0 <= i < |s| ==> s[i].year != year
    ensures PrecipOfYear(s, year) == 0.0
    decreases |s|
  {
    if |s| > 0 {
      YearSumNoMatch(s[..|s| - 1], year);
    }
  }

  /** Non-negative precipitation readings give a non-negative total. */
  lemma TotalPrecipNonNegative(s: seq<Observation>, year: int)
    requires forall i :: 0 <= i < |s| ==> s[i].precipitation >= 0.0
    ensures TotalPrecip(s, year) >= 0.0
  {
    TotalPrecipIsYearSum(s, year);
    YearSumNonNegative(s, year);
  }

  lemma {:induction false} YearSumNonNegative(s: seq<Observation>, year: int)
    requires forall i :: 0 <= i < |s| ==> s[i].precipitation >= 0.0
    ensures PrecipOfYear(s, year) >= 0.0
    decreases |s|
  {
    if |s| > 0 {
      YearSumNonNegative(s[..|s| - 1], year);
    }
  }

  /** The total of a concatenation is the sum of the totals of its parts. */
  lemma TotalPrecipAppend(a: seq<Observation>, b: seq<Observation>, year: int)
    ensures TotalPrecip(a + b, year) == TotalPrecip(a, year) + TotalPrecip(b, year)
  {
    TotalPrecipIsYearSum(a + b, year);
    TotalPrecipIsYearSum(a, year);
    TotalPrecipIsYearSum(b, year);
    YearSumAppend(a, b, year);
  }

  lemma {:induction false} YearSumAppend(a: seq<Observation>, b: seq<Observation>, year: int)
    ensures PrecipOfYear(a + b, year) == PrecipOfYear(a, year) + PrecipOfYear(b, year)
    decreases |b|
  {
    if |b| == 0 {
      assert a + b == a;
    } else {
      var b' := b[..|b| - 1];
      assert (a + b)[..|a + b| - 1] == a + b';
      YearSumAppend(a, b', year);
    }
  }
}
