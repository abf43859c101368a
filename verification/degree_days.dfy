/**
 Heating degree days (mean temperature below 18 C) and cooling degree
 days (mean temperature 18 C or above), each filtered with `Where`,
 grouped by year with `GroupBy` and counted.

 `GroupByYear` follows LINQ-to-Objects: one group per distinct year, the
 groups in the order their year first appears, each counting its members.
 It is written as the fold LINQ's lookup performs: walk the input, bump the
 count of the year's group, or open a new group at the end.
 */
module DegreeDays {
  import opened Seqs
  import opened Weather

  /** Mean temperature, in degrees Celsius, from which a day counts as a cooling day. */
  const Threshold: real := 18.0

  /** A heating degree day: mean temperature below the threshold. */
  predicate IsHeating(o: Observation) {
    o.meantemp < Threshold
  }

  /** A cooling degree day: mean temperature at or above the threshold. */
  predicate IsCooling(o: Observation) {
    o.meantemp >= Threshold
  }

  /** Every observation is exactly one of the two kinds; 18 C itself is cooling. */
  lemma ExactlyOneKind(o: Observation)
    ensures IsHeating(o) <==> !IsCooling(o)
    ensures o.meantemp == Threshold ==> IsCooling(o) && !IsHeating(o)
  {
  }

  function HeatingDays(s: seq<Observation>): seq<Observation> {
    Filter(s, IsHeating)
  }

  function CoolingDays(s: seq<Observation>): seq<Observation> {
    Filter(s, IsCooling)
  }

  /** The two filters split the observations between them, losing and duplicating none. */
  lemma {:induction false} DaysPartition(s: seq<Observation>)
    ensures multiset(HeatingDays(s)) + multiset(CoolingDays(s)) == multiset(s)
    ensures |HeatingDays(s)| + |CoolingDays(s)| == |s|
    decreases |s|
  {
    if |s| > 0 {
      var init := s[..|s| - 1];
      assert s == init + [s[|s| - 1]];
      DaysPartition(init);
    }
  }

  /** One row of a grouping: a year and how many observations fell into it. */
  datatype YearCount = YearCount(year: int, count: nat)

  /** The number of observations in `s` dated in year `y`. */
  function CountYear(s: seq<Observation>, y: int): nat {
    if |s| == 0 then 0
    else CountYear(s[..|s| - 1], y) + (if s[|s| - 1].year == y then 1 else 0)
  }

  /** The years of a grouping, in group order. */
  function GroupYears(g: seq<YearCount>): (r: seq<int>)
    ensures |r| == |g|
    ensures forall i :: 0 <= i < |g| ==> r[i] == g[i].year
  {
    seq(|g|, i requires 0 <= i < |g| => g[i].year)
  }

  /** The sum of the counts of a grouping. */
  function TotalCount(g: seq<YearCount>): nat {
    if |g| == 0 then 0 else g[0].count + TotalCount(g[1..])
  }

  /** Adds one observation of year `y` to a grouping. */
  function Bump(g: seq<YearCount>, y: int): (r: seq<YearCount>)
    ensures |r| == |g| || r == g + [YearCount(y, 1)]
  {
    if |g| == 0 then [YearCount(y, 1)]
    else if g[0].year == y then [YearCount(y, g[0].count + 1)] + g[1..]
    else [g[0]] + Bump(g[1..], y)
  }

  /** LINQ's `GroupBy(year, (key, group) => (key, group.Count()))`. */
  function GroupByYear(s: seq<Observation>): (r: seq<YearCount>)
    ensures |r| <= |s|
  {
    if |s| == 0 then []
    else Bump(GroupByYear(s[..|s| - 1]), s[|s| - 1].year)
  }

  lemma {:induction false} TotalCountSnoc(g: seq<YearCount>, x: YearCount)
    ensures TotalCount(g + [x]) == TotalCount(g) + x.count
    decreases |g|
  {
    if |g| > 0 {
      assert (g + [x])[1..] == g[1..] + [x];
      TotalCountSnoc(g[1..], x);
    }
  }

  /** Bumping a year with no group yet opens a group of one at the end. */
  lemma {:induction false} BumpNew(g: seq<YearCount>, y: int)
    requires y !in GroupYears(g)
    ensures Bump(g, y) == g + [YearCount(y, 1)]
    decreases |g|
  {
    if |g| > 0 {
      assert GroupYears(g[1..]) == GroupYears(g)[1..];
      BumpNew(g[1..], y);
    }
  }

  /** Bumping a year that has a group adds one to that group's count and changes nothing else. */
  lemma {:induction false} BumpExisting(g: seq<YearCount>, y: int)
    requires NoDups(GroupYears(g)) && y in GroupYears(g)
    ensures |Bump(g, y)| == |g|
    ensures forall i :: 0 <= i < |g| ==>
      Bump(g, y)[i] == if g[i].year == y then YearCount(y, g[i].count + 1) else g[i]
    ensures TotalCount(Bump(g, y)) == TotalCount(g) + 1
    decreases |g|
  {
    assert GroupYears(g[1..]) == GroupYears(g)[1..];
    if g[0].year != y {
      BumpExisting(g[1..], y);
    } else {
      forall i | 1 <= i < |g|
        ensures g[i].year != y
      {
        assert GroupYears(g)[0] != GroupYears(g)[i];
      }
    }
  }

  lemma {:induction false} CountYearAbsent(s: seq<Observation>, y: int)
    requires y !in YearsOf(s)
    ensures CountYear(s, y) == 0
    decreases |s|
  {
    if |s| > 0 {
      var init := s[..|s| - 1];
      assert YearsOf(init) == YearsOf(s)[..|s| - 1];
      CountYearAbsent(init, y);
    }
  }

  /**
   The grouping has one group per distinct year, in first-appearance order;
   each group's count is the number of observations of its year, so at least
   one; and the counts add up to the number of observations.
   */
  lemma {:induction false} GroupByYearCorrect(s: seq<Observation>)
    ensures GroupYears(GroupByYear(s)) == Distinct(YearsOf(s))
    ensures forall i :: 0 <= i < |GroupByYear(s)| ==>
      GroupByYear(s)[i].count == CountYear(s, GroupByYear(s)[i].year) >= 1
    ensures TotalCount(GroupByYear(s)) == |s|
    decreases |s|
  {
    if |s| > 0 {
      var init, o := s[..|s| - 1], s[|s| - 1];
      var g0 := GroupByYear(init);
      var g := GroupByYear(s);
      GroupByYearCorrect(init);
      var ys := YearsOf(s);
      assert YearsOf(init) == ys[..|s| - 1];
      assert ys == YearsOf(init) + [o.year];
      assert o.year in GroupYears(g0) <==> o.year in YearsOf(init);
      if o.year in GroupYears(g0) {
        BumpExisting(g0, o.year);
        assert GroupYears(g) == GroupYears(g0);
      } else {
        BumpNew(g0, o.year);
        TotalCountSnoc(g0, YearCount(o.year, 1));
        CountYearAbsent(init, o.year);
        assert GroupYears(g) == GroupYears(g0) + [o.year];
      }
    }
  }

  /** The heating-degree-day grouping of the report. */
  function HeatingByYear(s: seq<Observation>): (r: seq<YearCount>)
    ensures |r| <= |s|
  {
    GroupByYear(HeatingDays(s))
  }

  /** The cooling-degree-day grouping of the report. */
  function CoolingByYear(s: seq<Observation>): (r: seq<YearCount>)
    ensures |r| <= |s|
  {
    GroupByYear(CoolingDays(s))
  }

  /** A year occurs among the filtered observations exactly when some observation of that year passes the filter. */
  lemma FilteredYears(s: seq<Observation>, p: Observation -> bool, y: int)
    ensures y in YearsOf(Filter(s, p)) <==> exists i :: 0 <= i < |s| && s[i].year == y && p(s[i])
  {
    var f := Filter(s, p);
    if y in YearsOf(f) {
      var j :| 0 <= j < |f| && f[j].year == y;
      assert f[j] in s;
    }
    if i :| 0 <= i < |s| && s[i].year == y && p(s[i]) {
      FilterKeeps(s, p, i);
      var j :| 0 <= j < |f| && f[j] == s[i];
      assert YearsOf(f)[j] == y;
    }
  }

  /** What both groupings promise, for the filter `p` they are built on. */
  lemma GroupedFilterCorrect(s: seq<Observation>, p: Observation -> bool)
    ensures NoDups(GroupYears(GroupByYear(Filter(s, p))))
    ensures forall y :: y in GroupYears(GroupByYear(Filter(s, p)))
                    <==> exists i :: 0 <= i < |s| && s[i].year == y && p(s[i])
    ensures forall i :: 0 <= i < |GroupByYear(Filter(s, p))| ==>
      GroupByYear(Filter(s, p))[i].count
        == CountYear(Filter(s, p), GroupByYear(Filter(s, p))[i].year) >= 1
  {
    GroupByYearCorrect(Filter(s, p));
    forall y
      ensures y in GroupYears(GroupByYear(Filter(s, p)))
          <==> exists i :: 0 <= i < |s| && s[i].year == y && p(s[i])
    {
      FilteredYears(s, p, y);
    }
  }

  /**
   Each year appears at most once in the heating grouping, exactly when it
   has a day below 18 C, with the number of such days as its count.
   */
  lemma HeatingByYearCorrect(s: seq<Observation>)
    ensures NoDups(GroupYears(HeatingByYear(s)))
    ensures forall y :: y in GroupYears(HeatingByYear(s))
                    <==> exists i :: 0 <= i < |s| && s[i].year == y && IsHeating(s[i])
    ensures forall i :: 0 <= i < |HeatingByYear(s)| ==>
      HeatingByYear(s)[i].count == CountYear(HeatingDays(s), HeatingByYear(s)[i].year) >= 1
  {
    GroupedFilterCorrect(s, IsHeating);
  }

  /**
   Each year appears at most once in the cooling grouping, exactly when it
   has a day at or above 18 C, with the number of such days as its count.
   */
  lemma CoolingByYearCorrect(s: seq<Observation>)
    ensures NoDups(GroupYears(CoolingByYear(s)))
    ensures forall y :: y in GroupYears(CoolingByYear(s))
                    <==> exists i :: 0 <= i < |s| && s[i].year == y && IsCooling(s[i])
    ensures forall i :: 0 <= i < |CoolingByYear(s)| ==>
      CoolingByYear(s)[i].count == CountYear(CoolingDays(s), CoolingByYear(s)[i].year) >= 1
  {
    GroupedFilterCorrect(s, IsCooling);
  }

  /** Over all years, heating counts plus cooling counts are the number of observations. */
  lemma DegreeDayCountsCoverAll(s: seq<Observation>)
    ensures TotalCount(HeatingByYear(s)) + TotalCount(CoolingByYear(s)) == |s|
  {
    GroupByYearCorrect(HeatingDays(s));
    GroupByYearCorrect(CoolingDays(s));
    DaysPartition(s);
  }

  lemma CountYearSnoc(s: seq<Observation>, o: Observation, y: int)
    ensures CountYear(s + [o], y) == CountYear(s, y) + (if o.year == y then 1 else 0)
  {
    assert (s + [o])[..|s|] == s;
  }

  /** Within one year, heating days plus cooling days are that year's observations. */
  lemma {:induction false} YearSplit(s: seq<Observation>, y: int)
    ensures CountYear(HeatingDays(s), y) + CountYear(CoolingDays(s), y) == CountYear(s, y)
    decreases |s|
  {
    if |s| > 0 {
      var init := s[..|s| - 1];
      var o := s[|s| - 1];
      YearSplit(init, y);
      var h, c := HeatingDays(init), CoolingDays(init);
      if IsHeating(o) {
        assert HeatingDays(s) == h + [o] && CoolingDays(s) == c;
        CountYearSnoc(h, o, y);
      } else {
        assert HeatingDays(s) == h && CoolingDays(s) == c + [o];
        CountYearSnoc(c, o, y);
      }
    }
  }
}
