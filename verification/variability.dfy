/**
 The most variable days. Every observation is projected to its date and
 its temperature range `maxtemp - mintemp` (signed: a reading with
 `mintemp > maxtemp` gets a negative range and sorts last), the projections are stably sorted by range, largest first
 (`OrderByDescending`), and the first five are kept (`Take(5)`).
 */
module Variability {
  import opened Seqs
  import opened StableSort
  import opened Weather

  /** How many days the report lists. */
  const TopCount: nat := 5

  /** One line of the most-variable-days table: a date and that day's temperature range. */
  datatype VariableDay = VariableDay(year: int, month: int, day: int, delta: real)

  /** The projection of one observation. */
  function DayOf(o: Observation): VariableDay {
    VariableDay(o.year, o.month, o.day, o.maxtemp - o.mintemp)
  }

  /** The projection of every observation, in input order. */
  function VariableDays(s: seq<Observation>): seq<VariableDay> {
    seq(|s|, i requires 0 <= i < |s| => DayOf(s[i]))
  }

  /** The sort key. */
  function DeltaOf(v: VariableDay): real {
    v.delta
  }

  /** The `n` days with the widest temperature range, widest first, ties in input order. */
  function TopVariable(s: seq<Observation>, n: nat): (r: seq<VariableDay>)
    ensures |r| == if n <= |s| then n else |s|
  {
    Take(SortByDescending(VariableDays(s), DeltaOf), n)
  }

  /**
   The list has `min(n, |s|)` entries, is non-increasing in range, is drawn
   from the observations, and every day left out (counted with its
   multiplicity, so a duplicate that did not make the list is left out too)
   has a range no wider than any listed one.
   */
  lemma TopVariableCorrect(s: seq<Observation>, n: nat)
    ensures |TopVariable(s, n)| == if n <= |s| then n else |s|
    ensures forall i, j :: 0 <= i < j < |TopVariable(s, n)| ==>
      TopVariable(s, n)[i].delta >= TopVariable(s, n)[j].delta
    ensures multiset(TopVariable(s, n)) <= multiset(VariableDays(s))
    ensures forall x, i ::
      x in multiset(VariableDays(s)) - multiset(TopVariable(s, n)) && 0 <= i < |TopVariable(s, n)|
      ==> TopVariable(s, n)[i].delta >= x.delta
  {
    var days := VariableDays(s);
    var sorted := SortByDescending(days, DeltaOf);
    var r := TopVariable(s, n);
    SortByDescendingCorrect(days, DeltaOf);
    assert r == sorted[..|r|];
    assert sorted == r + sorted[|r|..];
    DescendingCutDominates(sorted, DeltaOf, |r|);
    forall x, i | x in multiset(days) - multiset(r) && 0 <= i < |r|
      ensures r[i].delta >= x.delta
    {
      assert DeltaOf(sorted[i]) >= DeltaOf(x);
    }
  }

  /** Days with equal range are listed in input order: the list's days of each range start that range's input days. */
  lemma TopVariableStable(s: seq<Observation>, n: nat)
    ensures forall d :: KeyFilter(TopVariable(s, n), DeltaOf, d) <= KeyFilter(VariableDays(s), DeltaOf, d)
  {
    var sorted := SortByDescending(VariableDays(s), DeltaOf);
    SortByDescendingCorrect(VariableDays(s), DeltaOf);
    forall d
      ensures KeyFilter(TopVariable(s, n), DeltaOf, d) <= KeyFilter(VariableDays(s), DeltaOf, d)
    {
      KeyFilterTake(sorted, DeltaOf, d, n);
    }
  }

  /**
   The list does not depend on how the sort is carried out: any stable
   descending sort of the days, cut after `n`, gives the same list.
   */
  lemma TopVariableDeterministic(s: seq<Observation>, n: nat, t: seq<VariableDay>)
    requires forall i, j :: 0 <= i < j < |t| ==> t[i].delta >= t[j].delta
    requires forall d :: KeyFilter(t, DeltaOf, d) == KeyFilter(VariableDays(s), DeltaOf, d)
    ensures Take(t, n) == TopVariable(s, n)
  {
    var days := VariableDays(s);
    var neg := Negated(DeltaOf);
    forall k
      ensures KeyFilter(t, neg, k) == KeyFilter(days, neg, k)
    {
      KeyFilterNegated(t, DeltaOf, -k);
      KeyFilterNegated(days, DeltaOf, -k);
    }
    assert Sorted(t, neg) by {
      forall i, j | 0 <= i < j < |t|
        ensures neg(t[i]) <= neg(t[j])
      {
      }
    }
    StableSortIsSortBy(days, t, neg);
  }
}
