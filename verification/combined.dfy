/**
 The Year / HDD / CDD table: the heating grouping inner-joined with the
 cooling grouping on the year, then ordered by year.

 `Join` follows LINQ-to-Objects: for each outer (heating) group in order,
 one row for each inner (cooling) group with the same year, in inner order.
 A year missing from either grouping produces no row.
 */
module Combined {
  import opened Seqs
  import opened StableSort
  import opened Weather
  import opened DegreeDays

  /** One line of the Year / HDD / CDD table. */
  datatype CombinedRow = CombinedRow(year: int, heating: nat, cooling: nat)

  /** The row an outer and an inner group with the same year produce. */
  function Pair(h: YearCount, c: YearCount): CombinedRow {
    CombinedRow(h.year, h.count, c.count)
  }

  /** How many groups of `inner` have year `y`. */
  function Matches(inner: seq<YearCount>, y: int): nat {
    if |inner| == 0 then 0
    else Matches(inner[..|inner| - 1], y) + (if inner[|inner| - 1].year == y then 1 else 0)
  }

  /** The rows one outer group contributes: one per inner group of the same year. */
  function JoinOne(h: YearCount, inner: seq<YearCount>): (r: seq<CombinedRow>)
    ensures forall x :: x in r <==> exists j :: 0 <= j < |inner| && inner[j].year == h.year && x == Pair(h, inner[j])
    ensures |r| == Matches(inner, h.year)
    ensures (forall j :: 0 <= j < |inner| ==> inner[j].year != h.year) ==> r == []
  {
    if |inner| == 0 then []
    else
      var init, c := inner[..|inner| - 1], inner[|inner| - 1];
      assert inner == init + [c];
      var r0 := JoinOne(h, init);
      assert forall j :: 0 <= j < |init| ==> init[j] == inner[j];
      if c.year == h.year then r0 + [Pair(h, c)] else r0
  }

  /** LINQ's inner `Join` of two groupings on the year. */
  function Join(outer: seq<YearCount>, inner: seq<YearCount>): (r: seq<CombinedRow>)
    ensures forall x :: x in r <==>
      exists i, j :: 0 <= i < |outer| && 0 <= j < |inner|
                     && outer[i].year == inner[j].year && x == Pair(outer[i], inner[j])
  {
    if |outer| == 0 then []
    else
      var rest := Join(outer[1..], inner);
      assert forall i :: 1 <= i < |outer| ==> outer[1..][i - 1] == outer[i];
      JoinOne(outer[0], inner) + rest
  }

  /** The year of a row, as the key the table is ordered by. */
  function RowYear(x: CombinedRow): real {
    x.year as real
  }

  /** The years of a table, in row order. */
  function RowYears(t: seq<CombinedRow>): seq<int> {
    seq(|t|, i requires 0 <= i < |t| => t[i].year)
  }

  /** The combined table: heating and cooling groupings joined on the year, ordered by year. */
  function CombinedTable(s: seq<Observation>): seq<CombinedRow> {
    SortBy(Join(HeatingByYear(s), CoolingByYear(s)), RowYear)
  }

  /** With unique years on the inner side, an outer group contributes at most one row. */
  lemma {:induction false} JoinOneAtMostOne(h: YearCount, inner: seq<YearCount>)
    requires NoDups(GroupYears(inner))
    ensures |JoinOne(h, inner)| <= 1
    decreases |inner|
  {
    if |inner| > 0 {
      var init, c := inner[..|inner| - 1], inner[|inner| - 1];
      assert GroupYears(init) == GroupYears(inner)[..|inner| - 1];
      JoinOneAtMostOne(h, init);
      if c.year == h.year {
        assert forall j :: 0 <= j < |init| ==> init[j].year != h.year by {
          forall j | 0 <= j < |init| ensures init[j].year != h.year {
            assert GroupYears(inner)[j] != GroupYears(inner)[|inner| - 1];
          }
        }
        assert JoinOne(h, init) == [];
      }
    }
  }

  /** Joining two groupings with unique years gives rows with unique years. */
  lemma {:induction false} JoinUniqueYears(outer: seq<YearCount>, inner: seq<YearCount>)
    requires NoDups(GroupYears(outer)) && NoDups(GroupYears(inner))
    ensures UniqueKeys(Join(outer, inner), RowYear)
    decreases |outer|
  {
    if |outer| > 0 {
      var h, rest := outer[0], outer[1..];
      assert GroupYears(rest) == GroupYears(outer)[1..];
      JoinUniqueYears(rest, inner);
      JoinOneAtMostOne(h, inner);
      var a, b := JoinOne(h, inner), Join(rest, inner);
      forall x | x in b
        ensures x.year != h.year
      {
        var i, j :| 0 <= i < |rest| && 0 <= j < |inner| && rest[i].year == inner[j].year
                    && x == Pair(rest[i], inner[j]);
        assert GroupYears(outer)[0] != GroupYears(outer)[i + 1];
      }
      forall p, q | 0 <= p < q < |a + b|
        ensures RowYear((a + b)[p]) != RowYear((a + b)[q])
      {
        if p < |a| {
          assert a[p] in a;
          assert (a + b)[q] in b;
        } else {
          assert (a + b)[p] == b[p - |a|] && (a + b)[q] == b[q - |a|];
        }
      }
    }
  }

  /** A year has a joined row exactly when both groupings have it. */
  lemma JoinYears(outer: seq<YearCount>, inner: seq<YearCount>, y: int)
    ensures y in RowYears(Join(outer, inner)) <==> y in GroupYears(outer) && y in GroupYears(inner)
  {
    var t := Join(outer, inner);
    if y in RowYears(t) {
      var k :| 0 <= k < |t| && t[k].year == y;
      assert t[k] in t;
      var i, j :| 0 <= i < |outer| && 0 <= j < |inner| && outer[i].year == inner[j].year
                  && t[k] == Pair(outer[i], inner[j]);
      assert GroupYears(outer)[i] == y && GroupYears(inner)[j] == y;
    }
    if y in GroupYears(outer) && y in GroupYears(inner) {
      var i :| 0 <= i < |outer| && GroupYears(outer)[i] == y;
      var j :| 0 <= j < |inner| && GroupYears(inner)[j] == y;
      assert Pair(outer[i], inner[j]) in t;
      var k :| 0 <= k < |t| && t[k] == Pair(outer[i], inner[j]);
      assert RowYears(t)[k] == y;
    }
  }

  /** The combined table is strictly ascending by year. */
  lemma CombinedTableAscending(s: seq<Observation>)
    ensures forall i, j :: 0 <= i < j < |CombinedTable(s)| ==>
      CombinedTable(s)[i].year < CombinedTable(s)[j].year
  {
    var joined := Join(HeatingByYear(s), CoolingByYear(s));
    HeatingByYearCorrect(s);
    CoolingByYearCorrect(s);
    SortByCorrect(joined, RowYear);
    JoinUniqueYears(HeatingByYear(s), CoolingByYear(s));
    StableSortStrict(joined, CombinedTable(s), RowYear);
  }

  /** A year has a row in the combined table exactly when it has both a heating day and a cooling day. */
  lemma CombinedTableYears(s: seq<Observation>, y: int)
    ensures y in RowYears(CombinedTable(s)) <==>
      (exists i :: 0 <= i < |s| && s[i].year == y && IsHeating(s[i])) &&
      (exists i :: 0 <= i < |s| && s[i].year == y && IsCooling(s[i]))
  {
    var joined := Join(HeatingByYear(s), CoolingByYear(s));
    var t := CombinedTable(s);
    HeatingByYearCorrect(s);
    CoolingByYearCorrect(s);
    JoinYears(HeatingByYear(s), CoolingByYear(s), y);
    SortByMembers(joined, RowYear);
    if y in RowYears(t) {
      var k :| 0 <= k < |t| && RowYears(t)[k] == y;
      assert t[k] in joined;
      var k' :| 0 <= k' < |joined| && joined[k'] == t[k];
      assert RowYears(joined)[k'] == y;
    }
    if y in RowYears(joined) {
      var k :| 0 <= k < |joined| && RowYears(joined)[k] == y;
      assert joined[k] in t;
      var k' :| 0 <= k' < |t| && t[k'] == joined[k];
      assert RowYears(t)[k'] == y;
    }
  }

  /** Each row of the combined table carries its year's heating-day and cooling-day counts. */
  lemma CombinedTableCounts(s: seq<Observation>)
    ensures forall i :: 0 <= i < |CombinedTable(s)| ==>
      CombinedTable(s)[i].heating == CountYear(HeatingDays(s), CombinedTable(s)[i].year) &&
      CombinedTable(s)[i].cooling == CountYear(CoolingDays(s), CombinedTable(s)[i].year)
  {
    var h, c := HeatingByYear(s), CoolingByYear(s);
    var joined := Join(h, c);
    var t := CombinedTable(s);
    HeatingByYearCorrect(s);
    CoolingByYearCorrect(s);
    SortByMembers(joined, RowYear);
    forall k | 0 <= k < |t|
      ensures t[k].heating == CountYear(HeatingDays(s), t[k].year)
      ensures t[k].cooling == CountYear(CoolingDays(s), t[k].year)
    {
      assert t[k] in joined;
      var i, j :| 0 <= i < |h| && 0 <= j < |c| && h[i].year == c[j].year
                  && t[k] == Pair(h[i], c[j]);
    }
  }

  /** A year all of whose days are below 18 C has no row in the combined table. */
  lemma AllHeatingYearAbsent(s: seq<Observation>, y: int)
    requires forall i :: 0 <= i < |s| && s[i].year == y ==> IsHeating(s[i])
    ensures y !in RowYears(CombinedTable(s))
  {
    CombinedTableYears(s, y);
  }
}
