/**
  The aggregator of the dashboard: the four KPIs over the filtered table and
  the zero-filled count of customers per catalogue segment.
 */
module Kpi {
  import opened Wrappers
  import Lex
  import opened Rfm

  // ---------------------------------------------------------------------
  // KPIs
  // ---------------------------------------------------------------------

  /** The customer ids that occur in the table. */
  function IdSet(rows: seq<Customer>): (ids: set<string>)
    ensures forall id :: id in ids <==> exists i :: 0 <= i < |rows| && rows[i].customerId == id
    ensures |ids| <= |rows|
  {
    if rows == [] then {}
    else
      var init := rows[..|rows| - 1];
      assert forall i :: 0 <= i < |init| ==> init[i] == rows[i];
      IdSet(init) + {rows[|rows| - 1].customerId}
  }

  /** `nunique()` of the id column: the number of distinct customer ids. */
  function TotalCustomers(rows: seq<Customer>): (n: nat)
    ensures n == |set i | 0 <= i < |rows| :: rows[i].customerId|
    ensures n <= |rows|
    ensures n == 0 <==> rows == []
  {
    assert rows != [] ==> rows[0].customerId in IdSet(rows);
    assert IdSet(rows) == set i | 0 <= i < |rows| :: rows[i].customerId;
    |IdSet(rows)|
  }

  /** With one row per customer, the KPI counts every row. */
  lemma {:induction false} DistinctIdsCountEveryRow(rows: seq<Customer>)
    requires forall i, j :: 0 <= i < j < |rows| ==> rows[i].customerId != rows[j].customerId
    ensures TotalCustomers(rows) == |rows|
  {
    if rows != [] {
      var n := |rows| - 1;
      var init := rows[..n];
      DistinctIdsCountEveryRow(init);
      assert rows[n].customerId !in IdSet(init);
    }
  }

  function Recency(x: Customer): real { x.recency }
  function Frequency(x: Customer): real { x.frequency }
  function Monetary(x: Customer): real { x.monetary }

  /** `sum()` of one numeric column. */
  function SumOf(rows: seq<Customer>, f: Customer -> real): real {
    if rows == [] then 0.0 else SumOf(rows[..|rows| - 1], f) + f(rows[|rows| - 1])
  }

  /** Column values within `[lo, hi]` give a sum within `|rows|` times those bounds. */
  lemma {:induction false} SumWithin(rows: seq<Customer>, f: Customer -> real, lo: real, hi: real)
    requires forall i :: 0 <= i < |rows| ==> lo <= f(rows[i]) <= hi
    ensures (|rows| as real) * lo <= SumOf(rows, f) <= (|rows| as real) * hi
  {
    if rows != [] {
      var n := |rows| - 1;
      var init := rows[..n];
      assert forall i :: 0 <= i < n ==> init[i] == rows[i];
      SumWithin(init, f, lo, hi);
    }
  }

  /** `m` is undefined exactly on an empty table and otherwise times the row count gives the column sum. */
  ghost predicate IsMeanOf(m: Option<real>, rows: seq<Customer>, f: Customer -> real) {
    && (m.None? <==> rows == [])
    && (m.Some? ==> m.value * (|rows| as real) == SumOf(rows, f))
  }

  /**
    `mean()` of one column: its sum over its count, and undefined (`None`)
    on an empty table.
   */
  function Mean(rows: seq<Customer>, f: Customer -> real): (m: Option<real>)
    ensures IsMeanOf(m, rows, f)
  {
    if rows == [] then None else Some(SumOf(rows, f) / (|rows| as real))
  }

  /** A mean lies between the least and greatest value it averages. */
  lemma MeanWithin(rows: seq<Customer>, f: Customer -> real, lo: real, hi: real)
    requires rows != []
    requires forall i :: 0 <= i < |rows| ==> lo <= f(rows[i]) <= hi
    ensures lo <= Mean(rows, f).value <= hi
  {
    SumWithin(rows, f, lo, hi);
    var n := |rows| as real;
    var total := SumOf(rows, f);
    var m := Mean(rows, f).value;
    assert m == total / n;
    assert n * lo <= total && total <= n * hi;
    DivideWithin(total, n, lo, hi);
  }

  lemma DivideWithin(total: real, n: real, lo: real, hi: real)
    requires n > 0.0 && n * lo <= total <= n * hi
    ensures lo <= total / n <= hi
  {
    assert total / n * n == total;
  }

  /** The four KPI values the dashboard shows. */
  datatype Summary = Summary(
    totalCustomers: nat,
    avgRecency: Option<real>,
    avgFrequency: Option<real>,
    totalMonetary: real)

  function Summarize(rows: seq<Customer>): (k: Summary)
    ensures k.totalCustomers == TotalCustomers(rows) && k.totalCustomers <= |rows|
    ensures k.totalMonetary == SumOf(rows, Monetary)
    ensures rows == [] ==> k == Summary(0, None, None, 0.0)
    ensures rows != [] ==> 1 <= k.totalCustomers
    ensures IsMeanOf(k.avgRecency, rows, Recency) && IsMeanOf(k.avgFrequency, rows, Frequency)
  {
    var recency := Mean(rows, Recency);
    var frequency := Mean(rows, Frequency);
    Summary(TotalCustomers(rows), recency, frequency, SumOf(rows, Monetary))
  }

  // ---------------------------------------------------------------------
  // Segment distribution: value_counts().reindex(segments, fill_value=0)
  // ---------------------------------------------------------------------

  /** The segment column, missing labels included. */
  function Labels(rows: seq<Customer>): (l: seq<Option<string>>)
    ensures |l| == |rows|
  {
    seq(|rows|, i requires 0 <= i < |rows| => rows[i].segment)
  }

  /**
    The number of rows labelled `s`, that is the multiplicity of `s` in the
    segment column; zero exactly when no row carries it.
   */
  function CountSegment(rows: seq<Customer>, s: string): (n: nat)
    ensures n == multiset(Labels(rows))[Some(s)]
    ensures n <= |rows|
    ensures n == 0 <==> forall i :: 0 <= i < |rows| ==> rows[i].segment != Some(s)
  {
    if rows == [] then 0
    else
      var init := rows[..|rows| - 1];
      assert forall i :: 0 <= i < |init| ==> init[i] == rows[i];
      assert Labels(rows) == Labels(init) + [rows[|rows| - 1].segment];
      CountSegment(init, s) + if rows[|rows| - 1].segment == Some(s) then 1 else 0
  }

  datatype SegmentCount = SegmentCount(segment: string, count: nat)

  /** One entry per listed segment, in the listed order, zero when absent. */
  function Distribution(rows: seq<Customer>, segments: seq<string>): (d: seq<SegmentCount>)
    ensures |d| == |segments|
    ensures forall k :: 0 <= k < |d| ==>
              d[k].segment == segments[k] && d[k].count == CountSegment(rows, segments[k])
  {
    if segments == [] then []
    else [SegmentCount(segments[0], CountSegment(rows, segments[0]))] + Distribution(rows, segments[1..])
  }

  function TotalCount(d: seq<SegmentCount>): nat {
    if d == [] then 0 else d[0].count + TotalCount(d[1..])
  }

  /** Adding one row adds one to the total exactly when its label is listed. */
  lemma {:induction false} TotalCountStep(init: seq<Customer>, x: Customer, segments: seq<string>)
    requires forall i, j :: 0 <= i < j < |segments| ==> segments[i] != segments[j]
    ensures TotalCount(Distribution(init + [x], segments)) ==
            TotalCount(Distribution(init, segments)) +
            if x.segment.Some? && x.segment.value in segments then 1 else 0
  {
    if segments != [] {
      var rest := segments[1..];
      TotalCountStep(init, x, rest);
      var rows := init + [x];
      assert rows[..|rows| - 1] == init;
      assert Distribution(rows, segments)[1..] == Distribution(rows, rest);
      assert Distribution(init, segments)[1..] == Distribution(init, rest);
      if x.segment == Some(segments[0]) {
        assert segments[0] !in rest;
      }
      assert x.segment.Some? && x.segment.value in segments <==>
               x.segment == Some(segments[0]) || (x.segment.Some? && x.segment.value in rest);
    }
  }

  /**
    When every row's label is one of a duplicate-free list of segments, the
    distribution over that list counts every row exactly once.
   */
  lemma {:induction false} DistributionCoversRows(rows: seq<Customer>, segments: seq<string>)
    requires forall i, j :: 0 <= i < j < |segments| ==> segments[i] != segments[j]
    requires forall i :: 0 <= i < |rows| ==>
               rows[i].segment.Some? && rows[i].segment.value in segments
    ensures TotalCount(Distribution(rows, segments)) == |rows|
  {
    if rows == [] {
      ZeroCounts(segments);
    } else {
      var n := |rows| - 1;
      var init := rows[..n];
      assert rows == init + [rows[n]];
      DistributionCoversRows(init, segments);
      TotalCountStep(init, rows[n], segments);
    }
  }

  /** The distribution of an empty table is all zeros. */
  lemma {:induction false} ZeroCounts(segments: seq<string>)
    ensures TotalCount(Distribution([], segments)) == 0
  {
    if segments != [] {
      ZeroCounts(segments[1..]);
    }
  }

  /**
    The bar chart of the dashboard: reindexing the filtered table's counts by
    the catalogue gives one bar per catalogue segment, in catalogue order,
    and the bars add up to the number of filtered rows, whatever the criteria.
   */
  lemma FilteredDistribution(rows: seq<Customer>, c: Criteria)
    ensures var d := Distribution(Filter(rows, c), Catalogue(rows));
            && |d| == |Catalogue(rows)|
            && TotalCount(d) == |Filter(rows, c)|
  {
    var f := Filter(rows, c);
    var segments := Catalogue(rows);
    Lex.StrictlyIncreasingIsDistinct(segments);
    FilteredLabelsInCatalogue(rows, c);
    assert forall i :: 0 <= i < |f| ==> f[i] in f;
    DistributionCoversRows(f, segments);
  }

  /**
    A worked example: of a "Champion" row with score 10 and a "Lost" row with
    score 2, selecting "Champion" with scores 5 to 15 keeps the first row only,
    and the KPIs are those of that row.
   */
  lemma ChampionExample()
    ensures var a := Customer("a", Some("Champion"), 10, 5.0, 3.0, 100.0);
            var b := Customer("b", Some("Lost"), 2, 90.0, 1.0, 10.0);
            var f := Filter([a, b], Criteria(["Champion"], ScoreRange(5, 15)));
            && f == [a]
            && Summarize(f) == Summary(1, Some(5.0), Some(3.0), 100.0)
  {
    var a := Customer("a", Some("Champion"), 10, 5.0, 3.0, 100.0);
    var b := Customer("b", Some("Lost"), 2, 90.0, 1.0, 10.0);
    var c := Criteria(["Champion"], ScoreRange(5, 15));
    assert [a, b][..1] == [a];
    assert [a][..0] == [];
    assert Filter([a, b], c) == [a];
    assert IdSet([a]) == {"a"};
    assert TotalCustomers([a]) == 1;
    assert SumOf([a], Recency) == 5.0;
    assert SumOf([a], Frequency) == 3.0;
    assert SumOf([a], Monetary) == 100.0;
  }

  /** With no segment selected the KPIs are the empty-table ones. */
  lemma NothingSelectedSummary(rows: seq<Customer>, range: ScoreRange)
    ensures Summarize(Filter(rows, Criteria([], range))) == Summary(0, None, None, 0.0)
  {
    NothingSelected(rows, Criteria([], range));
  }
}
