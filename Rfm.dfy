/**
  The filter engine of the dashboard: the per-customer RFM table, the segment
  catalogue and score bounds the sidebar offers, the filter itself and the
  50-row preview of its result.
 */
module Rfm {
  import opened Wrappers
  import Lex

  /** One row of the RFM table; a missing segment label is `None`. */
  datatype Customer = Customer(
    customerId: string,
    segment: Option<string>,
    score: int,
    recency: real,
    frequency: real,
    monetary: real)

  /** A closed interval of RFM scores, as `between(lo, hi)` reads it. */
  datatype ScoreRange = ScoreRange(lo: int, hi: int)

  /** What the sidebar widgets hand to the filter. */
  datatype Criteria = Criteria(selected: seq<string>, range: ScoreRange)

  /** The number of rows the table preview shows. */
  const PreviewLimit: nat := 50

  /** Some row of the table carries segment label `s`. */
  ghost predicate Labelled(rows: seq<Customer>, s: string) {
    exists i :: 0 <= i < |rows| && rows[i].segment == Some(s)
  }

  // ---------------------------------------------------------------------
  // Segment catalogue: sorted(rfm["segment"].dropna().unique())
  // ---------------------------------------------------------------------

  /** Adds `x` to a sorted, duplicate-free list, keeping it so. */
  function Insert(s: seq<string>, x: string): (r: seq<string>)
    requires Lex.StrictlyIncreasing(s)
    ensures Lex.StrictlyIncreasing(r)
    ensures forall y :: y in r <==> y in s || y == x
  {
    if s == [] then [x]
    else if x == s[0] then s
    else if Lex.Less(x, s[0]) then
      LessThanAll(x, s);
      [x] + s
    else
      Lex.LessTotal(x, s[0]);
      var t := Insert(s[1..], x);
      assert forall y :: y in t ==> Lex.Less(s[0], y);
      [s[0]] + t
  }

  lemma LessThanAll(x: string, s: seq<string>)
    requires Lex.StrictlyIncreasing(s) && s != [] && Lex.Less(x, s[0])
    ensures forall j :: 0 <= j < |s| ==> Lex.Less(x, s[j])
  {
    forall j | 0 < j < |s|
      ensures Lex.Less(x, s[j])
    {
      Lex.LessTransitive(x, s[0], s[j]);
    }
  }

  /**
    The segment catalogue: the non-missing labels of the table, each once,
    in ascending code-point order.
   */
  function Catalogue(rows: seq<Customer>): (r: seq<string>)
    ensures Lex.StrictlyIncreasing(r)
    ensures forall s :: s in r <==> Labelled(rows, s)
  {
    if rows == [] then []
    else
      var init := rows[..|rows| - 1];
      var last := rows[|rows| - 1];
      var c := Catalogue(init);
      assert forall i :: 0 <= i < |init| ==> init[i] == rows[i];
      match last.segment
      case None => c
      case Some(s) => Insert(c, s)
  }

  /**
    Any sorted, duplicate-free list of exactly the table's labels is the
    catalogue: `sorted(unique(...))` is determined by the set of labels.
   */
  lemma CatalogueIsTheSortedLabels(rows: seq<Customer>, s: seq<string>)
    requires Lex.StrictlyIncreasing(s)
    requires forall x :: x in s <==> Labelled(rows, x)
    ensures s == Catalogue(rows)
  {
    Lex.SortedIsUnique(s, Catalogue(rows));
  }

  // ---------------------------------------------------------------------
  // Score bounds: int(rfm["RFM_score"].min()), int(rfm["RFM_score"].max())
  // ---------------------------------------------------------------------

  /**
    The least and greatest score of the whole table. On an empty table the
    source's `int(NaN)` raises, which is `None` here.
   */
  function ScoreBounds(rows: seq<Customer>): (r: Option<ScoreRange>)
    ensures r.None? <==> rows == []
    ensures r.Some? ==> r.value.lo <= r.value.hi
    ensures r.Some? ==> forall i :: 0 <= i < |rows| ==> r.value.lo <= rows[i].score <= r.value.hi
    ensures r.Some? ==> exists i :: 0 <= i < |rows| && rows[i].score == r.value.lo
    ensures r.Some? ==> exists i :: 0 <= i < |rows| && rows[i].score == r.value.hi
  {
    if rows == [] then None
    else
      var n := |rows| - 1;
      var x := rows[n].score;
      if n == 0 then Some(ScoreRange(x, x))
      else
        var init := rows[..n];
        assert forall i :: 0 <= i < n ==> init[i] == rows[i];
        var b := ScoreBounds(init).value;
        Some(ScoreRange(if x < b.lo then x else b.lo, if x > b.hi then x else b.hi))
  }

  // ---------------------------------------------------------------------
  // Filter: rfm[segment.isin(selected) & RFM_score.between(lo, hi)]
  // ---------------------------------------------------------------------

  /**
    The row test of the filter. A missing label never matches (`isin` is
    false for NaN); both ends of the score interval are included.
   */
  predicate Passes(x: Customer, c: Criteria) {
    && x.segment.Some?
    && x.segment.value in c.selected
    && c.range.lo <= x.score <= c.range.hi
  }

  /** The filtered table, in the table's own row order. */
  function Filter(rows: seq<Customer>, c: Criteria): (r: seq<Customer>)
    ensures |r| <= |rows|
    ensures forall x :: x in r <==> x in rows && Passes(x, c)
  {
    if rows == [] then []
    else
      var init := rows[..|rows| - 1];
      var last := rows[|rows| - 1];
      assert rows == init + [last];
      Filter(init, c) + if Passes(last, c) then [last] else []
  }

  /** The positions of the rows that pass, in increasing order. */
  function PassingIndices(rows: seq<Customer>, c: Criteria): (idx: seq<nat>)
    ensures forall k :: 0 <= k < |idx| ==> idx[k] < |rows|
    ensures forall k, l :: 0 <= k < l < |idx| ==> idx[k] < idx[l]
    ensures forall i :: 0 <= i < |rows| ==> (i in idx <==> Passes(rows[i], c))
  {
    if rows == [] then []
    else
      var n := |rows| - 1;
      PassingIndices(rows[..n], c) + if Passes(rows[n], c) then [n] else []
  }

  /**
    The filtered table is the subsequence of the table picked out by the
    passing positions: order is kept and every passing row is there.
   */
  lemma {:induction false} FilterIsSubsequence(rows: seq<Customer>, c: Criteria)
    ensures |Filter(rows, c)| == |PassingIndices(rows, c)|
    ensures forall k :: 0 <= k < |Filter(rows, c)| ==>
              Filter(rows, c)[k] == rows[PassingIndices(rows, c)[k]]
  {
    if rows != [] {
      var n := |rows| - 1;
      var init := rows[..n];
      FilterIsSubsequence(init, c);
      SubsequenceStep(rows, Filter(init, c), PassingIndices(init, c), Filter(rows, c), PassingIndices(rows, c), Passes(rows[n], c));
    }
  }

  /** One more row extends the filtered table and the positions alike. */
  lemma SubsequenceStep(rows: seq<Customer>, f: seq<Customer>, idx: seq<nat>,
                        f': seq<Customer>, idx': seq<nat>, keep: bool)
    requires rows != []
    requires |f| == |idx| && forall k :: 0 <= k < |f| ==> idx[k] < |rows| - 1 && f[k] == rows[idx[k]]
    requires f' == f + if keep then [rows[|rows| - 1]] else []
    requires idx' == idx + if keep then [|rows| - 1] else []
    ensures |f'| == |idx'| && forall k :: 0 <= k < |f'| ==> f'[k] == rows[idx'[k]]
  {
  }

  /** No selected segment or an empty interval leaves nothing. */
  lemma NothingSelected(rows: seq<Customer>, c: Criteria)
    requires c.selected == [] || c.range.lo > c.range.hi
    ensures Filter(rows, c) == []
  {
    if Filter(rows, c) != [] {
      assert Filter(rows, c)[0] in Filter(rows, c);
    }
  }

  /** When every row passes, the filter returns the table unchanged. */
  lemma {:induction false} FilterKeepsAll(rows: seq<Customer>, c: Criteria)
    requires forall i :: 0 <= i < |rows| ==> Passes(rows[i], c)
    ensures Filter(rows, c) == rows
  {
    if rows != [] {
      var n := |rows| - 1;
      FilterKeepsAll(rows[..n], c);
      assert rows == rows[..n] + [rows[n]];
    }
  }

  /**
    The sidebar's defaults: all catalogue segments and the full score range
    of the table. An empty table has no score range, so no defaults.
   */
  function DefaultCriteria(rows: seq<Customer>): (r: Option<Criteria>)
    ensures r.None? <==> rows == []
    ensures r.Some? ==> r.value.selected == Catalogue(rows)
    ensures r.Some? ==> r.value.range == ScoreBounds(rows).value
  {
    match ScoreBounds(rows)
    case None => None
    case Some(b) => Some(Criteria(Catalogue(rows), b))
  }

  /**
    Under the defaults every row with a label passes; when every row has a
    label the filtered table is the whole table.
   */
  lemma DefaultsKeepLabelledRows(rows: seq<Customer>)
    requires rows != []
    ensures forall i :: 0 <= i < |rows| && rows[i].segment.Some? ==>
              Passes(rows[i], DefaultCriteria(rows).value)
    ensures (forall i :: 0 <= i < |rows| ==> rows[i].segment.Some?) ==>
              Filter(rows, DefaultCriteria(rows).value) == rows
  {
    var c := DefaultCriteria(rows).value;
    forall i | 0 <= i < |rows| && rows[i].segment.Some?
      ensures Passes(rows[i], c)
    {
      assert Labelled(rows, rows[i].segment.value);
    }
    if forall i :: 0 <= i < |rows| ==> rows[i].segment.Some? {
      FilterKeepsAll(rows, c);
    }
  }

  /** Every label in a filtered table is a catalogue segment. */
  lemma FilteredLabelsInCatalogue(rows: seq<Customer>, c: Criteria)
    ensures forall x :: x in Filter(rows, c) ==>
              x.segment.Some? && x.segment.value in Catalogue(rows)
  {
    forall x | x in Filter(rows, c)
      ensures x.segment.Some? && x.segment.value in Catalogue(rows)
    {
      var i :| 0 <= i < |rows| && rows[i] == x;
      assert Labelled(rows, x.segment.value);
    }
  }

  // ---------------------------------------------------------------------
  // Preview: filtered_rfm.head(50)
  // ---------------------------------------------------------------------

  /** The first `PreviewLimit` rows of a table, or all of them when fewer. */
  function Preview(rows: seq<Customer>): (r: seq<Customer>)
    ensures |r| == if |rows| < PreviewLimit then |rows| else PreviewLimit
    ensures forall k :: 0 <= k < |r| ==> r[k] == rows[k]
  {
    if |rows| < PreviewLimit then rows else rows[..PreviewLimit]
  }

  /**
    The preview of the filtered table lists the first passing rows of the
    table in table order, and each of them passes the filter.
   */
  lemma PreviewOfFiltered(rows: seq<Customer>, c: Criteria)
    ensures var p := Preview(Filter(rows, c));
            var idx := PassingIndices(rows, c);
            && |p| <= |idx|
            && (forall k :: 0 <= k < |p| ==> p[k] == rows[idx[k]] && Passes(p[k], c))
  {
    FilterIsSubsequence(rows, c);
    var f := Filter(rows, c);
    forall k | 0 <= k < |Preview(f)|
      ensures Passes(Preview(f)[k], c)
    {
      assert f[k] in f;
    }
  }
}
