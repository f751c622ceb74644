/**
  The cohort reshaper of the dashboard: the retention table as read from its
  file becomes a matrix indexed by cohort label and period, with every cell
  either a number or the missing marker.
 */
module Cohort {
  import opened Wrappers

  /**
    The retention table as read: a header and rectangular rows of cells. A
    cell is its text, or `None` where the reader found no value (NaN).
   */
  datatype Frame = Frame(header: seq<string>, rows: seq<seq<Option<string>>>)

  ghost predicate Rectangular(f: Frame) {
    forall i :: 0 <= i < |f.rows| ==> |f.rows[i]| == |f.header|
  }

  /** A column of the working copy: still as read, or already converted. */
  datatype Column = Raw(cells: seq<Option<string>>) | Numeric(values: seq<Option<real>>)

  /**
    The heatmap input: one row label per cohort, the period labels, and one
    row of cells per cohort; `None` is a missing cell, never a zero.
   */
  datatype Matrix = Matrix(cohorts: seq<string>, periods: seq<string>, values: seq<seq<Option<real>>>)

  /** `columns[0]` of a frame without columns raises. */
  datatype ReshapeError = NoColumns

  /** Column `j` of the frame, top to bottom. */
  function ColumnOf(f: Frame, j: nat): seq<Option<string>>
    requires Rectangular(f) && j < |f.header|
  {
    seq(|f.rows|, i requires 0 <= i < |f.rows| => f.rows[i][j])
  }

  /** `astype(str)` of a label cell: its text, and "nan" for a missing one. */
  function LabelText(cell: Option<string>): string {
    match cell
    case None => "nan"
    case Some(t) => t
  }

  /**
    `pd.to_numeric(column, errors="coerce")` with the number grammar left
    abstract as `parse`: a missing cell stays missing, and every other cell
    is parsed on its own, becoming missing when it does not parse.
   */
  function Coerce(cells: seq<Option<string>>, parse: string -> Option<real>): (v: seq<Option<real>>)
    ensures |v| == |cells|
    ensures forall i :: 0 <= i < |v| && cells[i].None? ==> v[i].None?
    ensures forall i :: 0 <= i < |v| && v[i].Some? ==>
              cells[i].Some? && parse(cells[i].value) == v[i]
    ensures forall i :: 0 <= i < |v| && cells[i].Some? && parse(cells[i].value).Some? ==> v[i].Some?
  {
    seq(|cells|, i requires 0 <= i < |cells| =>
      match cells[i]
      case None => None
      case Some(t) => parse(t))
  }

  /**
    Copies the frame, takes its first column as the cohort labels and
    converts the remaining columns one by one, in place, each to numbers or
    missing markers.
   */
  method Reshape(f: Frame, parse: string -> Option<real>) returns (res: Result<Matrix, ReshapeError>)
    requires Rectangular(f)
    ensures res.Failure? <==> |f.header| == 0
    ensures res.Success? ==>
              var m := res.value;
              && |m.cohorts| == |f.rows|
              && (forall i :: 0 <= i < |f.rows| ==> m.cohorts[i] == LabelText(f.rows[i][0]))
              && m.periods == f.header[1..]
              && |m.values| == |f.rows|
              && forall i :: 0 <= i < |f.rows| ==>
                   && |m.values[i]| == |m.periods|
                   && forall j :: 0 <= j < |m.periods| ==>
                        && (f.rows[i][j + 1].None? ==> m.values[i][j].None?)
                        && (f.rows[i][j + 1].Some? ==> m.values[i][j] == parse(f.rows[i][j + 1].value))
  {
    if |f.header| == 0 {
      return Failure(NoColumns);
    }
    var n := |f.rows|;
    var width := |f.header| - 1;
    var first := ColumnOf(f, 0);
    var labels := seq(n, i requires 0 <= i < n => LabelText(first[i]));
    var columns := new Column[width](k requires 0 <= k < width => Raw(ColumnOf(f, k + 1)));
    var j := 0;
    while j < width
      invariant 0 <= j <= width
      invariant forall k :: 0 <= k < j ==> columns[k] == Numeric(Coerce(ColumnOf(f, k + 1), parse))
      invariant forall k :: j <= k < width ==> columns[k] == Raw(ColumnOf(f, k + 1))
    {
      columns[j] := Numeric(Coerce(columns[j].cells, parse));
      j := j + 1;
    }
    var cs := columns[..];
    var values := seq(n, i requires 0 <= i < n =>
                    seq(width, k requires 0 <= k < width => cs[k].values[i]));
    return Success(Matrix(labels, f.header[1..], values));
  }
}
