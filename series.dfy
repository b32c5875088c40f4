/** The pandas series the database helpers return: a time index and integer volumes. */
module SeriesModel {
  import opened Common
  import opened QuerySemantics

  /** `index` holds bucket start instants, `values` the volumes, position by position. */
  datatype Series = Series(index: seq<int>, values: seq<int>) {
    predicate WellFormed() { |index| == |values| }
  }

  /** `fillna(0).astype(int)` on a series built from fetched rows, one entry per row in row order. */
  function FillNulls(rows: seq<Row>): (s: Series)
    ensures s.WellFormed() && |s.index| == |rows|
    ensures forall i :: 0 <= i < |rows| ==> s.index[i] == rows[i].bucket
    ensures forall i :: 0 <= i < |rows| ==> s.values[i] >= 0
    ensures forall i :: 0 <= i < |rows| ==> rows[i].count.None? ==> s.values[i] == 0
    ensures forall i :: 0 <= i < |rows| ==> rows[i].count.Some? ==> s.values[i] == rows[i].count.value
  {
    Series(
      seq(|rows|, i requires 0 <= i < |rows| => rows[i].bucket),
      seq(|rows|, i requires 0 <= i < |rows| => rows[i].count.GetOr(0)))
  }
}
