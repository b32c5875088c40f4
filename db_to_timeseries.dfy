/**
  `get_timeseries_df`: the earlier revision of the mention query. Same two variants and the same
  kind selection as `get_mention_timeseries`, but a half-open window [start, end), no
  OFFSET, and the fetched rows turned into a series through `pd.Series(dict(data))`.
*/
module DbToTimeseries {
  import opened Common
  import opened QuerySemantics
  import opened Granularity
  import opened SeriesModel
  import Arith

  /** The structured form of the SQL text the function builds. */
  function TimeseriesQuery(subreddit: string, ticker: Option<string>, start: int, end: int, ups: int,
                           submissions: bool, comments: bool, g: Gran): (q: Query)
    ensures q.WellFormed() && q.width == Width(g) && q.offset == 0
  {
    var w := Width(g);
    if Truthy(ticker) then
      Query(subreddit + "_", Some(ups), ticker, KindFor(submissions, comments),
            Closed(start), Open(end), w, FillWindow, 0)
    else
      Query(subreddit, Some(ups), None, KindFor(submissions, comments),
            Closed(start), Open(end), w, FillBetween(start, end), 0)
  }

  /**
    A record is counted exactly when its ups exceed the threshold, its kind is selected, it lies
    in the half-open window [start, end), and, in the ticker variant only, its topic is the ticker.
  */
  lemma TimeseriesFilter(subreddit: string, ticker: Option<string>, start: int, end: int, ups: int,
                         submissions: bool, comments: bool, g: Gran, r: Record)
    ensures Matches(TimeseriesQuery(subreddit, ticker, start, end, ups, submissions, comments, g), r) <==>
      && r.ups > ups
      && (Truthy(ticker) ==> r.topic == ticker)
      && KindAdmits(KindFor(submissions, comments), r.isComment)
      && start <= r.created < end
  {
  }

  /**
    Both variants return exactly the buckets from the last one starting before `end` down to the
    one holding `start`, newest first, whatever the records; no bucket is dropped.
  */
  lemma TimeseriesBuckets(subreddit: string, ticker: Option<string>, start: int, end: int, ups: int,
                          submissions: bool, comments: bool, g: Gran, recs: seq<Record>)
    requires start < end
    ensures Keys(TimeseriesQuery(subreddit, ticker, start, end, ups, submissions, comments, g), recs)
      == Descending(Newest(end, g), Oldest(start, g))
  {
    var q := TimeseriesQuery(subreddit, ticker, start, end, ups, submissions, comments, g);
    assert q.lower == Closed(start) && q.upper == Open(end);
    assert q.fill == FillWindow || q.fill == FillBetween(start, end);
    HalfOpenKeys(q, recs, start, end);
  }

  /**
    A half-open window [start, end) gap-filled over its own range emits exactly the buckets from
    the one holding `start` to the one holding `end - 1`.
  */
  lemma HalfOpenKeys(q: Query, recs: seq<Record>, start: int, end: int)
    requires q.WellFormed() && q.lower == Closed(start) && q.upper == Open(end) && start < end
    requires q.fill == FillWindow || q.fill == FillBetween(start, end)
    ensures Keys(q, recs) == Descending((end - 1) / q.width, start / q.width)
  {
    var w := q.width;
    Arith.DivMono(start, end - 1, w);
    forall k ensures Emitted(q, recs, k) <==> start / w <= k <= (end - 1) / w {
      if Count(q, recs, k) > 0 {
        CountInWindow(q, recs, k);
      }
    }
    KeysExact(q, recs, start / w, (end - 1) / w);
  }

  /** The same window seen through the series: one entry per bucket, newest first, with its count. */
  lemma HalfOpenSeries(q: Query, recs: seq<Record>, start: int, end: int)
    requires q.WellFormed() && q.lower == Closed(start) && q.upper == Open(end) && start < end
    requires q.fill == FillWindow || q.fill == FillBetween(start, end)
    requires q.offset == 0
    ensures |ToSeries(Eval(q, recs)).index| == (end - 1) / q.width - start / q.width + 1
    ensures forall i :: 0 <= i < (end - 1) / q.width - start / q.width + 1 ==>
      ToSeries(Eval(q, recs)).index[i] == ((end - 1) / q.width - i) * q.width
      && ToSeries(Eval(q, recs)).values[i] == Count(q, recs, (end - 1) / q.width - i)
  {
    var hi, lo := (end - 1) / q.width, start / q.width;
    assert lo <= hi by { Arith.DivMono(start, end - 1, q.width); }
    assert Keys(q, recs) == Descending(hi, lo) by { HalfOpenKeys(q, recs, start, end); }
    SeriesOfExactKeys(q, recs, hi, lo);
  }

  /** An empty or reversed window returns no row at all. */
  lemma TimeseriesEmpty(subreddit: string, ticker: Option<string>, start: int, end: int, ups: int,
                        submissions: bool, comments: bool, g: Gran, recs: seq<Record>)
    requires end <= start
    ensures Eval(TimeseriesQuery(subreddit, ticker, start, end, ups, submissions, comments, g), recs) == []
  {
    var q := TimeseriesQuery(subreddit, ticker, start, end, ups, submissions, comments, g);
    forall k ensures !Emitted(q, recs, k) {
      CountEmptyWindow(q, recs, k);
    }
    KeysExact(q, recs, 1, 0);
  }

  /** The position of a bucket in the bucket column. */
  function IndexOf(d: seq<Row>, b: int): (i: nat)
    requires b in Buckets(d)
    ensures i < |d| && d[i].bucket == b
  {
    if d[0].bucket == b then 0
    else
      assert b in Buckets(d[1..]) by {
        var j :| 0 <= j < |d| && Buckets(d)[j] == b;
        assert Buckets(d[1..])[j - 1] == b;
      }
      1 + IndexOf(d[1..], b)
  }

  /** Python's `dict[key] = value` on an insertion-ordered dict held as rows with distinct buckets. */
  function Put(d: seq<Row>, r: Row): (d': seq<Row>)
    ensures r.bucket !in Buckets(d) ==> d' == d + [r]
    ensures r.bucket in Buckets(d) ==> d' == d[IndexOf(d, r.bucket) := r]
    ensures r.bucket in Buckets(d) ==> |d'| == |d| && r in d'
  {
    if r.bucket in Buckets(d) then
      var i := IndexOf(d, r.bucket);
      assert d[i := r][i] == r;
      d[i := r]
    else
      d + [r]
  }

  /** A put adds its key to the key set, and keeps the keys distinct. */
  lemma PutKeys(d: seq<Row>, r: Row)
    ensures forall b :: b in Buckets(Put(d, r)) <==> b in Buckets(d) || b == r.bucket
    ensures DistinctBuckets(d) ==> DistinctBuckets(Put(d, r))
  {
    var d' := Put(d, r);
    if r.bucket in Buckets(d) {
      var i := IndexOf(d, r.bucket);
      assert Buckets(d') == Buckets(d) by {
        forall j | 0 <= j < |d| ensures d'[j].bucket == d[j].bucket {
          if j == i {
          }
        }
      }
    } else {
      assert Buckets(d') == Buckets(d) + [r.bucket];
    }
  }

  predicate DistinctBuckets(rows: seq<Row>) {
    forall i, j :: 0 <= i < j < |rows| ==> rows[i].bucket != rows[j].bucket
  }

  /** `dict(data)`: later rows overwrite earlier ones with the same bucket, in first-seen order. */
  function DictOf(rows: seq<Row>): (d: seq<Row>)
    ensures |d| <= |rows|
  {
    if rows == [] then []
    else Put(DictOf(rows[..|rows| - 1]), rows[|rows| - 1])
  }

  /** `dict(data)` has distinct keys, and exactly the fetched buckets. */
  lemma {:induction false} DictOfKeys(rows: seq<Row>)
    ensures DistinctBuckets(DictOf(rows))
    ensures forall b :: b in Buckets(DictOf(rows)) <==> b in Buckets(rows)
  {
    if rows != [] {
      var prefix, last := rows[..|rows| - 1], rows[|rows| - 1];
      DictOfKeys(prefix);
      PutKeys(DictOf(prefix), last);
      assert Buckets(rows) == Buckets(prefix) + [last.bucket];
    }
  }

  /** When the fetched buckets are distinct, as GROUP BY makes them, `dict` keeps every row in order. */
  lemma {:induction false} DictOfDistinct(rows: seq<Row>)
    requires DistinctBuckets(rows)
    ensures DictOf(rows) == rows
  {
    if rows != [] {
      var prefix, last := rows[..|rows| - 1], rows[|rows| - 1];
      assert DistinctBuckets(prefix);
      DictOfDistinct(prefix);
      LastBucketFresh(rows);
      assert rows == prefix + [last];
    }
  }

  /** With distinct buckets, the last row's bucket is not among the earlier ones. */
  lemma LastBucketFresh(rows: seq<Row>)
    requires rows != [] && DistinctBuckets(rows)
    ensures rows[|rows| - 1].bucket !in Buckets(rows[..|rows| - 1])
  {
    var prefix := rows[..|rows| - 1];
    forall i | 0 <= i < |prefix| ensures Buckets(prefix)[i] != rows[|rows| - 1].bucket {
      assert prefix[i] == rows[i];
    }
  }

  /** The rows turned into a series: `pd.Series(dict(data))`, string keys, `fillna(0).astype(int)`. */
  function ToSeries(rows: seq<Row>): (s: Series)
    ensures s.WellFormed() && |s.index| <= |rows|
    ensures forall i :: 0 <= i < |s.values| ==> s.values[i] >= 0
  {
    FillNulls(DictOf(rows))
  }

  /** The series has one entry per distinct fetched bucket: no bucket twice, every fetched bucket present. */
  lemma ToSeriesKeys(rows: seq<Row>)
    ensures forall i, j :: 0 <= i < j < |ToSeries(rows).index| ==> ToSeries(rows).index[i] != ToSeries(rows).index[j]
    ensures forall b :: b in ToSeries(rows).index <==> b in Buckets(rows)
  {
    var d := DictOf(rows);
    DictOfKeys(rows);
    assert ToSeries(rows).index == Buckets(d);
  }

  /** `get_timeseries_df` over the content `recs` of the table the query names. */
  function Timeseries(subreddit: string, ticker: Option<string>, start: int, end: int, ups: int,
                      submissions: bool, comments: bool, g: Gran, recs: seq<Record>): (s: Series)
    ensures s.WellFormed() && |s.index| <= |Eval(TimeseriesQuery(subreddit, ticker, start, end, ups, submissions, comments, g), recs)|
    ensures forall i :: 0 <= i < |s.values| ==> s.values[i] >= 0
  {
    ToSeries(Eval(TimeseriesQuery(subreddit, ticker, start, end, ups, submissions, comments, g), recs))
  }

  /**
    The series has one entry per distinct bucket of the window, newest first, keyed by the bucket
    start; its value is the number of counted records in the bucket, 0 where there are none.
  */
  lemma TimeseriesEntries(subreddit: string, ticker: Option<string>, start: int, end: int, ups: int,
                          submissions: bool, comments: bool, g: Gran, recs: seq<Record>)
    requires start < end
    ensures |Timeseries(subreddit, ticker, start, end, ups, submissions, comments, g, recs).index|
            == Newest(end, g) - Oldest(start, g) + 1
    ensures forall i :: 0 <= i < Newest(end, g) - Oldest(start, g) + 1 ==>
      Timeseries(subreddit, ticker, start, end, ups, submissions, comments, g, recs).index[i]
        == (Newest(end, g) - i) * Width(g)
      && Timeseries(subreddit, ticker, start, end, ups, submissions, comments, g, recs).values[i]
        == Count(TimeseriesQuery(subreddit, ticker, start, end, ups, submissions, comments, g), recs, Newest(end, g) - i)
  {
    var q := TimeseriesQuery(subreddit, ticker, start, end, ups, submissions, comments, g);
    assert q.lower == Closed(start) && q.upper == Open(end);
    assert q.fill == FillWindow || q.fill == FillBetween(start, end);
    HalfOpenSeries(q, recs, start, end);
  }

  /** Index of the newest bucket of the window ending (exclusively) at `end`. */
  function Newest(end: int, g: Gran): int
  {
    (end - 1) / Width(g)
  }

  /** Index of the oldest bucket of the window starting at `start`. */
  function Oldest(start: int, g: Gran): int
  {
    start / Width(g)
  }

  /** Over keys hi, ..., lo without OFFSET, the series holds every bucket of that range with its count. */
  lemma SeriesOfExactKeys(q: Query, recs: seq<Record>, hi: int, lo: int)
    requires q.WellFormed() && q.offset == 0 && lo <= hi
    requires Keys(q, recs) == Descending(hi, lo)
    ensures |ToSeries(Eval(q, recs)).index| == hi - lo + 1
    ensures forall i :: 0 <= i < hi - lo + 1 ==>
      ToSeries(Eval(q, recs)).index[i] == (hi - i) * q.width
      && ToSeries(Eval(q, recs)).values[i] == Count(q, recs, hi - i)
  {
    var rows, w := Eval(q, recs), q.width;
    assert ToSeries(rows) == FillNulls(rows) by {
      EvalNewestFirst(q, recs);
      ToSeriesDistinct(rows);
    }
    assert |rows| == hi - lo + 1 && forall i :: 0 <= i < hi - lo + 1 ==>
      rows[i] == Row((hi - i) * w, CountOrNull(q, recs, hi - i))
    by {
      EvalExact(q, recs, hi, lo);
    }
  }

  /** On rows with distinct buckets the series has one entry per row, in row order. */
  lemma ToSeriesDistinct(rows: seq<Row>)
    requires DistinctBuckets(rows)
    ensures ToSeries(rows) == FillNulls(rows)
  {
    DictOfDistinct(rows);
  }
}
