/**
  `get_mention_timeseries`: the two query variants (one topic, or all records of the
  subreddit) and the normalisation of the fetched rows into a series.

  The ticker variant reads the per-topic mentions table `<subreddit>_`; the other reads the
  subreddit's own table, where a record with a NULL `num_comments` is a comment. Both tables are
  given here as a sequence of `Record`s: `recs` is the content of the table the query names.
*/
module DbInteractions {
  import opened Common
  import opened QuerySemantics
  import opened Granularity
  import opened SeriesModel
  import Arith

  /** The structured form of the SQL text the function builds. */
  function MentionQuery(subreddit: string, ticker: Option<string>, start: int, end: int, ups: int,
                        submissions: bool, comments: bool, g: Gran): (q: Query)
    ensures q.WellFormed() && q.width == Width(g)
  {
    var w := Width(g);
    if Truthy(ticker) then
      Query(subreddit + "_", Some(ups), ticker, KindFor(submissions, comments),
            Closed(start), Closed(end + w), w, FillWindow, 1)
    else
      Query(subreddit, Some(ups), None, KindFor(submissions, comments),
            Closed(start), Closed(end + w), w, FillBetween(start, end), 0)
  }

  /**
    A record is counted exactly when its ups exceed the threshold, its kind is selected, it lies
    in [start, end + one bucket], and, in the ticker variant only, its topic is the ticker.
  */
  lemma MentionFilter(subreddit: string, ticker: Option<string>, start: int, end: int, ups: int,
                      submissions: bool, comments: bool, g: Gran, r: Record)
    ensures Matches(MentionQuery(subreddit, ticker, start, end, ups, submissions, comments, g), r) <==>
      && r.ups > ups
      && (Truthy(ticker) ==> r.topic == ticker)
      && KindAdmits(KindFor(submissions, comments), r.isComment)
      && start <= r.created <= end + Width(g)
  {
  }

  /**
    The ticker variant returns exactly the buckets from the one holding `end` down to the one
    holding `start`: the gap fill reaches one bucket past `end`, and OFFSET 1 drops that one.
    This holds whenever start's bucket is not after end's, so also for an end before start
    within one bucket.
  */
  lemma TickerBuckets(subreddit: string, ticker: Option<string>, start: int, end: int, ups: int,
                      submissions: bool, comments: bool, g: Gran, recs: seq<Record>)
    requires Truthy(ticker) && start / Width(g) <= end / Width(g)
    ensures |Eval(MentionQuery(subreddit, ticker, start, end, ups, submissions, comments, g), recs)|
      == end / Width(g) - start / Width(g) + 1
    ensures forall i :: 0 <= i < end / Width(g) - start / Width(g) + 1 ==>
      Eval(MentionQuery(subreddit, ticker, start, end, ups, submissions, comments, g), recs)[i]
        == Row((end / Width(g) - i) * Width(g),
               CountOrNull(MentionQuery(subreddit, ticker, start, end, ups, submissions, comments, g), recs,
                           end / Width(g) - i))
  {
    var q := MentionQuery(subreddit, ticker, start, end, ups, submissions, comments, g);
    assert q.fill == FillWindow && q.offset == 1 && q.width == Width(g);
    assert q.lower == Closed(start) && q.upper == Closed(end + q.width);
    PaddedWindowRows(q, recs, start, end);
  }

  /**
    A gap-filled window [s, e + one bucket] with OFFSET 1 yields the buckets from e's down to s's:
    the extra bucket the padding adds is the one OFFSET drops.
  */
  lemma PaddedWindowRows(q: Query, recs: seq<Record>, s: int, e: int)
    requires q.WellFormed() && q.fill == FillWindow && q.offset == 1 && s / q.width <= e / q.width
    requires q.lower == Closed(s) && q.upper == Closed(e + q.width)
    ensures |Eval(q, recs)| == e / q.width - s / q.width + 1
    ensures forall i :: 0 <= i < e / q.width - s / q.width + 1 ==>
      Eval(q, recs)[i] == Row((e / q.width - i) * q.width, CountOrNull(q, recs, e / q.width - i))
  {
    var w := q.width;
    var hi, lo := e / w, s / w;
    assert Least(q.lower) == s && Greatest(q.upper) == e + w;
    assert (e + w) / w == hi + 1 by { Arith.DivShift(e, w); }
    assert s <= e + w by {
      Arith.BucketBounds(s, w);
      Arith.BucketBounds(e, w);
      if lo < hi {
        Arith.MulStrict(hi, lo, w);
      }
    }
    assert Keys(q, recs) == Descending(hi + 1, lo) by { FillWindowKeys(q, recs); }
    EvalExact(q, recs, hi + 1, lo);
    forall i | 0 <= i < hi - lo + 1
      ensures Eval(q, recs)[i] == Row((hi - i) * w, CountOrNull(q, recs, hi - i))
    {
      assert hi + 1 - q.offset - i == hi - i;
    }
  }

  /**
    The bucket holding `end` is counted in full: every record of that bucket at or after `start`
    that passes the other conditions passes the window too.
  */
  lemma TickerEndBucketComplete(subreddit: string, ticker: Option<string>, start: int, end: int, ups: int,
                                submissions: bool, comments: bool, g: Gran, r: Record)
    requires r.created / Width(g) == end / Width(g) && start <= r.created
    requires r.ups > ups && r.topic == ticker && KindAdmits(KindFor(submissions, comments), r.isComment)
    ensures Matches(MentionQuery(subreddit, ticker, start, end, ups, submissions, comments, g), r)
  {
    Arith.BucketBounds(r.created, Width(g));
    Arith.BucketBounds(end, Width(g));
  }

  /**
    The all-records variant gap-fills every bucket from the one holding `start` up to the last one
    starting before `end`, whether or not it holds records, and returns no bucket outside
    start's bucket .. one past end's bucket.
  */
  lemma NoTickerGapFill(subreddit: string, ticker: Option<string>, start: int, end: int, ups: int,
                        submissions: bool, comments: bool, g: Gran, recs: seq<Record>, k: int)
    requires !Truthy(ticker) && start < end
    ensures var q := MentionQuery(subreddit, ticker, start, end, ups, submissions, comments, g);
      && (start / Width(g) <= k <= (end - 1) / Width(g) ==> k in Keys(q, recs) && k * Width(g) in Buckets(Eval(q, recs)))
      && (k in Keys(q, recs) ==> start / Width(g) <= k <= end / Width(g) + 1)
  {
    var q := MentionQuery(subreddit, ticker, start, end, ups, submissions, comments, g);
    var w := Width(g);
    var ks := Keys(q, recs);
    Arith.DivShift(end, w);
    if start / w <= k <= (end - 1) / w {
      assert InGap(q, k);
      assert k in ks;
      var i :| 0 <= i < |ks| && ks[i] == k;
      assert Eval(q, recs)[i].bucket == k * w;
    }
    if k in ks && Count(q, recs, k) > 0 {
      CountInWindow(q, recs, k);
    }
    if k in ks && InGap(q, k) {
      Arith.DivMono(end - 1, end + w, w);
    }
  }

  datatype Crash = ScalarHasNoIndex

  /**
    The normalisation as written: an empty fetch gives an empty series; otherwise the rows go
    through `DataFrame(...).set_index('tb').squeeze()`, which turns a one-row result into a
    scalar, and the next statement reads its `index`, which a scalar does not have.
  */
  function NormalizeAsWritten(rows: seq<Row>): (r: Result<Series, Crash>)
    ensures r.Failure? <==> |rows| == 1
    ensures r.Success? ==> r.value == FillNulls(rows)
  {
    if |rows| == 0 then Success(Series([], []))
    else if |rows| == 1 then Failure(ScalarHasNoIndex)
    else Success(FillNulls(rows))
  }

  /** `get_mention_timeseries` as written, over the content `recs` of the table the query names. */
  function MentionTimeseriesAsWritten(subreddit: string, ticker: Option<string>, start: int, end: int, ups: int,
                                      submissions: bool, comments: bool, g: Gran, recs: seq<Record>): (r: Result<Series, Crash>)
    ensures r.Failure? <==> |Eval(MentionQuery(subreddit, ticker, start, end, ups, submissions, comments, g), recs)| == 1
    ensures r.Success? ==> r.value == MentionTimeseries(subreddit, ticker, start, end, ups, submissions, comments, g, recs)
  {
    NormalizeAsWritten(Eval(MentionQuery(subreddit, ticker, start, end, ups, submissions, comments, g), recs))
  }

  /**
    `get_mention_timeseries` with the normalisation the code evidently intends: one entry per
    fetched row, in fetch order, NULL counts as 0, whatever the number of rows.
  */
  function MentionTimeseries(subreddit: string, ticker: Option<string>, start: int, end: int, ups: int,
                             submissions: bool, comments: bool, g: Gran, recs: seq<Record>): (s: Series)
    ensures s.WellFormed()
    ensures forall i, j :: 0 <= i < j < |s.index| ==> s.index[i] > s.index[j]
    ensures forall i :: 0 <= i < |s.values| ==> s.values[i] >= 0
  {
    var q := MentionQuery(subreddit, ticker, start, end, ups, submissions, comments, g);
    EvalNewestFirst(q, recs);
    FillNulls(Eval(q, recs))
  }

  /**
    End to end, the ticker variant gives one entry per bucket from end's down to start's, each
    with the number of counted records in it (0 for a bucket without one).
  */
  lemma MentionTimeseriesEntries(subreddit: string, ticker: Option<string>, start: int, end: int, ups: int,
                                 submissions: bool, comments: bool, g: Gran, recs: seq<Record>)
    requires Truthy(ticker) && start / Width(g) <= end / Width(g)
    ensures var s := MentionTimeseries(subreddit, ticker, start, end, ups, submissions, comments, g, recs);
      var q := MentionQuery(subreddit, ticker, start, end, ups, submissions, comments, g);
      && |s.index| == end / Width(g) - start / Width(g) + 1
      && forall i :: 0 <= i < |s.index| ==>
           s.index[i] == (end / Width(g) - i) * Width(g) && s.values[i] == Count(q, recs, end / Width(g) - i)
  {
    TickerBuckets(subreddit, ticker, start, end, ups, submissions, comments, g, recs);
  }

  /**
    With a ticker and start == end, the query returns exactly one row (its bucket and the one past
    it are gap-filled, OFFSET 1 drops the latter), so the code as written always fails.
  */
  lemma StartEqualsEndCrashes(subreddit: string, ticker: Option<string>, t: int, ups: int,
                              submissions: bool, comments: bool, g: Gran, recs: seq<Record>)
    requires Truthy(ticker)
    ensures |Eval(MentionQuery(subreddit, ticker, t, t, ups, submissions, comments, g), recs)| == 1
    ensures MentionTimeseriesAsWritten(subreddit, ticker, t, t, ups, submissions, comments, g, recs).Failure?
  {
    TickerBuckets(subreddit, ticker, t, t, ups, submissions, comments, g, recs);
  }

  /**
    More generally, any ticker request whose start and end fall in the same bucket, in either
    order, fetches exactly one row, and the code as written fails on it.
  */
  lemma SameBucketCrashes(subreddit: string, ticker: Option<string>, start: int, end: int, ups: int,
                          submissions: bool, comments: bool, g: Gran, recs: seq<Record>)
    requires Truthy(ticker) && start / Width(g) == end / Width(g)
    ensures MentionTimeseriesAsWritten(subreddit, ticker, start, end, ups, submissions, comments, g, recs).Failure?
  {
    TickerBuckets(subreddit, ticker, start, end, ups, submissions, comments, g, recs);
  }

  /**
    With the intended normalisation the same request yields a single entry: the bucket holding t,
    with the number of counted records in it.
  */
  lemma StartEqualsEndSingleBucket(subreddit: string, ticker: Option<string>, t: int, ups: int,
                                   submissions: bool, comments: bool, g: Gran, recs: seq<Record>)
    requires Truthy(ticker)
    ensures var s := MentionTimeseries(subreddit, ticker, t, t, ups, submissions, comments, g, recs);
      var q := MentionQuery(subreddit, ticker, t, t, ups, submissions, comments, g);
      s == Series([(t / Width(g)) * Width(g)], [Count(q, recs, t / Width(g))])
  {
    var q := MentionQuery(subreddit, ticker, t, t, ups, submissions, comments, g);
    TickerBuckets(subreddit, ticker, t, t, ups, submissions, comments, g, recs);
    assert Eval(q, recs) == [Row((t / Width(g)) * Width(g), CountOrNull(q, recs, t / Width(g)))];
  }
}
