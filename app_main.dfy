/**
  The earlier API revision: the subreddit/ticker tables, the `NONE` ticker convention of
  `/volume/{subreddit}/{ticker}`, and the shaping of its response.
*/
module AppMain {
  import opened Common
  import opened QuerySemantics
  import opened Granularity
  import opened SeriesModel
  import opened DbInteractions

  /** `subreddits_and_tickers`, in dictionary order; each list ends with the `NONE` sentinel. */
  const SubredditsAndTickers: seq<(string, seq<string>)> := [
    ("wallstreetbets", ["TSLA", "GOOGL", "GME"] + ["NONE"]),
    ("satoshistreetbets", ["ETH", "ADA", "BTC"] + ["NONE"])
  ]

  /** The nested comprehension: every list's tickers, list after list. */
  function Flatten(d: seq<(string, seq<string>)>): (ts: seq<string>)
    ensures forall t :: t in ts <==> exists i :: 0 <= i < |d| && t in d[i].1
  {
    if d == [] then []
    else
      var rest := Flatten(d[1..]);
      assert forall i :: 1 <= i < |d| ==> d[i] == d[1..][i - 1];
      d[0].1 + rest
  }

  /** `tickers`. */
  function Tickers(): (ts: seq<string>)
    ensures forall t :: t in ts <==> exists i :: 0 <= i < |SubredditsAndTickers| && t in SubredditsAndTickers[i].1
  {
    Flatten(SubredditsAndTickers)
  }

  /** The flattened list is the first subreddit's tickers followed by the second's. */
  lemma TickersInOrder()
    ensures Tickers() == ["TSLA", "GOOGL", "GME", "NONE", "ETH", "ADA", "BTC", "NONE"]
  {
    var d := SubredditsAndTickers;
    assert d[1..][1..] == [];
    assert Flatten(d[1..]) == d[1].1 + Flatten(d[1..][1..]);
    assert Flatten(d) == d[0].1 + Flatten(d[1..]);
  }

  /** Every subreddit's list ends with `NONE`. */
  lemma EveryListEndsWithNone()
    ensures forall i :: 0 <= i < |SubredditsAndTickers| ==>
      |SubredditsAndTickers[i].1| > 0 && SubredditsAndTickers[i].1[|SubredditsAndTickers[i].1| - 1] == "NONE"
  {
  }

  /** The path ticker as passed on: `NONE` means no ticker, anything else goes through unchanged. */
  function TickerArg(ticker: string): (t: Option<string>)
    ensures t.None? <==> ticker == "NONE"
    ensures t.Some? ==> t.value == ticker
  {
    if ticker == "NONE" then None else Some(ticker)
  }

  /** `df.reset_index().to_dict(orient='records')`: one `{time, volume}` record per series entry. */
  function ToRecords(s: Series): (records: seq<Entry<int>>)
    requires s.WellFormed()
    ensures |records| == |s.index|
    ensures forall i :: 0 <= i < |records| ==> records[i] == Entry(s.index[i], s.values[i])
  {
    seq(|s.index|, i requires 0 <= i < |s.index| => Entry(s.index[i], s.values[i]))
  }

  /**
    `/volume/{subreddit}/{ticker}` as written, over the content `recs` of the table queried: the
    `data` list, or the failure `get_mention_timeseries` raises on a one-row fetch.
  */
  function VolAsWritten(subreddit: string, ticker: string, start: int, end: int, ups: int,
                        submissions: bool, comments: bool, g: Gran, recs: seq<Record>): (r: Result<seq<Entry<int>>, Crash>)
    ensures r.Failure? <==>
      |Eval(MentionQuery(subreddit, TickerArg(ticker), start, end, ups, submissions, comments, g), recs)| == 1
    ensures r.Success? ==> r.value == Vol(subreddit, ticker, start, end, ups, submissions, comments, g, recs)
  {
    match MentionTimeseriesAsWritten(subreddit, TickerArg(ticker), start, end, ups, submissions, comments, g, recs)
    case Success(s) => Success(ToRecords(s))
    case Failure(e) => Failure(e)
  }

  /** A ticker request whose start and end share a bucket gets no `data` list from the route as written. */
  lemma VolSameBucketFails(subreddit: string, ticker: string, start: int, end: int, ups: int,
                           submissions: bool, comments: bool, g: Gran, recs: seq<Record>)
    requires ticker != "NONE" && ticker != "" && start / Width(g) == end / Width(g)
    ensures VolAsWritten(subreddit, ticker, start, end, ups, submissions, comments, g, recs).Failure?
  {
    SameBucketCrashes(subreddit, TickerArg(ticker), start, end, ups, submissions, comments, g, recs);
  }

  /**
    The `data` list of `/volume/{subreddit}/{ticker}` over the content `recs` of the table queried,
    with the intended normalisation of `get_mention_timeseries` (no failure on a one-row fetch).
  */
  function Vol(subreddit: string, ticker: string, start: int, end: int, ups: int,
               submissions: bool, comments: bool, g: Gran, recs: seq<Record>): (data: seq<Entry<int>>)
    ensures forall i, j :: 0 <= i < j < |data| ==> data[i].time > data[j].time
    ensures forall i :: 0 <= i < |data| ==> data[i].volume >= 0
  {
    ToRecords(MentionTimeseries(subreddit, TickerArg(ticker), start, end, ups, submissions, comments, g, recs))
  }

  /**
    A ticker other than `NONE` gets one record per bucket from end's down to start's, each with
    the number of counted mentions in it.
  */
  lemma VolTickerEntries(subreddit: string, ticker: string, start: int, end: int, ups: int,
                         submissions: bool, comments: bool, g: Gran, recs: seq<Record>)
    requires ticker != "NONE" && ticker != "" && start / Width(g) <= end / Width(g)
    ensures var data := Vol(subreddit, ticker, start, end, ups, submissions, comments, g, recs);
      var q := MentionQuery(subreddit, TickerArg(ticker), start, end, ups, submissions, comments, g);
      && |data| == end / Width(g) - start / Width(g) + 1
      && forall i :: 0 <= i < |data| ==>
           data[i] == Entry((end / Width(g) - i) * Width(g), Count(q, recs, end / Width(g) - i))
  {
    MentionTimeseriesEntries(subreddit, TickerArg(ticker), start, end, ups, submissions, comments, g, recs);
  }

  /**
    `NONE` selects the all-records query on the subreddit's own table, with no topic condition;
    any other non-empty ticker selects the per-topic table and requires that topic.
  */
  lemma VolQuerySelection(subreddit: string, ticker: string, start: int, end: int, ups: int,
                          submissions: bool, comments: bool, g: Gran)
    ensures var q := MentionQuery(subreddit, TickerArg(ticker), start, end, ups, submissions, comments, g);
      && (ticker == "NONE" ==> q.table == subreddit && q.topic == None && q.offset == 0)
      && (ticker != "NONE" && ticker != "" ==> q.table == subreddit + "_" && q.topic == Some(ticker) && q.offset == 1)
  {
  }

  /** With `NONE` and start < end, every bucket from start's up to the last one before end is reported. */
  lemma VolNoneCoversRange(subreddit: string, start: int, end: int, ups: int,
                           submissions: bool, comments: bool, g: Gran, recs: seq<Record>, k: int)
    requires start < end && start / Width(g) <= k <= (end - 1) / Width(g)
    ensures var data := Vol(subreddit, "NONE", start, end, ups, submissions, comments, g, recs);
      exists i :: 0 <= i < |data| && data[i].time == k * Width(g)
  {
    var q := MentionQuery(subreddit, None, start, end, ups, submissions, comments, g);
    NoTickerGapFill(subreddit, None, start, end, ups, submissions, comments, g, recs, k);
    var rows := Eval(q, recs);
    var i :| 0 <= i < |rows| && Buckets(rows)[i] == k * Width(g);
    assert Vol(subreddit, "NONE", start, end, ups, submissions, comments, g, recs)[i].time == rows[i].bucket;
  }
}
