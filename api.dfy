/**
  The top-level API of the later revision: the request validator, the `/volume/{coin}` query and
  its row-to-record loop, and the grouping loop of `/volume_market_summary`.
*/
module Api {
  import opened Common
  import opened QuerySemantics

  /** A 30-day "month" in seconds, the unit of every span limit. */
  const Month: int := 2592000

  /** The validator's three `ValueError`s; `SpanTooLong` carries the limit its message names, in months. */
  datatype TimeError = EndInFuture | InvalidDates | SpanTooLong(maxMonths: nat)

  datatype Verdict = Pass | Fail(error: TimeError)

  /** The longest accepted span for a granularity, if it has one. */
  function SpanLimit(granularity: string): (limit: Option<int>)
    ensures granularity == "hour" ==> limit == Some(Month)
    ensures granularity == "day" ==> limit == Some(12 * Month)
    ensures granularity in {"week", "month"} ==> limit == Some(60 * Month)
    ensures granularity !in {"hour", "day", "week", "month"} ==> limit == None
  {
    if granularity == "hour" then Some(Month * 1)
    else if granularity == "day" then Some(Month * 12)
    else if granularity == "week" || granularity == "month" then Some(Month * 12 * 5)
    else None
  }

  /**
    `validate_time` on epoch seconds: the end may not be later than now (checked first), the start
    may not follow the end, and the span may not exceed the granularity's limit.
  */
  function ValidateTime(start: int, end: int, now: int, granularity: string): (v: Verdict)
    ensures v == Pass <==>
      end <= now && start <= end && (SpanLimit(granularity).Some? ==> end - start <= SpanLimit(granularity).value)
    ensures end > now ==> v == Fail(EndInFuture)
    ensures end <= now && start > end ==> v == Fail(InvalidDates)
    ensures v.Fail? && v.error.SpanTooLong? ==> end - start > v.error.maxMonths * Month
    ensures end <= now && start <= end && SpanLimit(granularity).Some? && end - start > SpanLimit(granularity).value ==>
      v == Fail(SpanTooLong(SpanLimit(granularity).value / Month))
  {
    var difference := end - start;
    if end > now then Fail(EndInFuture)
    else if start > end then Fail(InvalidDates)
    else if granularity == "hour" && difference > Month * 1 then Fail(SpanTooLong(1))
    else if granularity == "day" && difference > Month * 12 then Fail(SpanTooLong(12))
    else if granularity == "week" && difference > Month * 12 * 5 then Fail(SpanTooLong(60))
    else if granularity == "month" && difference > Month * 12 * 5 then Fail(SpanTooLong(60))
    else Pass
  }

  /** For `hour`, a span of exactly one month passes and one second more fails. */
  lemma HourLimitBoundary(start: int, now: int)
    requires start + Month + 1 <= now
    ensures ValidateTime(start, start + Month, now, "hour") == Pass
    ensures ValidateTime(start, start + Month + 1, now, "hour") == Fail(SpanTooLong(1))
  {
  }

  /** A span of zero passes for every granularity as long as the end is not in the future. */
  lemma StartEqualsEndAccepted(t: int, now: int, granularity: string)
    requires t <= now
    ensures ValidateTime(t, t, now, granularity) == Pass
  {
  }

  /** An end one second in the future fails whatever the other arguments. */
  lemma FutureEndRejected(start: int, now: int, granularity: string)
    ensures ValidateTime(start, now + 1, now, granularity) == Fail(EndInFuture)
  {
  }

  /** The DATE_TRUNC unit as a fixed bucket width in seconds (a month taken as 30 days). */
  function TruncWidth(granularity: string): (w: Option<int>)
    ensures w.Some? <==> granularity in {"hour", "day", "week", "month"}
    ensures w.Some? ==> w.value > 0 && w.value % 3600 == 0
  {
    if granularity == "hour" then Some(3600)
    else if granularity == "day" then Some(86400)
    else if granularity == "week" then Some(7 * 86400)
    else if granularity == "month" then Some(Month)
    else None
  }

  /**
    The query `vol` sends: records of the coin strictly between start and end, truncated to the
    granularity's unit, counted per bucket, newest first. There is no ups or kind condition and
    no gap fill.
  */
  function VolQuery(coin: string, start: int, end: int, granularity: string): (q: Query)
    requires coin != "" && TruncWidth(granularity).Some?
    ensures q.WellFormed() && q.width == TruncWidth(granularity).value
  {
    Query("cryptocurrency_", None, Some(coin), AnyKind, Open(start), Open(end),
          TruncWidth(granularity).value, NoFill, 0)
  }

  /** Both window bounds are strict, and the coin's topic is always required. */
  lemma VolFilter(coin: string, start: int, end: int, granularity: string, r: Record)
    requires coin != "" && TruncWidth(granularity).Some?
    ensures Matches(VolQuery(coin, start, end, granularity), r) <==> start < r.created < end && r.topic == Some(coin)
  {
  }

  /**
    The rows of `vol`'s query are exactly the buckets holding a counted record, newest first,
    each with its positive count; start == end yields no row at all.
  */
  lemma VolRows(coin: string, start: int, end: int, granularity: string, recs: seq<Record>)
    requires coin != "" && TruncWidth(granularity).Some?
    ensures var q := VolQuery(coin, start, end, granularity);
      && (forall i, j :: 0 <= i < j < |Eval(q, recs)| ==> Eval(q, recs)[i].bucket > Eval(q, recs)[j].bucket)
      && (forall i :: 0 <= i < |Eval(q, recs)| ==> Eval(q, recs)[i].count.Some? && Eval(q, recs)[i].count.value > 0)
      && (forall k :: k in Keys(q, recs) <==> Count(q, recs, k) > 0)
      && (start == end ==> Eval(q, recs) == [])
  {
    var q := VolQuery(coin, start, end, granularity);
    EvalNewestFirst(q, recs);
    EvalCounts(q, recs);
    if start == end {
      forall k ensures !Emitted(q, recs, k) {
        CountEmptyWindow(q, recs, k);
      }
      KeysExact(q, recs, 1, 0);
    }
  }

  /**
    Two BTC records at 00:10 and 00:45 on 2023-01-01 (UTC), queried by hour over 00:00 to 01:00,
    give one bucket, 00:00, with volume 2.
  */
  lemma VolExample()
    ensures var t := 1672531200;
      Eval(VolQuery("BTC", t, t + 3600, "hour"),
           [Record(t + 600, Some("BTC"), false, 1), Record(t + 2700, Some("BTC"), true, 5)])
      == [Row(t, Some(2))]
  {
    var t := 1672531200;
    var q := VolQuery("BTC", t, t + 3600, "hour");
    var recs := [Record(t + 600, Some("BTC"), false, 1), Record(t + 2700, Some("BTC"), true, 5)];
    assert recs[1..][1..] == [];
    forall k ensures Emitted(q, recs, k) <==> t / 3600 <= k <= t / 3600 {
      assert Count(q, recs, k) == if k == t / 3600 then 2 else 0;
    }
    KeysExact(q, recs, t / 3600, t / 3600);
    EvalExact(q, recs, t / 3600, t / 3600);
  }

  /**
    `vol`: validate, then turn each fetched row into a `{time, volume}` record, in fetch order.
    `fetched` stands for what the database returns for `VolQuery`; a failed validation is
    answered with status 422 carrying the validator's error.
  */
  method Vol(start: int, end: int, now: int, granularity: string, fetched: seq<Row>)
    returns (r: Result<seq<Entry<Option<nat>>>, TimeError>)
    ensures ValidateTime(start, end, now, granularity).Fail? ==>
      r == Failure(ValidateTime(start, end, now, granularity).error)
    ensures ValidateTime(start, end, now, granularity) == Pass ==>
      && r.Success? && |r.value| == |fetched|
      && forall i :: 0 <= i < |fetched| ==> r.value[i] == Entry(fetched[i].bucket, fetched[i].count)
  {
    var verdict := ValidateTime(start, end, now, granularity);
    if verdict.Fail? {
      return Failure(verdict.error);
    }
    var data: seq<Entry<Option<nat>>> := [];
    var i := 0;
    while i < |fetched|
      invariant 0 <= i <= |fetched|
      invariant |data| == i
      invariant forall j :: 0 <= j < i ==> data[j] == Entry(fetched[j].bucket, fetched[j].count)
    {
      var row := fetched[i];
      data := data + [Entry(row.bucket, row.count)];
      i := i + 1;
    }
    return Success(data);
  }

  /** A row of the precomputed `<gran>_data` table. */
  datatype SummaryRow = SummaryRow(coin: string, date: int, count: int)

  /** The coins of `rows` in order of first appearance: the key order of the dict being built. */
  function CoinsInOrder(rows: seq<SummaryRow>): (coins: seq<string>)
    ensures forall i, j :: 0 <= i < j < |coins| ==> coins[i] != coins[j]
    ensures forall c :: c in coins <==> exists i :: 0 <= i < |rows| && rows[i].coin == c
  {
    if rows == [] then []
    else
      var prefix := rows[..|rows| - 1];
      var c := rows[|rows| - 1].coin;
      var seen := CoinsInOrder(prefix);
      assert forall i :: 0 <= i < |prefix| ==> prefix[i] == rows[i];
      if c in seen then seen else seen + [c]
  }

  /** The entries of one coin, in row order. */
  function EntriesOf(rows: seq<SummaryRow>, coin: string): seq<Entry<int>>
  {
    if rows == [] then []
    else
      var last := rows[|rows| - 1];
      EntriesOf(rows[..|rows| - 1], coin) + (if last.coin == coin then [Entry(last.date, last.count)] else [])
  }

  /** A coin's list holds exactly the (date, count) of the rows with that coin. */
  lemma {:induction false} EntriesOfFilter(rows: seq<SummaryRow>, coin: string)
    ensures forall e :: e in EntriesOf(rows, coin) <==>
      exists i :: 0 <= i < |rows| && rows[i].coin == coin && e == Entry(rows[i].date, rows[i].count)
  {
    if rows != [] {
      var prefix := rows[..|rows| - 1];
      EntriesOfFilter(prefix, coin);
      assert forall i :: 0 <= i < |prefix| ==> prefix[i] == rows[i];
    }
  }

  /**
    `volume_market_summary`: group the fetched rows by coin with `setdefault`/`append`. The dict
    is returned as its key order and its mapping.
  */
  method VolumeMarketSummary(rows: seq<SummaryRow>) returns (coins: seq<string>, data: map<string, seq<Entry<int>>>)
    ensures coins == CoinsInOrder(rows)
    ensures forall c :: c in data <==> c in coins
    ensures forall c :: c in data ==> data[c] == EntriesOf(rows, c)
  {
    coins, data := [], map[];
    var i := 0;
    while i < |rows|
      invariant 0 <= i <= |rows|
      invariant coins == CoinsInOrder(rows[..i])
      invariant forall c :: c in data <==> c in coins
      invariant forall c :: c in data ==> data[c] == EntriesOf(rows[..i], c)
    {
      var row := rows[i];
      ghost var before := data;
      assert rows[..i + 1][..i] == rows[..i];
      if row.coin !in data {
        data := data[row.coin := []];
        coins := coins + [row.coin];
      }
      data := data[row.coin := data[row.coin] + [Entry(row.date, row.count)]];
      forall c | c in data ensures data[c] == EntriesOf(rows[..i + 1], c) {
        assert EntriesOf(rows[..i + 1], c)
          == EntriesOf(rows[..i], c) + (if row.coin == c then [Entry(row.date, row.count)] else []);
        if c != row.coin {
          assert c in before;
        } else if c !in before {
          assert forall j :: 0 <= j < i ==> rows[..i][j].coin != c;
          EntriesOfAbsent(rows[..i], c);
        }
      }
      i := i + 1;
    }
    assert rows[..i] == rows;
  }

  /** A coin that does not occur in the rows has no entries. */
  lemma {:induction false} EntriesOfAbsent(rows: seq<SummaryRow>, coin: string)
    requires forall i :: 0 <= i < |rows| ==> rows[i].coin != coin
    ensures EntriesOf(rows, coin) == []
  {
    if rows != [] {
      EntriesOfAbsent(rows[..|rows| - 1], coin);
    }
  }

  /** The number of entries over the given coins. */
  function Total(coins: seq<string>, rows: seq<SummaryRow>): nat {
    if coins == [] then 0 else |EntriesOf(rows, coins[0])| + Total(coins[1..], rows)
  }

  lemma {:induction false} TotalSnoc(coins: seq<string>, rows: seq<SummaryRow>, r: SummaryRow)
    requires forall i, j :: 0 <= i < j < |coins| ==> coins[i] != coins[j]
    ensures Total(coins, rows + [r]) == Total(coins, rows) + (if r.coin in coins then 1 else 0)
  {
    assert (rows + [r])[..|rows|] == rows;
    if coins != [] {
      TotalSnoc(coins[1..], rows, r);
      assert r.coin in coins <==> r.coin == coins[0] || r.coin in coins[1..];
      assert coins[0] !in coins[1..];
    }
  }

  lemma {:induction false} TotalAppend(coins: seq<string>, c: string, rows: seq<SummaryRow>)
    ensures Total(coins + [c], rows) == Total(coins, rows) + |EntriesOf(rows, c)|
  {
    if coins != [] {
      assert (coins + [c])[1..] == coins[1..] + [c];
      TotalAppend(coins[1..], c, rows);
    }
  }

  /** Every row lands in exactly one coin's list: the entries add up to the number of rows. */
  lemma {:induction false} SummaryTotal(rows: seq<SummaryRow>)
    ensures Total(CoinsInOrder(rows), rows) == |rows|
  {
    if rows != [] {
      var prefix := rows[..|rows| - 1];
      var r := rows[|rows| - 1];
      var seen := CoinsInOrder(prefix);
      assert rows == prefix + [r];
      SummaryTotal(prefix);
      TotalSnoc(seen, prefix, r);
      if r.coin !in seen {
        TotalAppend(seen, r.coin, rows);
        EntriesOfAbsent(prefix, r.coin);
      }
    }
  }
}
