# redditcoins-api: mention-volume queries, modelled in Dafny

The redditcoins API reports how often a cryptocurrency ticker is mentioned on a forum
(a subreddit), counted per time bucket. This project models three pieces of that code:

1. **Request validation** (`validate_time` in `main.py`). The end of the requested span may not
   be later than now. The start may not follow the end. The span may not exceed a limit that
   depends on the granularity, measured in 30-day months: 1 for `hour`, 12 for `day`, 60 for
   `week` and `month`.
2. **Query semantics.** Every revision sends one SQL query. Each query is a record predicate
   (ups threshold, topic, submission/comment kind, time window) followed by a bucket count.
   It may also gap-fill, orders the buckets newest first, and may skip rows with OFFSET.
   `QuerySemantics` states the query as a value (`Query`) and gives it a meaning (`Eval`) over a
   sequence of table records. Each revision's query builder is a function to `Query`. The
   revisions differ in their window bounds, gap-fill range and OFFSET, and a lemma per revision
   states the result of its query.
3. **Result shaping.** Fetched rows become a series in which NULL counts read as 0. A series
   becomes `{time, volume}` records. Summary rows are grouped by coin. The `NONE` ticker means
   "no ticker", and the per-subreddit ticker lists are flattened.

Modules, one per source file plus shared parts:

| module | file | models |
|---|---|---|
| `Common` | common.dfy | Option, Result, the `{time, volume}` entry |
| `Arith` | arith.dfy | floor division by a positive bucket width (helpers) |
| `QuerySemantics` | query_semantics.dfy | records, structured queries and their evaluation |
| `Granularity` | granularity.dfy | the `gran_` token table of both database helpers |
| `SeriesModel` | series.dfy | the pandas series and `fillna(0).astype(int)` |
| `DbInteractions` | db_interactions.dfy | `get_mention_timeseries` |
| `DbToTimeseries` | db_to_timeseries.dfy | `get_timeseries_df` |
| `Api` | api.dfy | `main.py`: `validate_time`, `vol`, `volume_market_summary` |
| `AppMain` | app_main.dfy | `app/main.py`: ticker tables, `NONE` mapping, response records |

Conventions:

- Instants are integer epoch seconds.
- A bucket of width `w` is numbered `k = t / w`, using floor division from the epoch, and starts at `k * w`.
- A bucket is emitted when it holds a matching record, or when it lies in the gap-fill range. A
  gap-filled bucket without records has a NULL count.
- The gap-fill range has two forms. With explicit start and finish, it covers buckets from the
  one holding the start up to the last one that starts before the finish. Without them, it
  covers the buckets of the instants the WHERE clause admits.
- The database fetch is an input. In the pure functions it is the content `recs` of the table
  the query names. The two methods of `main.py` receive the fetched rows directly.

Conventions fixed by the code, and where its revisions differ:

- The route description of `/volume/{coin}` (main.py:109-111) says the coin `NONE` counts all
  records irrespective of coin, but `NONE` is a non-empty string, so the query still requires
  `topic = 'NONE'` (main.py:143, `Api.VolFilter`).
- The ups threshold is strict (`UPS > ups`).
- The window bounds differ between revisions:
  - `main.py` uses `start < t < end`;
  - `get_mention_timeseries` uses `start <= t <= end + one bucket`;
  - `get_timeseries_df` uses `start <= t < end`.
- Buckets are always ordered newest first.
- `validate_time` puts no span limit on a granularity outside hour/day/week/month. Only the
  route's pattern restricts the token.

## Model

| member | source | states |
|---|---|---|
| `Api.ValidateTime` | main.py:29-48 | passes exactly when end <= now, start <= end and the span is within the granularity's limit; an end in the future is reported first, then start > end; an over-long span is reported as `SpanTooLong` naming the granularity's own limit in months |
| `Api.SpanLimit` | main.py:40-48 | hour: 2592000 s; day: 12 × 2592000 s; week and month: 60 × 2592000 s; any other granularity: no limit |
| `Api.HourLimitBoundary` | main.py:41-42 | for `hour`, a span of exactly 2592000 s passes and 2592001 s fails with the 1-month message |
| `Api.StartEqualsEndAccepted` | main.py:37-38 | start == end (not in the future) passes for every granularity |
| `Api.FutureEndRejected` | main.py:35-36 | an end one second after now fails with the end-date error whatever the other arguments |
| `Api.TruncWidth` | main.py:121-125 | exactly the four units hour/day/week/month have a bucket width, each a positive whole number of hours |
| `Api.VolQuery` | main.py:137-152 | builds a well-formed query whose bucket width is the DATE_TRUNC unit's width `TruncWidth(granularity)` (its filter is stated by `Api.VolFilter`) |
| `Api.VolFilter` | main.py:137-144 | a record is counted iff start < created < end (both strict) and its topic is the coin |
| `Api.VolRows` | main.py:146-151 | rows are exactly the buckets holding a counted record, newest first, each with a positive count; start == end gives no row |
| `Api.VolExample` | main.py:137-159 | two BTC records at 00:10 and 00:45, hourly over 00:00 to 01:00, give the single row (00:00, 2) |
| `Api.Vol` | main.py:128-161 | a failed validation is returned as that error; otherwise one `{time, volume}` per fetched row, in fetch order |
| `Api.CoinsInOrder` | main.py:178-181 | the dict's keys: distinct, exactly the coins occurring in the rows, in first-seen order |
| `Api.VolumeMarketSummary` | main.py:166-187 | keys are exactly the rows' coins in first-seen order; each coin maps to its rows' entries in row order |
| `Api.SummaryTotal` | main.py:178-187 | the entries over all keys add up to the number of rows |
| `Api.EntriesOfFilter` | main.py:178-185 | a coin's list holds exactly the (date, count) of the rows with that coin |
| `Granularity.Parse` | app/db_interactions.py:19-30 | exactly the six tokens H, 2H, 6H, 12H, D, W are accepted, each giving the granularity whose token it is |
| `Granularity.Width` | app/db_to_timeseries.py:20-31 | each interval is a positive whole number of hours |
| `Granularity.ParseToken` | app/db_interactions.py:24-29 | every granularity is recovered from its own token |
| `Granularity.WidthInjective` | app/db_interactions.py:24-29 | distinct granularities have distinct widths |
| `QuerySemantics.KindFor` | app/db_interactions.py:71-75 | both or neither flag: no kind filter; comments only: comments; submissions only: submissions |
| `QuerySemantics.Least` | app/db_interactions.py:76-77 | `>= a` admits exactly the instants from a on, `> a` those from a + 1 on |
| `QuerySemantics.Greatest` | app/db_interactions.py:76-77 | `<= a` admits exactly the instants up to a, `< a` those up to a - 1 |
| `QuerySemantics.Count` | app/db_interactions.py:66-67 | COUNT(*) of a bucket never exceeds the number of records |
| `QuerySemantics.Matches` | app/db_interactions.py:69-77 | the WHERE clause: ups threshold, topic, kind and both window bounds; a match lies between the earliest and latest admitted instants |
| `QuerySemantics.InGap` | app/db_interactions.py:86-93 | the buckets gap filling adds: none without gap fill; the WHERE window's buckets without an explicit range; start's bucket up to the last one starting before finish with one |
| `QuerySemantics.Keys` | app/db_interactions.py:64-80 | the emitted buckets, strictly newest first: exactly those holding a matching record or lying in the gap-fill range |
| `QuerySemantics.Eval` | app/db_interactions.py:78-80 | row i is the (OFFSET + i)-th emitted bucket with its count, NULL when it has no record |
| `QuerySemantics.EvalNewestFirst` | app/db_interactions.py:104-105 | row buckets strictly decrease, so no bucket appears twice |
| `QuerySemantics.EvalCounts` | app/db_interactions.py:86-94 | a non-NULL count is positive; a NULL count only occurs on a gap-filled bucket |
| `QuerySemantics.Descending` | app/db_interactions.py:87-93 | the bucket numbers hi down to lo, each exactly once |
| `QuerySemantics.EmittedBetween` | app/db_interactions.py:64-80 | the emitted buckets between hi and lo, strictly newest first, and no other number |
| `QuerySemantics.FillWindowKeys` | app/db_interactions.py:58-77 | a gap fill ranged by its WHERE window emits exactly the buckets from the earliest admitted instant's to the latest's |
| `QuerySemantics.EvalExact` | app/db_interactions.py:78-80 | when the emitted buckets are hi..lo, row i is bucket hi - OFFSET - i with its count |
| `DbInteractions.MentionQuery` | app/db_interactions.py:63-106 | builds a well-formed query whose bucket width is the granularity's (its meaning is stated by the lemmas below) |
| `DbInteractions.MentionFilter` | app/db_interactions.py:63-103 | counted iff ups > threshold, the kind is selected, start <= created <= end + one bucket, and (ticker variant only) topic == ticker |
| `DbInteractions.TickerBuckets` | app/db_interactions.py:58-80 | ticker variant, start's bucket not after end's: the gap fill reaches one bucket past end's, OFFSET 1 drops it, and the rows are exactly end's bucket down to start's bucket, each with its count (NULL when empty) |
| `DbInteractions.PaddedWindowRows` | app/db_interactions.py:58-80 | a gap-filled window [s, e + one bucket] with OFFSET 1, s's bucket not after e's, yields exactly e's bucket down to s's, each with its count |
| `DbInteractions.TickerEndBucketComplete` | app/db_interactions.py:58-77 | every otherwise-matching record of end's bucket at or after start passes the window, so that bucket is counted in full |
| `DbInteractions.NoTickerGapFill` | app/db_interactions.py:86-106 | all-records variant: every bucket from start's to the last before end is returned, with or without records; none outside start's bucket to one past end's |
| `DbInteractions.NormalizeAsWritten` | app/db_interactions.py:115-131 | fails exactly on a one-row fetch; otherwise the rows in order with NULL as 0 (an empty fetch gives an empty series) |
| `DbInteractions.MentionTimeseriesAsWritten` | app/db_interactions.py:39-145 | `get_mention_timeseries` as written: fails exactly when the query returns one row; otherwise it equals the intended series |
| `DbInteractions.SameBucketCrashes` | app/db_interactions.py:63-131 | ticker variant, start and end in the same bucket (in either order): the code as written fails |
| `DbInteractions.StartEqualsEndCrashes` | app/db_interactions.py:122-131 | ticker variant with start == end: exactly one row is fetched and the code as written fails |
| `DbInteractions.MentionTimeseries` | app/db_interactions.py:39-145 | with the intended normalisation (the fetched rows in order, NULL as 0): the series' times strictly decrease and its volumes are >= 0 |
| `DbInteractions.MentionTimeseriesEntries` | app/db_interactions.py:58-145 | ticker variant, start's bucket not after end's: one entry per bucket from end's down to start's, entry i is bucket end/w - i with its count (0 when empty) |
| `DbInteractions.StartEqualsEndSingleBucket` | app/db_interactions.py:108-145 | with the intended normalisation, start == end gives the single entry (bucket of start, its count) |
| `SeriesModel.FillNulls` | app/db_to_timeseries.py:120-125 | one entry per row, keyed by the row's bucket; a NULL count becomes 0, any other count is kept |
| `DbToTimeseries.TimeseriesQuery` | app/db_to_timeseries.py:57-99 | builds a well-formed query with the granularity's width and no OFFSET |
| `DbToTimeseries.TimeseriesFilter` | app/db_to_timeseries.py:57-96 | counted iff ups > threshold, the kind is selected, start <= created < end, and (ticker variant only) topic == ticker |
| `DbToTimeseries.TimeseriesBuckets` | app/db_to_timeseries.py:57-99 | both variants, start < end: the buckets are exactly the last one starting before end down to start's, newest first, with none dropped |
| `DbToTimeseries.HalfOpenKeys` | app/db_to_timeseries.py:70-98 | a window [start, end) gap-filled over its own range emits exactly the buckets from start's to that of end - 1 |
| `DbToTimeseries.TimeseriesEmpty` | app/db_to_timeseries.py:70-98 | an empty or reversed window (end <= start) gives no row at all |
| `DbToTimeseries.Put` | app/db_to_timeseries.py:113 | a new key is appended at the end; for an existing key the new row replaces the row at that key's position and every other row stays |
| `DbToTimeseries.PutKeys` | app/db_to_timeseries.py:113 | the key set gains exactly the key put, and distinct keys stay distinct |
| `DbToTimeseries.IndexOf` | app/db_to_timeseries.py:113 | finds the position holding a present key |
| `DbToTimeseries.DictOf` | app/db_to_timeseries.py:113 | `dict(data)` has at most as many entries as rows |
| `DbToTimeseries.DictOfKeys` | app/db_to_timeseries.py:113 | `dict(data)` has distinct keys, exactly the fetched buckets |
| `DbToTimeseries.DictOfDistinct` | app/db_to_timeseries.py:72-73 | on rows with distinct buckets, as GROUP BY gives, `dict` keeps every row in order |
| `DbToTimeseries.ToSeries` | app/db_to_timeseries.py:113-125 | the series has no more entries than rows, all values >= 0 |
| `DbToTimeseries.ToSeriesKeys` | app/db_to_timeseries.py:113-120 | the series' index holds every fetched bucket and no bucket twice |
| `DbToTimeseries.HalfOpenSeries` | app/db_to_timeseries.py:70-125 | over [start, end), entry i of the series is bucket (end-1)/w - i with its count |
| `DbToTimeseries.Timeseries` | app/db_to_timeseries.py:40-131 | `get_timeseries_df` end to end: a well-formed series with no more entries than fetched rows, all values >= 0 |
| `DbToTimeseries.TimeseriesEntries` | app/db_to_timeseries.py:57-129 | start < end: entry i is bucket ((end-1)/w - i) with the number of counted records in it, 0 where there are none |
| `AppMain.Flatten` | app/main.py:22-24 | holds exactly the tickers of the lists (their order is stated by `AppMain.TickersInOrder`) |
| `AppMain.Tickers` | app/main.py:22-24 | holds exactly the tickers of some subreddit's list |
| `AppMain.TickersInOrder` | app/main.py:18-24 | the flattened list is TSLA, GOOGL, GME, NONE, ETH, ADA, BTC, NONE |
| `AppMain.EveryListEndsWithNone` | app/main.py:18-21 | every subreddit's list is non-empty and ends with NONE |
| `AppMain.TickerArg` | app/main.py:138 | NONE becomes no ticker; every other ticker is passed through unchanged |
| `AppMain.ToRecords` | app/main.py:149-151 | one `{time, volume}` record per series entry, in series order |
| `AppMain.VolAsWritten` | app/main.py:86-151 | the route as written: fails exactly when the query returns one row, otherwise gives the same `data` list as `AppMain.Vol` |
| `AppMain.VolSameBucketFails` | app/main.py:130-151 | a ticker other than NONE with start and end in the same bucket (in either order) gets the failure, not a `data` list |
| `AppMain.Vol` | app/main.py:85-151 | with the intended normalisation: response times strictly decrease and every volume is >= 0 |
| `AppMain.VolTickerEntries` | app/main.py:130-151 | a ticker other than NONE, start's bucket not after end's: one record per bucket from end's down to start's, with its count of mentions |
| `AppMain.VolQuerySelection` | app/main.py:130-147 | NONE selects the subreddit table with no topic condition and no OFFSET; another ticker selects the `_` table, requires that topic, OFFSET 1 |
| `AppMain.VolNoneCoversRange` | app/main.py:130-151 | with NONE and start < end, every bucket from start's to the last before end appears in the response |

## Left out

- The FastAPI applications, routes, CORS and analytics middleware, startup/shutdown hooks, `ping`, `/coins`, `/subs_and_tickers`, `sentiment` and the response models: framework glue.
- `database.py`, `app/database.py` and `app/make_web_data.py`: connection configuration and a wall-clock polling job that writes files.
- The database connection, transactions and `fetch_all`/`fetch`. Each fetch is the evaluation of the structured query over a record sequence, or is passed in as fetched rows.
- Parsing date strings (`strptime(...).timestamp()`, `pd.to_datetime` with `time.mktime`, `date_string_to_timestamp`). Instants are integer epoch seconds; the float and local-timezone effects are not modelled.
- Rendering bucket instants as strings (`strftime` in `main.py`, `astype(str)` in the database helpers). Entries and series keep the bucket's start instant.
- Calendar truncation: `DATE_TRUNC('month'|'week')` and TimescaleDB's week-bucket origin. Buckets are floors to fixed widths counted from the epoch; a month is 2592000 s.
- TimescaleDB's treatment of rows outside an explicit gap-fill range is taken as "emitted as they are"; this is the engine's behaviour, not code of this repository.
- The SQL text, its string interpolation of table names and tickers, and the route patterns on `granularity`, `subreddit` and `gran` (main.py:124, main.py:171, app/main.py:101, app/main.py:126). These patterns are not anchored, so they check a match and not the whole token. `AppMain` takes a parsed `Granularity.Gran`; a `gran` token the pattern admits but `gran_` lacks (such as `Hx`) fails with a KeyError at `gran_[granularity]`, which is not modelled.
- `Api.VolQuery` requires a non-empty coin and one of the four DATE_TRUNC units: the coin is a required path segment (an empty one would leave a dangling `AND` in the SQL), and the model covers the four exact DATE_TRUNC units. The route's pattern (main.py:124) is not anchored and also admits tokens such as `hours` or `days`; these get no span limit from `validate_time` (main.py:41-47 compares with `==`) and reach `DATE_TRUNC` as they are. Such tokens are not modelled.
- The `gran_` interval strings (`'1 hours'`, `'1 week'`, ...) are SQL text; `Granularity.Width` gives their length in seconds.
- AppMain.Vol: uses the intended normalisation of `get_mention_timeseries`, so it returns a one-entry list where the route as written fails on a one-row fetch; that failure is modelled by `AppMain.VolAsWritten`.
- Series and index naming (`rename('time')`, `name = 'volume'`): represented by the field names of `Entry`.
- Float counts before `astype(int)`: counts are natural numbers throughout.
- The `{gran}_data` summary tables are an input of `Api.VolumeMarketSummary`; how they are filled is not part of this repository.
- The `test()` functions of both database helpers: they print.
- Api.VolQuery: its contract states only well-formedness and the width. What the query means is stated by `Api.VolFilter` and `Api.VolRows`.
- DbInteractions.MentionQuery: its contract states only well-formedness and the width. Its meaning is stated by `MentionFilter`, `TickerBuckets`, `TickerEndBucketComplete` and `NoTickerGapFill`.
- DbToTimeseries.TimeseriesQuery: its contract states only well-formedness, the width and the missing OFFSET. Its meaning is stated by `TimeseriesFilter`, `TimeseriesBuckets` and `TimeseriesEntries`.

## Findings

| source | as written | input that shows it | evidently intended | confidence | as-written member | corrected member |
|---|---|---|---|---|---|---|
| app/db_interactions.py:122-131 | `DataFrame(data).set_index('tb').squeeze()` turns a one-row result into a scalar, and the next line reads `df.index`, which a scalar lacks | ticker `ETH`, `start == end` (e.g. both `2021-04-01`), granularity `D`: the gap fill yields two buckets and `OFFSET 1` leaves one row (the same holds whenever start and end share a bucket, `DbInteractions.SameBucketCrashes`) | a one-entry series for that bucket | medium; not executed | `DbInteractions.StartEqualsEndCrashes` | `DbInteractions.StartEqualsEndSingleBucket` |
