/**
  The meaning of the mention-volume SQL queries, stated on values instead of SQL text.

  A query is a record predicate (ups threshold, topic, record kind, time window), a bucket
  width in seconds, a gap-fill mode and an OFFSET. Evaluated over the records of a table it
  yields one row per emitted bucket, newest bucket first. A bucket is emitted when it holds a
  matching record or lies in the gap-fill range; a gap-filled bucket without records carries a
  NULL count, as `time_bucket_gapfill` with `COUNT(*)` does.

  Buckets are numbered by k = t / width (floor division, origin at the epoch); row buckets carry
  the bucket's start instant k * width.
*/
module QuerySemantics {
  import opened Common
  import Arith

  /** A stored submission or comment, reduced to the columns the queries read. */
  datatype Record = Record(created: int, topic: Option<string>, isComment: bool, ups: int)

  /** The `is_comment` / `num_comments` condition chosen from the submissions/comments flags. */
  datatype KindFilter = AnyKind | CommentsOnly | SubmissionsOnly

  /** One end of the `created` window: `>=`/`<=` is Closed, `>`/`<` is Open. */
  datatype Bound = Closed(at: int) | Open(at: int)

  /**
    NoFill: plain GROUP BY, only buckets with records.
    FillWindow: `time_bucket_gapfill` without explicit range, which takes its range from the WHERE bounds.
    FillBetween(start, finish): `time_bucket_gapfill` with explicit start and (exclusive) finish.
  */
  datatype GapFill = NoFill | FillWindow | FillBetween(start: int, finish: int)

  datatype Query = Query(
    table: string,
    minUps: Option<int>,     // UPS > minUps
    topic: Option<string>,   // topic = '...'
    kind: KindFilter,
    lower: Bound,
    upper: Bound,
    width: int,              // bucket width in seconds
    fill: GapFill,
    offset: nat)             // OFFSET n ROWS after ORDER BY bucket DESC
  {
    predicate WellFormed() { width > 0 }
  }

  /** A fetched row: bucket start instant and its COUNT(*), NULL for a gap-filled empty bucket. */
  datatype Row = Row(bucket: int, count: Option<nat>)

  /**
    Both-or-neither of the two flags means no kind condition; exactly one of them keeps only
    that kind.
  */
  function KindFor(submissions: bool, comments: bool): (k: KindFilter)
    ensures k == AnyKind <==> (submissions <==> comments)
    ensures k == CommentsOnly <==> (comments && !submissions)
    ensures k == SubmissionsOnly <==> (submissions && !comments)
  {
    if comments && submissions then AnyKind
    else if comments then CommentsOnly
    else if submissions then SubmissionsOnly
    else AnyKind
  }

  predicate KindAdmits(k: KindFilter, isComment: bool) {
    match k
    case AnyKind => true
    case CommentsOnly => isComment
    case SubmissionsOnly => !isComment
  }

  predicate AboveLower(b: Bound, t: int) {
    match b
    case Closed(a) => a <= t
    case Open(a) => a < t
  }

  predicate BelowUpper(b: Bound, t: int) {
    match b
    case Closed(a) => t <= a
    case Open(a) => t < a
  }

  /** The earliest instant a lower bound admits. */
  function Least(b: Bound): (l: int)
    ensures forall t :: AboveLower(b, t) <==> l <= t
  {
    match b
    case Closed(a) => a
    case Open(a) => a + 1
  }

  /** The latest instant an upper bound admits. */
  function Greatest(b: Bound): (g: int)
    ensures forall t :: BelowUpper(b, t) <==> t <= g
  {
    match b
    case Closed(a) => a
    case Open(a) => a - 1
  }

  /** The WHERE clause; a matching record lies between the earliest and latest admitted instants. */
  predicate Matches(q: Query, r: Record)
    ensures Matches(q, r) ==> Least(q.lower) <= r.created <= Greatest(q.upper)
  {
    && (q.minUps.Some? ==> r.ups > q.minUps.value)
    && (q.topic.Some? ==> r.topic == q.topic)
    && KindAdmits(q.kind, r.isComment)
    && AboveLower(q.lower, r.created)
    && BelowUpper(q.upper, r.created)
  }

  /** COUNT(*) of the matching records that fall in bucket k. */
  function Count(q: Query, recs: seq<Record>, k: int): (c: nat)
    requires q.WellFormed()
    ensures c <= |recs|
  {
    if recs == [] then 0
    else
      (if Matches(q, recs[0]) && recs[0].created / q.width == k then 1 else 0)
      + Count(q, recs[1..], k)
  }

  function CountOrNull(q: Query, recs: seq<Record>, k: int): Option<nat>
    requires q.WellFormed()
  {
    var c := Count(q, recs, k);
    if c > 0 then Some(c) else None
  }

  /** Buckets the gap-fill step adds even when they hold no record. */
  predicate InGap(q: Query, k: int)
    requires q.WellFormed()
  {
    match q.fill
    case NoFill => false
    case FillWindow =>
      Least(q.lower) <= Greatest(q.upper)
      && Least(q.lower) / q.width <= k <= Greatest(q.upper) / q.width
    case FillBetween(s, f) => s < f && s / q.width <= k <= (f - 1) / q.width
  }

  predicate Emitted(q: Query, recs: seq<Record>, k: int)
    requires q.WellFormed()
  {
    InGap(q, k) || Count(q, recs, k) > 0
  }

  /** A range of bucket numbers that holds every emitted bucket. */
  function Lo(q: Query): int
    requires q.WellFormed()
  {
    var l := Least(q.lower) / q.width;
    match q.fill
    case FillBetween(s, _) => if s / q.width < l then s / q.width else l
    case _ => l
  }

  function Hi(q: Query): int
    requires q.WellFormed()
  {
    var h := Greatest(q.upper) / q.width;
    match q.fill
    case FillBetween(_, f) => if (f - 1) / q.width > h then (f - 1) / q.width else h
    case _ => h
  }

  /** The bucket column of fetched rows. */
  function Buckets(rows: seq<Row>): (bs: seq<int>)
    ensures |bs| == |rows| && forall i :: 0 <= i < |rows| ==> bs[i] == rows[i].bucket
  {
    seq(|rows|, i requires 0 <= i < |rows| => rows[i].bucket)
  }

  predicate StrictlyDescending(ks: seq<int>) {
    forall i, j :: 0 <= i < j < |ks| ==> ks[i] > ks[j]
  }

  /** hi, hi - 1, ..., lo. */
  function Descending(hi: int, lo: int): (ks: seq<int>)
    ensures |ks| == if hi < lo then 0 else hi - lo + 1
    ensures forall i :: 0 <= i < |ks| ==> ks[i] == hi - i
    ensures StrictlyDescending(ks)
    ensures forall k :: k in ks <==> lo <= k <= hi
    decreases hi - lo
  {
    if hi < lo then []
    else
      var tail := Descending(hi - 1, lo);
      assert forall j :: 0 <= j < |tail| ==> tail[j] in tail;
      [hi] + tail
  }

  /** The emitted bucket numbers among hi, hi - 1, ..., lo, newest first. */
  function EmittedBetween(q: Query, recs: seq<Record>, hi: int, lo: int): (ks: seq<int>)
    requires q.WellFormed()
    ensures forall k :: k in ks <==> lo <= k <= hi && Emitted(q, recs, k)
    ensures StrictlyDescending(ks)
    decreases hi - lo
  {
    if hi < lo then []
    else
      var rest := EmittedBetween(q, recs, hi - 1, lo);
      assert forall j :: 0 <= j < |rest| ==> rest[j] in rest;
      if Emitted(q, recs, hi) then [hi] + rest else rest
  }

  lemma {:induction false} CountInWindow(q: Query, recs: seq<Record>, k: int)
    requires q.WellFormed() && Count(q, recs, k) > 0
    ensures Least(q.lower) / q.width <= k <= Greatest(q.upper) / q.width
  {
    var r := recs[0];
    if Matches(q, r) && r.created / q.width == k {
      Arith.DivMono(Least(q.lower), r.created, q.width);
      Arith.DivMono(r.created, Greatest(q.upper), q.width);
    } else {
      CountInWindow(q, recs[1..], k);
    }
  }

  /** No record passes a window whose earliest instant lies after its latest one. */
  lemma {:induction false} CountEmptyWindow(q: Query, recs: seq<Record>, k: int)
    requires q.WellFormed() && Least(q.lower) > Greatest(q.upper)
    ensures Count(q, recs, k) == 0
  {
    if recs != [] {
      CountEmptyWindow(q, recs[1..], k);
    }
  }

  lemma EmittedInRange(q: Query, recs: seq<Record>)
    requires q.WellFormed()
    ensures forall k :: Emitted(q, recs, k) ==> Lo(q) <= k <= Hi(q)
  {
    forall k | Emitted(q, recs, k) ensures Lo(q) <= k <= Hi(q) {
      if Count(q, recs, k) > 0 {
        CountInWindow(q, recs, k);
      } else if q.fill.FillWindow? {
      } else {
      }
    }
  }

  /** The emitted bucket numbers, newest first: exactly the buckets with a record or in the gap-fill range. */
  function Keys(q: Query, recs: seq<Record>): (ks: seq<int>)
    requires q.WellFormed()
    ensures StrictlyDescending(ks)
    ensures forall k :: k in ks <==> Emitted(q, recs, k)
  {
    EmittedInRange(q, recs);
    EmittedBetween(q, recs, Hi(q), Lo(q))
  }

  /** The rows of the query before OFFSET, in ORDER BY bucket DESC. */
  function AllRows(q: Query, recs: seq<Record>): (rows: seq<Row>)
    requires q.WellFormed()
  {
    var ks := Keys(q, recs);
    seq(|ks|, i requires 0 <= i < |ks| => Row(ks[i] * q.width, CountOrNull(q, recs, ks[i])))
  }

  /**
    The rows the database returns for `q` over `recs`: the emitted buckets newest first, each with
    its count (NULL when gap-filled and empty), less the first `offset` rows.
  */
  function Eval(q: Query, recs: seq<Record>): (rows: seq<Row>)
    requires q.WellFormed()
    ensures |rows| == if q.offset <= |Keys(q, recs)| then |Keys(q, recs)| - q.offset else 0
    ensures forall i :: 0 <= i < |rows| ==>
      rows[i] == Row(Keys(q, recs)[q.offset + i] * q.width, CountOrNull(q, recs, Keys(q, recs)[q.offset + i]))
  {
    var all := AllRows(q, recs);
    if q.offset <= |all| then all[q.offset..] else []
  }

  /** Rows come newest bucket first, with no bucket twice. */
  lemma EvalNewestFirst(q: Query, recs: seq<Record>)
    requires q.WellFormed()
    ensures forall i, j :: 0 <= i < j < |Eval(q, recs)| ==> Eval(q, recs)[i].bucket > Eval(q, recs)[j].bucket
  {
    var rows, ks := Eval(q, recs), Keys(q, recs);
    forall i, j | 0 <= i < j < |rows| ensures rows[i].bucket > rows[j].bucket {
      Arith.MulStrict(ks[q.offset + i], ks[q.offset + j], q.width);
    }
  }

  /** A non-null count is positive, and a NULL count only occurs on a gap-filled bucket. */
  lemma EvalCounts(q: Query, recs: seq<Record>)
    requires q.WellFormed()
    ensures forall i :: 0 <= i < |Eval(q, recs)| ==>
      (Eval(q, recs)[i].count.Some? ==> Eval(q, recs)[i].count.value > 0)
      && (Eval(q, recs)[i].count.None? ==> InGap(q, Keys(q, recs)[q.offset + i]))
  {
    var ks := Keys(q, recs);
    forall j | 0 <= j < |ks| ensures Emitted(q, recs, ks[j]) {
      assert ks[j] in ks;
    }
  }

  /** When the keys are hi, ..., lo, row i is bucket hi - offset - i with its count. */
  lemma EvalExact(q: Query, recs: seq<Record>, hi: int, lo: int)
    requires q.WellFormed() && q.offset <= hi - lo + 1
    requires Keys(q, recs) == Descending(hi, lo)
    ensures |Eval(q, recs)| == hi - lo + 1 - q.offset
    ensures forall i :: 0 <= i < hi - lo + 1 - q.offset ==>
      Eval(q, recs)[i] == Row((hi - q.offset - i) * q.width, CountOrNull(q, recs, hi - q.offset - i))
  {
  }

  /** Two strictly descending sequences holding the same elements are equal. */
  lemma {:induction false} DescendingUnique(a: seq<int>, b: seq<int>)
    requires StrictlyDescending(a) && StrictlyDescending(b)
    requires forall x :: x in a <==> x in b
    ensures a == b
  {
    assert a != [] ==> a[0] in a;
    assert b != [] ==> b[0] in b;
    if a != [] {
      assert a[0] in a;
      assert b != [];
      assert b[0] in b;
      assert b[0] in a;
      assert a[0] == b[0];
      forall x ensures x in a[1..] <==> x in b[1..] {
        if x in a[1..] {
          var j :| 1 <= j < |a| && a[j] == x;
          assert x != a[0];
          assert x in b;
        }
        if x in b[1..] {
          var j :| 1 <= j < |b| && b[j] == x;
          assert x != b[0];
          assert x in a;
        }
      }
      DescendingUnique(a[1..], b[1..]);
      assert a == [a[0]] + a[1..];
      assert b == [b[0]] + b[1..];
    }
  }

  /**
    A gap fill that takes its range from a non-empty WHERE window emits exactly the buckets from
    the one holding the earliest admitted instant to the one holding the latest.
  */
  lemma FillWindowKeys(q: Query, recs: seq<Record>)
    requires q.WellFormed() && q.fill == FillWindow && Least(q.lower) <= Greatest(q.upper)
    ensures Keys(q, recs) == Descending(Greatest(q.upper) / q.width, Least(q.lower) / q.width)
  {
    var lo, hi := Least(q.lower) / q.width, Greatest(q.upper) / q.width;
    forall k ensures Emitted(q, recs, k) <==> lo <= k <= hi {
      if Count(q, recs, k) > 0 {
        CountInWindow(q, recs, k);
      }
    }
    KeysExact(q, recs, lo, hi);
  }

  /** When the emitted buckets are exactly lo..hi, the keys are hi, hi - 1, ..., lo. */
  lemma KeysExact(q: Query, recs: seq<Record>, lo: int, hi: int)
    requires q.WellFormed()
    requires forall k :: Emitted(q, recs, k) <==> lo <= k <= hi
    ensures Keys(q, recs) == Descending(hi, lo)
  {
    DescendingUnique(Keys(q, recs), Descending(hi, lo));
  }
}
