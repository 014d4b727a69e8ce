/**
 * The date loop of the analysis: the cursor starts on the first day of the
 * range, each iteration handles the bucket starting at the cursor, and the
 * cursor then moves by exactly one interval until it passes the last day.
 * Rows are only ever appended; the first fault aborts the whole run and
 * no partial table survives.
 *
 * The loop is stated over any bucket function (what one bucket yields,
 * given its start day); the analysis instantiates it with
 * `Aggregate.BucketRows`.
 */
module Submission {

  import opened Wrappers
  import opened Aggregate
  import Buckets
  import Arith

  /** What the bucket starting on a given day yields. */
  type BucketFn = int -> Outcome

  /** Every row a bucket yields is dated on that bucket's start day. */
  ghost predicate DatedByDay(bucket: BucketFn)
  {
    forall d :: bucket(d).Success? ==> forall k :: 0 <= k < |bucket(d).value| ==> bucket(d).value[k].date == d
  }

  /** No bucket yields more than `n` rows. */
  ghost predicate RowsAtMost(bucket: BucketFn, n: nat)
  {
    forall d :: bucket(d).Success? ==> |bucket(d).value| <= n
  }

  /**
   * The loop from cursor position `cursor` on: while the cursor is not past
   * `end`, take its bucket, then advance by exactly one interval.
   */
  function Run(bucket: BucketFn, end: int, interval: int, cursor: int): Outcome
    requires interval >= 1
    decreases end - cursor
  {
    if cursor > end then Success([])
    else Chain(bucket(cursor), Run(bucket, end, interval, cursor + interval))
  }

  /** The buckets of the given start days, processed in order. */
  function Gather(bucket: BucketFn, days: seq<int>): Outcome
  {
    if |days| == 0 then Success([])
    else Chain(bucket(days[0]), Gather(bucket, days[1..]))
  }

  lemma GatherCons(bucket: BucketFn, d: int, days: seq<int>)
    ensures Gather(bucket, [d] + days) == Chain(bucket(d), Gather(bucket, days))
  {
    assert ([d] + days)[1..] == days;
  }

  /**
   * The loop visits exactly the buckets of `Buckets.Starts`, in order, and
   * which days those are depends only on the range and the interval, not
   * on what any bucket yielded.
   */
  lemma {:induction false} RunIsGather(bucket: BucketFn, end: int, interval: int, cursor: int)
    requires interval >= 1
    ensures Run(bucket, end, interval, cursor) == Gather(bucket, Buckets.Starts(cursor, end, interval))
    decreases end - cursor
  {
    if cursor <= end {
      RunIsGather(bucket, end, interval, cursor + interval);
      Buckets.StartsUnfold(cursor, end, interval);
      GatherCons(bucket, cursor, Buckets.Starts(cursor + interval, end, interval));
    }
  }

  /**
   * Rows only ever go after the rows of earlier buckets: from a cursor on,
   * every row is dated between the cursor and the end of the range, and
   * dates never decrease.
   */
  lemma {:induction false} RunDated(bucket: BucketFn, end: int, interval: int, cursor: int)
    requires interval >= 1
    requires DatedByDay(bucket)
    requires Run(bucket, end, interval, cursor).Success?
    ensures forall k :: 0 <= k < |Run(bucket, end, interval, cursor).value| ==>
      cursor <= Run(bucket, end, interval, cursor).value[k].date <= end
    ensures forall j, k :: 0 <= j < k < |Run(bucket, end, interval, cursor).value| ==>
      Run(bucket, end, interval, cursor).value[j].date <= Run(bucket, end, interval, cursor).value[k].date
    decreases end - cursor
  {
    if cursor <= end {
      var head := bucket(cursor);
      var tail := Run(bucket, end, interval, cursor + interval);
      RunDated(bucket, end, interval, cursor + interval);
      var rows := head.value + tail.value;
      assert Run(bucket, end, interval, cursor).value == rows;
      forall k | 0 <= k < |rows|
        ensures cursor <= rows[k].date <= end
      {
        if k >= |head.value| {
          assert rows[k] == tail.value[k - |head.value|];
        }
      }
      forall j, k | 0 <= j < k < |rows|
        ensures rows[j].date <= rows[k].date
      {
        if k < |head.value| {
          assert rows[j].date == cursor == rows[k].date;
        } else if j >= |head.value| {
          assert rows[j] == tail.value[j - |head.value|];
          assert rows[k] == tail.value[k - |head.value|];
        } else {
          assert rows[k] == tail.value[k - |head.value|];
        }
      }
    }
  }

  /** The rows dated `d`, in their original order. */
  function RowsDated(rows: seq<ResultRow>, d: int): seq<ResultRow>
  {
    if |rows| == 0 then []
    else (if rows[0].date == d then [rows[0]] else []) + RowsDated(rows[1..], d)
  }

  lemma {:induction false} RowsDatedAppend(a: seq<ResultRow>, b: seq<ResultRow>, d: int)
    ensures RowsDated(a + b, d) == RowsDated(a, d) + RowsDated(b, d)
    decreases |a|
  {
    if |a| == 0 {
      assert a + b == b;
    } else {
      var c := a + b;
      var h := if a[0].date == d then [a[0]] else [];
      assert c[0] == a[0];
      assert c[1..] == a[1..] + b;
      RowsDatedAppend(a[1..], b, d);
      assert RowsDated(c, d) == h + RowsDated(c[1..], d);
      assert RowsDated(a, d) == h + RowsDated(a[1..], d);
      assert h + (RowsDated(a[1..], d) + RowsDated(b, d)) == (h + RowsDated(a[1..], d)) + RowsDated(b, d);
    }
  }

  lemma {:induction false} RowsDatedAll(rows: seq<ResultRow>, d: int)
    requires forall k :: 0 <= k < |rows| ==> rows[k].date == d
    ensures RowsDated(rows, d) == rows
    decreases |rows|
  {
    if |rows| > 0 {
      RowsDatedAll(rows[1..], d);
    }
  }

  lemma {:induction false} RowsDatedNone(rows: seq<ResultRow>, d: int)
    requires forall k :: 0 <= k < |rows| ==> rows[k].date != d
    ensures RowsDated(rows, d) == []
    decreases |rows|
  {
    if |rows| > 0 {
      RowsDatedNone(rows[1..], d);
    }
  }

  lemma {:induction false} RowsDatedKeeps(rows: seq<ResultRow>, d: int, k: nat)
    requires k < |rows|
    ensures rows[k].date == d ==> rows[k] in RowsDated(rows, d)
    decreases |rows|
  {
    if k > 0 {
      RowsDatedKeeps(rows[1..], d, k - 1);
    }
  }

  /** Every row of a successful run over `days` is dated on one of those days. */
  lemma {:induction false} GatherDates(bucket: BucketFn, days: seq<int>)
    requires DatedByDay(bucket)
    requires Gather(bucket, days).Success?
    ensures forall k :: 0 <= k < |Gather(bucket, days).value| ==> Gather(bucket, days).value[k].date in days
    decreases |days|
  {
    if |days| > 0 {
      var head := bucket(days[0]);
      var tail := Gather(bucket, days[1..]);
      GatherDates(bucket, days[1..]);
      var rows := head.value + tail.value;
      assert Gather(bucket, days).value == rows;
      forall k | 0 <= k < |rows|
        ensures rows[k].date in days
      {
        if k < |head.value| {
          assert rows[k].date == days[0];
        } else {
          assert rows[k] == tail.value[k - |head.value|];
          assert rows[k].date in days[1..];
        }
      }
    }
  }

  /**
   * Over strictly increasing start days, the rows of a successful run that
   * carry day `days[i]` are exactly the rows of that bucket.
   */
  lemma {:induction false} GatherBucket(bucket: BucketFn, days: seq<int>, i: nat)
    requires DatedByDay(bucket)
    requires forall j, k :: 0 <= j < k < |days| ==> days[j] < days[k]
    requires i < |days|
    requires Gather(bucket, days).Success?
    ensures bucket(days[i]) == Success(RowsDated(Gather(bucket, days).value, days[i]))
    decreases |days|
  {
    var head := bucket(days[0]);
    var tail := Gather(bucket, days[1..]);
    var later := days[1..];
    assert Gather(bucket, days).value == head.value + tail.value;
    RowsDatedAppend(head.value, tail.value, days[i]);
    if i == 0 {
      GatherDates(bucket, later);
      forall k | 0 <= k < |tail.value|
        ensures tail.value[k].date != days[0]
      {
        var j :| 0 <= j < |later| && later[j] == tail.value[k].date;
        assert days[j + 1] == tail.value[k].date;
      }
      RowsDatedAll(head.value, days[0]);
      RowsDatedNone(tail.value, days[0]);
      assert head.value + [] == head.value;
    } else {
      assert later[i - 1] == days[i];
      assert forall j, k :: 0 <= j < k < |later| ==> later[j] < later[k] by {
        forall j, k | 0 <= j < k < |later|
          ensures later[j] < later[k]
        {
          assert later[j] == days[j + 1] && later[k] == days[k + 1];
        }
      }
      RowsDatedNone(head.value, days[i]);
      GatherBucket(bucket, later, i - 1);
      assert [] + RowsDated(tail.value, days[i]) == RowsDated(tail.value, days[i]);
    }
  }

  /** The run over the given days fails exactly when some bucket fails, and then with the first bucket's fault. */
  lemma {:induction false} GatherFailure(bucket: BucketFn, days: seq<int>)
    ensures Gather(bucket, days).Failure? <==> exists k :: 0 <= k < |days| && bucket(days[k]).Failure?
    ensures Gather(bucket, days).Failure? ==> exists k ::
      && 0 <= k < |days|
      && bucket(days[k]) == Failure(Gather(bucket, days).error)
      && forall l :: 0 <= l < k ==> bucket(days[l]).Success?
    decreases |days|
  {
    if |days| > 0 {
      var later := days[1..];
      GatherFailure(bucket, later);
      if Gather(bucket, later).Failure? {
        var k :| 0 <= k < |later| && bucket(later[k]) == Failure(Gather(bucket, later).error)
          && forall l :: 0 <= l < k ==> bucket(later[l]).Success?;
        assert days[k + 1] == later[k];
        assert forall l :: 1 <= l < k + 1 ==> days[l] == later[l - 1];
      }
      if exists k :: 0 <= k < |later| && bucket(later[k]).Failure? {
        var k :| 0 <= k < |later| && bucket(later[k]).Failure?;
        assert days[k + 1] == later[k];
      }
      if exists k :: 0 <= k < |days| && bucket(days[k]).Failure? {
        var k :| 0 <= k < |days| && bucket(days[k]).Failure?;
        if k > 0 {
          assert later[k - 1] == days[k];
        }
      }
    }
  }

  lemma RowsAtMostAt(bucket: BucketFn, n: nat, d: int)
    requires RowsAtMost(bucket, n)
    requires bucket(d).Success?
    ensures |bucket(d).value| <= n
  {
  }

  /** A successful run over `days` has at most `n` rows per day when no bucket yields more. */
  lemma {:induction false} GatherSize(bucket: BucketFn, days: seq<int>, n: nat)
    requires RowsAtMost(bucket, n)
    requires Gather(bucket, days).Success?
    ensures |Gather(bucket, days).value| <= |days| * n
    decreases |days|
  {
    if |days| > 0 {
      var head := bucket(days[0]);
      var tail := Gather(bucket, days[1..]);
      assert head.Success? && tail.Success?;
      RowsAtMostAt(bucket, n, days[0]);
      GatherSize(bucket, days[1..], n);
      Arith.MulStep(|days[1..]|, n);
      assert Gather(bucket, days).value == head.value + tail.value;
    }
  }

  // ---------------------------------------------------------------------
  // The analysis: the loop over the form's range with the catalog's buckets.
  // ---------------------------------------------------------------------

  /** The bucket function of the analysis. */
  function BucketsOf(cat: Catalog, f: Form): BucketFn
  {
    d => BucketRows(cat, f, d)
  }

  /** The whole analysis: the loop started on the first day of the range. */
  function Analysis(cat: Catalog, f: Form): Outcome
    requires f.interval >= 1
  {
    Run(BucketsOf(cat, f), f.end, f.interval, f.start)
  }

  /** The catalog's buckets date their rows on their start day and yield no more rows than there are points. */
  lemma BucketsOfShape(cat: Catalog, f: Form)
    ensures DatedByDay(BucketsOf(cat, f))
    ensures RowsAtMost(BucketsOf(cat, f), |f.points|)
  {
    var bucket := BucketsOf(cat, f);
    forall d | bucket(d).Success?
      ensures forall k :: 0 <= k < |bucket(d).value| ==> bucket(d).value[k].date == d
      ensures |bucket(d).value| <= |f.points|
    {
      assert bucket(d) == BucketRows(cat, f, d);
    }
    assert DatedByDay(bucket);
    assert RowsAtMost(bucket, |f.points|);
  }

  /** One iteration of the loop: the bucket at the cursor, then the rest from the next cursor. */
  lemma RunStep(bucket: BucketFn, end: int, interval: int, cursor: int)
    requires interval >= 1 && cursor <= end
    ensures Run(bucket, end, interval, cursor) == Chain(bucket(cursor), Run(bucket, end, interval, cursor + interval))
  {
  }

  /**
   * One loop iteration keeps the rows gathered so far plus the rest of the
   * run equal to the whole run; a failing bucket is the whole run's outcome.
   */
  lemma RunAdvance(bucket: BucketFn, end: int, interval: int, cursor: int, rows: seq<ResultRow>, whole: Outcome)
    requires interval >= 1 && cursor <= end
    requires Chain(Success(rows), Run(bucket, end, interval, cursor)) == whole
    ensures bucket(cursor).Failure? ==> whole == bucket(cursor)
    ensures bucket(cursor).Success? ==>
      Chain(Success(rows + bucket(cursor).value), Run(bucket, end, interval, cursor + interval)) == whole
  {
    RunStep(bucket, end, interval, cursor);
    ChainAssociative(Success(rows), bucket(cursor), Run(bucket, end, interval, cursor + interval));
  }

  /**
   * For buckets that date their rows on their start day, the rows a
   * successful run reports for a visited start `d` are exactly bucket `d`'s
   * rows: no other bucket contributes rows dated `d`.
   */
  lemma RunBucket(bucket: BucketFn, start: int, end: int, interval: int, d: int)
    requires interval >= 1 && DatedByDay(bucket)
    requires Run(bucket, end, interval, start).Success?
    requires d in Buckets.Starts(start, end, interval)
    ensures bucket(d) == Success(RowsDated(Run(bucket, end, interval, start).value, d))
  {
    var s := Buckets.Starts(start, end, interval);
    RunIsGather(bucket, end, interval, start);
    Buckets.StartsIncreasing(start, end, interval);
    var i :| 0 <= i < |s| && s[i] == d;
    GatherBucket(bucket, s, i);
  }

  /**
   * For buckets that date their rows on their start day and yield at most
   * `n` rows, a successful run lists rows by bucket: every date is a visited
   * start, dates never decrease, and no date carries more than `n` rows.
   */
  lemma RunOrdered(bucket: BucketFn, start: int, end: int, interval: int, n: nat)
    requires interval >= 1 && DatedByDay(bucket) && RowsAtMost(bucket, n)
    requires Run(bucket, end, interval, start).Success?
    ensures forall k :: 0 <= k < |Run(bucket, end, interval, start).value| ==>
      Run(bucket, end, interval, start).value[k].date in Buckets.Starts(start, end, interval)
    ensures forall j, k :: 0 <= j < k < |Run(bucket, end, interval, start).value| ==>
      Run(bucket, end, interval, start).value[j].date <= Run(bucket, end, interval, start).value[k].date
    ensures |Run(bucket, end, interval, start).value| <= Buckets.BucketCount(start, end, interval) * n
    ensures forall d :: |RowsDated(Run(bucket, end, interval, start).value, d)| <= n
  {
    var s := Buckets.Starts(start, end, interval);
    Buckets.StartsCount(start, end, interval);
    RunDated(bucket, end, interval, start);
    RunIsGather(bucket, end, interval, start);
    GatherDates(bucket, s);
    GatherSize(bucket, s, n);
    var rows := Run(bucket, end, interval, start).value;
    forall d
      ensures |RowsDated(rows, d)| <= n
    {
      if d in s {
        RunBucket(bucket, start, end, interval, d);
        RowsAtMostAt(bucket, n, d);
      } else {
        RowsDatedNone(rows, d);
      }
    }
  }

  /**
   * The rows a successful analysis reports for a bucket start `d` are
   * exactly that bucket's rows, and no other bucket contributes rows dated `d`.
   */
  lemma AnalysisBucket(cat: Catalog, f: Form, d: int)
    requires f.interval >= 1
    ensures Analysis(cat, f).Success? && d in Buckets.Starts(f.start, f.end, f.interval) ==>
      BucketRows(cat, f, d) == Success(RowsDated(Analysis(cat, f).value, d))
  {
    if Analysis(cat, f).Success? && d in Buckets.Starts(f.start, f.end, f.interval) {
      BucketsOfShape(cat, f);
      RunBucket(BucketsOf(cat, f), f.start, f.end, f.interval, d);
      assert BucketsOf(cat, f)(d) == BucketRows(cat, f, d);
    }
  }

  /**
   * A window with no image under the cloud threshold contributes no row
   * for any point.
   */
  lemma EmptyWindowSkipped(cat: Catalog, f: Form, d: int)
    requires f.interval >= 1
    ensures
      && Analysis(cat, f).Success?
      && d in Buckets.Starts(f.start, f.end, f.interval)
      && cat.count(Buckets.WindowAt(d, f.interval), f.cloudThreshold) == Some(0)
      ==> forall k :: 0 <= k < |Analysis(cat, f).value| ==> Analysis(cat, f).value[k].date != d
  {
    if
      && Analysis(cat, f).Success?
      && d in Buckets.Starts(f.start, f.end, f.interval)
      && cat.count(Buckets.WindowAt(d, f.interval), f.cloudThreshold) == Some(0)
    {
      var rows := Analysis(cat, f).value;
      AnalysisBucket(cat, f, d);
      assert RowsDated(rows, d) == [];
      forall k | 0 <= k < |rows|
        ensures rows[k].date != d
      {
        RowsDatedKeeps(rows, d, k);
      }
    }
  }

  /**
   * In a bucket with imagery, the rows a successful analysis dates `d` are,
   * in order, the rows of the points that yield one (see
   * `Aggregate.BucketSelectsPoints` for when a point yields).
   */
  lemma AnalysisSelectsPoints(cat: Catalog, f: Form, d: int)
    requires f.interval >= 1
    ensures
      && Analysis(cat, f).Success?
      && d in Buckets.Starts(f.start, f.end, f.interval)
      && cat.count(Buckets.WindowAt(d, f.interval), f.cloudThreshold) != Some(0)
      ==> var idx := Yielding(PointOutcomes(cat, f, d), 0);
        && |RowsDated(Analysis(cat, f).value, d)| == |idx|
        && forall k :: 0 <= k < |idx| ==>
          PointOutcome(cat, f, d, idx[k]) == Success(Some(RowsDated(Analysis(cat, f).value, d)[k]))
  {
    if
      && Analysis(cat, f).Success?
      && d in Buckets.Starts(f.start, f.end, f.interval)
      && cat.count(Buckets.WindowAt(d, f.interval), f.cloudThreshold) != Some(0)
    {
      AnalysisBucket(cat, f, d);
      BucketSelectsPoints(cat, f, d);
    }
  }

  /**
   * A successful analysis lists rows by bucket: every date is a bucket
   * start, dates never decrease, and no date carries more rows than there
   * are points.
   */
  lemma AnalysisOrdered(cat: Catalog, f: Form)
    requires f.interval >= 1
    ensures Analysis(cat, f).Success? ==>
      && (forall k :: 0 <= k < |Analysis(cat, f).value| ==>
        Analysis(cat, f).value[k].date in Buckets.Starts(f.start, f.end, f.interval))
      && (forall j, k :: 0 <= j < k < |Analysis(cat, f).value| ==>
        Analysis(cat, f).value[j].date <= Analysis(cat, f).value[k].date)
      && |Analysis(cat, f).value| <= Buckets.BucketCount(f.start, f.end, f.interval) * |f.points|
      && forall d :: |RowsDated(Analysis(cat, f).value, d)| <= |f.points|
  {
    if Analysis(cat, f).Success? {
      BucketsOfShape(cat, f);
      RunOrdered(BucketsOf(cat, f), f.start, f.end, f.interval, |f.points|);
    }
  }

  /**
   * A run aborts exactly when some visited bucket fails, and it reports the
   * fault of the earliest such bucket.
   */
  lemma RunFailure(bucket: BucketFn, start: int, end: int, interval: int)
    requires interval >= 1
    ensures Run(bucket, end, interval, start).Failure? <==>
      exists d :: d in Buckets.Starts(start, end, interval) && bucket(d).Failure?
    ensures Run(bucket, end, interval, start).Failure? ==> exists d ::
      && d in Buckets.Starts(start, end, interval)
      && bucket(d) == Failure(Run(bucket, end, interval, start).error)
      && forall e :: e in Buckets.Starts(start, end, interval) && e < d ==> bucket(e).Success?
  {
    var s := Buckets.Starts(start, end, interval);
    RunIsGather(bucket, end, interval, start);
    GatherFailure(bucket, s);
    if exists d :: d in s && bucket(d).Failure? {
      var d :| d in s && bucket(d).Failure?;
      var k :| 0 <= k < |s| && s[k] == d;
      assert bucket(s[k]).Failure?;
    }
    if Run(bucket, end, interval, start).Failure? {
      var k :| 0 <= k < |s| && bucket(s[k]) == Failure(Gather(bucket, s).error)
        && forall l :: 0 <= l < k ==> bucket(s[l]).Success?;
      forall e | e in s && e < s[k]
        ensures bucket(e).Success?
      {
        var l :| 0 <= l < |s| && s[l] == e;
        Buckets.StartsBefore(start, end, interval, l, k);
      }
      assert s[k] in s;
    }
  }

  /**
   * The analysis aborts exactly when some bucket's queries or reduction
   * fail, and it reports the fault of the earliest such bucket.
   */
  lemma AnalysisFailure(cat: Catalog, f: Form)
    requires f.interval >= 1
    ensures Analysis(cat, f).Failure? <==>
      exists d :: d in Buckets.Starts(f.start, f.end, f.interval) && BucketRows(cat, f, d).Failure?
    ensures Analysis(cat, f).Failure? ==> exists d ::
      && d in Buckets.Starts(f.start, f.end, f.interval)
      && BucketRows(cat, f, d) == Failure(Analysis(cat, f).error)
      && forall e :: e in Buckets.Starts(f.start, f.end, f.interval) && e < d ==> BucketRows(cat, f, e).Success?
  {
    var bucket := BucketsOf(cat, f);
    assert forall d :: bucket(d) == BucketRows(cat, f, d);
    RunFailure(bucket, f.start, f.end, f.interval);
  }

  /** A point whose region query answers contributes that table's reduction, or its fault. */
  lemma PointOutcomeOfTable(cat: Catalog, f: Form, day: int, i: nat, t: Samples.Table)
    requires i < |f.points|
    requires cat.region(Buckets.WindowAt(day, f.interval), f.cloudThreshold, i, f.points[i]) == Some(t)
    ensures PointRow(day, f.points[i], t).Failure? ==>
      PointOutcomes(cat, f, day)[i] == Failure(RowTooShort(day, i, PointRow(day, f.points[i], t).error))
    ensures PointRow(day, f.points[i], t).Success? ==>
      PointOutcomes(cat, f, day)[i] == Success(PointRow(day, f.points[i], t).value)
  {
  }

  /** Collecting from a point that succeeds appends its row, if any, to the rows so far. */
  lemma CollectKeeps(outs: seq<PointResult>, i: nat, rows: seq<ResultRow>, row: Option<ResultRow>)
    requires i < |outs| && outs[i] == Success(row)
    ensures Chain(Success(rows), Collect(outs, i)) ==
      Chain(Success(rows + if row.Some? then [row.value] else []), Collect(outs, i + 1))
  {
    var found := if row.Some? then [row.value] else [];
    assert Collect(outs, i) == Chain(Success(found), Collect(outs, i + 1));
    ChainAssociative(Success(rows), Success(found), Collect(outs, i + 1));
  }

  /** Collecting from a point that fails ends with its fault, whatever came before. */
  lemma CollectStops(outs: seq<PointResult>, i: nat, rows: seq<ResultRow>, e: Fault)
    requires i < |outs| && outs[i] == Failure(e)
    ensures Chain(Success(rows), Collect(outs, i)) == Failure(e)
  {
  }

  /**
   * One point of a bucket: its region query, then the reduction of the
   * returned table; a failed query or a malformed table is a fault.
   */
  method ReducePoint(cat: Catalog, f: Form, current: int, i: nat) returns (out: PointResult)
    requires i < |f.points|
    ensures out == PointOutcomes(cat, f, current)[i]
  {
    var table := cat.region(Buckets.WindowAt(current, f.interval), f.cloudThreshold, i, f.points[i]);
    if table.None? {
      return Failure(RegionFailed(current, i));
    }
    var reduced := PointRow(current, f.points[i], table.value);
    PointOutcomeOfTable(cat, f, current, i, table.value);
    if reduced.Failure? {
      return Failure(RowTooShort(current, i, reduced.error));
    }
    out := Success(reduced.value);
  }

  /**
   * The point loop of one bucket: each point's region table is reduced in
   * input order and its row, if any, appended; a failed region query or a
   * malformed table ends the bucket with its fault.
   */
  method ReducePoints(cat: Catalog, f: Form, current: int) returns (out: Outcome)
    ensures out == Collect(PointOutcomes(cat, f, current), 0)
  {
    ghost var outs := PointOutcomes(cat, f, current);
    var rows: seq<ResultRow> := [];
    ChainIdentity(Collect(outs, 0));
    var i := 0;
    while i < |f.points|
      invariant 0 <= i <= |f.points|
      invariant Chain(Success(rows), Collect(outs, i)) == Collect(outs, 0)
      decreases |f.points| - i
    {
      var reduced := ReducePoint(cat, f, current, i);
      if reduced.Failure? {
        CollectStops(outs, i, rows, reduced.error);
        return Failure(reduced.error);
      }
      CollectKeeps(outs, i, rows, reduced.value);
      rows := rows + if reduced.value.Some? then [reduced.value.value] else [];
      i := i + 1;
    }
    out := Success(rows);
    ChainIdentity(out);
  }

  /**
   * One bucket of the Submit branch: count the qualifying images of the
   * window, skip it when there are none, otherwise run the point loop.
   */
  method ProcessBucket(cat: Catalog, f: Form, current: int) returns (out: Outcome)
    ensures out == BucketRows(cat, f, current)
  {
    var imageCount := cat.count(Buckets.WindowAt(current, f.interval), f.cloudThreshold);
    if imageCount.None? {
      return Failure(CountFailed(current));
    }
    if imageCount.value == 0 {
      return Success([]);
    }
    out := ReducePoints(cat, f, current);
  }

  /**
   * The date loop of the Submit branch, for any bucket function. The
   * cursor starts on the first day, is compared with the last day
   * (inclusive) and moves by exactly one interval per iteration, whatever
   * the bucket yielded; the bucket's rows are appended. A fault ends the
   * run and discards the rows gathered so far.
   */
  method RunLoop(bucket: BucketFn, start: int, end: int, interval: int) returns (out: Outcome)
    requires interval >= 1
    ensures out == Run(bucket, end, interval, start)
  {
    var results: seq<ResultRow> := [];
    var current := start;
    ChainIdentity(Run(bucket, end, interval, start));
    while current <= end
      invariant Chain(Success(results), Run(bucket, end, interval, current)) == Run(bucket, end, interval, start)
      decreases end - current
    {
      var rows := bucket(current);
      RunAdvance(bucket, end, interval, current, results, Run(bucket, end, interval, start));
      if rows.Failure? {
        return rows;
      }
      results := results + rows.value;
      current := current + interval;
    }
    out := Success(results);
    ChainIdentity(out);
  }

  /** The Submit branch: the date loop over the form's range with the catalog's buckets. */
  method Analyze(cat: Catalog, f: Form) returns (out: Outcome)
    requires f.Valid()
    ensures out == Analysis(cat, f)
  {
    out := RunLoop(BucketsOf(cat, f), f.start, f.end, f.interval);
  }
}
