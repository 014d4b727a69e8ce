/**
 * The window aggregator: for every bucket of the date range it asks the
 * imagery catalog how many scenes pass the cloud filter, skips the bucket
 * when there are none, and otherwise reduces each point's region table to
 * one result row, emitted only when both index means exist.
 *
 * The remote catalog is a parameter: `count` answers the image-count query
 * for a window and cloud threshold, `region` answers the per-point region
 * query; `None` from either is a failed remote call, which aborts the run.
 */
module Aggregate {

  import opened Wrappers
  import opened Samples
  import Buckets

  /** A user-supplied location; the geometry is built from longitude and latitude. */
  datatype Point = Point(lat: real, lon: real, name: string)

  /** One output record: bucket start, location name, NDVI mean, NDWI mean. */
  datatype ResultRow = ResultRow(date: int, location: string, ndvi: real, ndwi: real)

  /** The record keys, in order; the last one carries an embedded space. */
  const ColumnLabels: seq<string> := ["Date", "Location", "Custom_NDVI", "Custom_ND VI"]

  /** A record value: a bucket day, a location name or a band mean. */
  datatype FieldValue = Day(day: int) | Text(text: string) | Number(x: real)

  /** The record a result row is appended as: label `i` is paired with field `i`. */
  function Record(row: ResultRow): (r: seq<(string, FieldValue)>)
    ensures |r| == |ColumnLabels|
    ensures forall i :: 0 <= i < |r| ==> r[i].0 == ColumnLabels[i]
  {
    [("Date", Day(row.date)), ("Location", Text(row.location)), ("Custom_NDVI", Number(row.ndvi)), ("Custom_ND VI", Number(row.ndwi))]
  }

  /** The value of the first entry with key `key`, if any. */
  function Lookup(rec: seq<(string, FieldValue)>, key: string): (r: Option<FieldValue>)
    ensures r.None? <==> forall i :: 0 <= i < |rec| ==> rec[i].0 != key
    ensures r.Some? ==> exists i :: 0 <= i < |rec| && rec[i] == (key, r.value) && forall l :: 0 <= l < i ==> rec[l].0 != key
  {
    if |rec| == 0 then None
    else if rec[0].0 == key then Some(rec[0].1)
    else Lookup(rec[1..], key)
  }

  /**
   * Every field is filed under its own key; in particular the NDWI mean is
   * filed under the key with the embedded space, and a reader looking it up
   * as "Custom_NDWI" finds nothing.
   */
  lemma NdwiUnderLiteralKey(row: ResultRow)
    ensures Lookup(Record(row), "Date") == Some(Day(row.date))
    ensures Lookup(Record(row), "Location") == Some(Text(row.location))
    ensures Lookup(Record(row), "Custom_ND VI") == Some(Number(row.ndwi))
    ensures Lookup(Record(row), "Custom_NDVI") == Some(Number(row.ndvi))
    ensures Lookup(Record(row), "Custom_NDWI").None?
  {
    var rec := Record(row);
    assert |"Date"| == 4 && |"Location"| == 8 && |"Custom_NDVI"| == 11 && |"Custom_ND VI"| == 12;
    assert "Custom_NDVI"[9] != "Custom_NDWI"[9];
    assert rec[1..][1..] == [rec[2], rec[3]] && rec[1..][1..][1..] == [rec[3]];
  }

  /** Why a run aborted: a remote call failed, or a data row lacked an index cell. */
  datatype Fault =
    | CountFailed(day: int)
    | RegionFailed(day: int, point: nat)
    | RowTooShort(day: int, point: nat, column: nat)

  /**
   * The remote imagery catalog, answering the two queries the loop issues.
   * The region query also receives the point's position in the input list,
   * so equal points may get different answers (one of them failing, say).
   */
  datatype Catalog = Catalog(
    count: (Buckets.Window, real) -> Option<nat>,
    region: (Buckets.Window, real, nat, Point) -> Option<Table>)

  /** The submitted form: points, inclusive date range, step in days, cloud threshold. */
  datatype Form = Form(points: seq<Point>, start: int, end: int, interval: int, cloudThreshold: real) {
    /** The bounds the input widgets enforce. */
    predicate Valid() {
      |points| >= 1 && interval >= 1 && cloudThreshold >= 0.0
    }
  }

  type Outcome = Result<seq<ResultRow>, Fault>

  /** Runs `a`, then `b`: the first failure wins, otherwise the rows are appended. */
  function Chain(a: Outcome, b: Outcome): Outcome
  {
    if a.Failure? then a else if b.Failure? then b else Success(a.value + b.value)
  }

  lemma ChainAssociative(a: Outcome, b: Outcome, c: Outcome)
    ensures Chain(Chain(a, b), c) == Chain(a, Chain(b, c))
  {
    if a.Success? && b.Success? && c.Success? {
      assert (a.value + b.value) + c.value == a.value + (b.value + c.value);
    }
  }

  /** An empty, successful step changes nothing on either side. */
  lemma ChainIdentity(a: Outcome)
    ensures Chain(Success([]), a) == a
    ensures Chain(a, Success([])) == a
  {
    if a.Success? {
      assert [] + a.value == a.value;
      assert a.value + [] == a.value;
    }
  }

  /** Some data row (after the header) of `t` has no cell at position `col`. */
  predicate ShortRow(t: Table, col: nat)
  {
    exists i :: 1 <= i < |t| && |t[i]| <= col
  }

  /** Some data row of `t` holds a non-null value at position `col`. */
  predicate HasSample(t: Table, col: nat)
  {
    exists i :: 1 <= i < |t| && |t[i]| > col && t[i][col].Some?
  }

  /**
   * Reduces one point's region table for the bucket starting on `day`.
   * Fails (with the column that was out of range) when a data row is too
   * short; yields a row exactly when both bands have a non-null sample.
   */
  function PointRow(day: int, p: Point, t: Table): (r: Result<Option<ResultRow>, nat>)
    ensures r.Failure? <==> ShortRow(t, NdwiColumn)
    ensures r.Failure? ==> r.error == if ShortRow(t, NdviColumn) then NdviColumn else NdwiColumn
    ensures r.Success? ==> (r.value.Some? <==> HasSample(t, NdviColumn) && HasSample(t, NdwiColumn))
    ensures r.Success? && r.value.Some? ==>
      && r.value.value.date == day
      && r.value.value.location == p.name
      && BandMean(t, NdviColumn) == Success(Some(r.value.value.ndvi))
      && BandMean(t, NdwiColumn) == Success(Some(r.value.value.ndwi))
  {
    match BandMean(t, NdviColumn)
    case Failure(col) => Failure(col)
    case Success(ndvi) =>
      match BandMean(t, NdwiColumn)
      case Failure(col) => Failure(col)
      case Success(ndwi) =>
        if ndvi.Some? && ndwi.Some? then Success(Some(ResultRow(day, p.name, ndvi.value, ndwi.value)))
        else Success(None)
  }

  /** What a point contributes to a bucket: a row, nothing, or a fault. */
  type PointResult = Result<Option<ResultRow>, Fault>

  /**
   * What point `i` contributes to the bucket starting on `day`: its region
   * query, then the reduction of the returned table.
   */
  function PointOutcome(cat: Catalog, f: Form, day: int, i: nat): (r: PointResult)
    requires i < |f.points|
    ensures r.Success? && r.value.Some? ==> r.value.value.date == day && r.value.value.location == f.points[i].name
    ensures r.Failure? ==> !r.error.CountFailed? && r.error.day == day && r.error.point == i
    ensures (r.Success? && r.value.Some?) <==>
      match cat.region(Buckets.WindowAt(day, f.interval), f.cloudThreshold, i, f.points[i])
      case None => false
      case Some(t) => !ShortRow(t, NdwiColumn) && HasSample(t, NdviColumn) && HasSample(t, NdwiColumn)
    ensures r.Failure? <==>
      match cat.region(Buckets.WindowAt(day, f.interval), f.cloudThreshold, i, f.points[i])
      case None => true
      case Some(t) => ShortRow(t, NdwiColumn)
    ensures cat.region(Buckets.WindowAt(day, f.interval), f.cloudThreshold, i, f.points[i]).None? ==>
      r == Failure(RegionFailed(day, i))
    ensures r.Failure? && r.error.RowTooShort? ==>
      var t := cat.region(Buckets.WindowAt(day, f.interval), f.cloudThreshold, i, f.points[i]).value;
      r.error.column == if ShortRow(t, NdviColumn) then NdviColumn else NdwiColumn
    ensures r.Success? && r.value.Some? ==>
      var t := cat.region(Buckets.WindowAt(day, f.interval), f.cloudThreshold, i, f.points[i]).value;
      && BandMean(t, NdviColumn) == Success(Some(r.value.value.ndvi))
      && BandMean(t, NdwiColumn) == Success(Some(r.value.value.ndwi))
  {
    match cat.region(Buckets.WindowAt(day, f.interval), f.cloudThreshold, i, f.points[i])
    case None => Failure(RegionFailed(day, i))
    case Some(t) =>
      match PointRow(day, f.points[i], t)
      case Failure(col) => Failure(RowTooShort(day, i, col))
      case Success(row) => Success(row)
  }

  /** The outcomes of all points for one bucket, in input order. */
  function PointOutcomes(cat: Catalog, f: Form, day: int): seq<PointResult>
  {
    seq(|f.points|, j requires 0 <= j < |f.points| => PointOutcome(cat, f, day, j))
  }

  /** The rows of outcomes `i..`, in order; the first fault aborts. */
  function Collect(outs: seq<PointResult>, i: nat): (r: Outcome)
    requires i <= |outs|
    ensures r.Success? ==> |r.value| <= |outs| - i
    ensures r.Success? ==> forall k :: 0 <= k < |r.value| ==>
      exists j :: i <= j < |outs| && outs[j] == Success(Some(r.value[k]))
    decreases |outs| - i
  {
    if i == |outs| then Success([])
    else
      match outs[i]
      case Failure(e) => Failure(e)
      case Success(row) => Chain(Success(if row.Some? then [row.value] else []), Collect(outs, i + 1))
  }

  /** The positions `i..`, ascending, whose outcome is a row. */
  function Yielding(outs: seq<PointResult>, i: nat): (idx: seq<nat>)
    requires i <= |outs|
    ensures forall k :: 0 <= k < |idx| ==> i <= idx[k] < |outs|
    ensures forall j, k :: 0 <= j < k < |idx| ==> idx[j] < idx[k]
    decreases |outs| - i
  {
    if i == |outs| then []
    else (if outs[i].Success? && outs[i].value.Some? then [i] else []) + Yielding(outs, i + 1)
  }

  /** A position from `i` on is listed exactly when its outcome is a row. */
  lemma {:induction false} YieldingMembers(outs: seq<PointResult>, i: nat, j: nat)
    requires i <= j < |outs|
    ensures j in Yielding(outs, i) <==> outs[j].Success? && outs[j].value.Some?
    decreases |outs| - i
  {
    var rest := Yielding(outs, i + 1);
    if j == i {
      assert i !in rest;
    } else {
      YieldingMembers(outs, i + 1, j);
    }
  }

  /**
   * When collecting succeeds, the k-th row is the row of the k-th position
   * that yields one: one row per yielding outcome, in order, and nothing else.
   */
  lemma {:induction false} CollectSelects(outs: seq<PointResult>, i: nat)
    requires i <= |outs|
    requires Collect(outs, i).Success?
    ensures |Collect(outs, i).value| == |Yielding(outs, i)|
    ensures forall k :: 0 <= k < |Yielding(outs, i)| ==> outs[Yielding(outs, i)[k]] == Success(Some(Collect(outs, i).value[k]))
    decreases |outs| - i
  {
    if i < |outs| {
      var rest := Collect(outs, i + 1);
      var rows := Collect(outs, i);
      var idx := Yielding(outs, i);
      var later := Yielding(outs, i + 1);
      assert outs[i].Success? && rest.Success?;
      CollectSelects(outs, i + 1);
      if outs[i].value.Some? {
        assert rows.value == [outs[i].value.value] + rest.value;
        assert idx == [i] + later;
      } else {
        assert rows.value == [] + rest.value;
        assert idx == [] + later;
      }
    }
  }

  /** Collecting fails exactly when some outcome is a fault, and then with the first fault. */
  lemma {:induction false} CollectFailure(outs: seq<PointResult>, i: nat)
    requires i <= |outs|
    ensures Collect(outs, i).Failure? <==> exists j :: i <= j < |outs| && outs[j].Failure?
    ensures Collect(outs, i).Failure? ==> exists j ::
      && i <= j < |outs|
      && outs[j] == Failure(Collect(outs, i).error)
      && forall l :: i <= l < j ==> outs[l].Success?
    decreases |outs| - i
  {
    if i < |outs| {
      CollectFailure(outs, i + 1);
    }
  }

  /**
   * The rows of the bucket starting on `day`. A failed count query aborts;
   * a window with no image under the cloud threshold yields no rows;
   * otherwise every point is reduced in input order.
   */
  function BucketRows(cat: Catalog, f: Form, day: int): (r: Outcome)
    ensures cat.count(Buckets.WindowAt(day, f.interval), f.cloudThreshold) == Some(0) ==> r == Success([])
    ensures cat.count(Buckets.WindowAt(day, f.interval), f.cloudThreshold).None? ==> r == Failure(CountFailed(day))
    ensures r.Success? ==> |r.value| <= |f.points|
    ensures r.Success? ==> forall k :: 0 <= k < |r.value| ==> r.value[k].date == day
  {
    match cat.count(Buckets.WindowAt(day, f.interval), f.cloudThreshold)
    case None => Failure(CountFailed(day))
    case Some(n) =>
      if n == 0 then Success([])
      else
        var outs := PointOutcomes(cat, f, day);
        var r := Collect(outs, 0);
        assert r.Success? ==> forall k :: 0 <= k < |r.value| ==> r.value[k].date == day by {
          if r.Success? {
            forall k | 0 <= k < |r.value|
              ensures r.value[k].date == day
            {
              var j :| 0 <= j < |outs| && outs[j] == Success(Some(r.value[k]));
              assert outs[j] == PointOutcome(cat, f, day, j);
            }
          }
        }
        r
  }

  /**
   * In a window with imagery, a successful bucket holds one row per point
   * that yields one, in point order; a point yields a row exactly when its
   * region query answers with a well-formed table in which both bands have
   * a non-null sample, and the row names that point.
   */
  lemma BucketSelectsPoints(cat: Catalog, f: Form, day: int)
    requires cat.count(Buckets.WindowAt(day, f.interval), f.cloudThreshold) != Some(0)
    requires BucketRows(cat, f, day).Success?
    ensures var idx := Yielding(PointOutcomes(cat, f, day), 0);
      && |BucketRows(cat, f, day).value| == |idx|
      && forall k :: 0 <= k < |idx| ==>
        PointOutcome(cat, f, day, idx[k]) == Success(Some(BucketRows(cat, f, day).value[k]))
  {
    var outs := PointOutcomes(cat, f, day);
    assert BucketRows(cat, f, day) == Collect(outs, 0);
    CollectSelects(outs, 0);
  }

  /**
   * A bucket fails exactly when its count query fails, or its window has
   * imagery and some point fails; the fault is that of the first failing point.
   */
  lemma BucketFailure(cat: Catalog, f: Form, day: int)
    ensures BucketRows(cat, f, day).Failure? <==>
      match cat.count(Buckets.WindowAt(day, f.interval), f.cloudThreshold)
      case None => true
      case Some(n) => n != 0 && exists j :: 0 <= j < |f.points| && PointOutcome(cat, f, day, j).Failure?
    ensures
      && cat.count(Buckets.WindowAt(day, f.interval), f.cloudThreshold).Some?
      && BucketRows(cat, f, day).Failure?
      ==> exists j ::
        && 0 <= j < |f.points|
        && PointOutcome(cat, f, day, j) == Failure(BucketRows(cat, f, day).error)
        && forall l :: 0 <= l < j ==> PointOutcome(cat, f, day, l).Success?
  {
    var outs := PointOutcomes(cat, f, day);
    CollectFailure(outs, 0);
    var c := cat.count(Buckets.WindowAt(day, f.interval), f.cloudThreshold);
    if c.Some? && c.value != 0 {
      assert BucketRows(cat, f, day) == Collect(outs, 0);
      assert forall j :: 0 <= j < |f.points| ==> outs[j] == PointOutcome(cat, f, day, j);
    }
  }
}
