/**
 * The date buckets the analysis loop walks through. Dates are day ordinals;
 * the cursor starts at `start`, is compared with `end` (inclusive) and moves
 * by exactly `interval` days per iteration, whether or not the window held
 * any imagery. Bucket `k` starts after `k` such steps, on
 * `start + k * interval`, and its window is half-open and `interval` days
 * wide; the upper bound of the last window is not clamped to `end`.
 */
module Buckets {

  import Arith

  /** The half-open window queried for the bucket that starts on `day`. */
  datatype Window = Window(from: int, to: int) {
    /** Date filtering is half-open: a day equal to `to` belongs to the next window. */
    predicate Contains(d: int) {
      from <= d < to
    }
  }

  function WindowAt(day: int, interval: int): Window
  {
    Window(day, day + interval)
  }

  /** The number of buckets visited: floor((end - start) / interval) + 1, or none. */
  function BucketCount(start: int, end: int, interval: int): nat
    requires interval >= 1
  {
    if start <= end then (end - start) / interval + 1 else 0
  }

  /** The cursor after `k` iterations: `k` times "add one interval" to `start`. */
  function CursorAfter(start: int, interval: int, k: nat): int
  {
    if k == 0 then start else CursorAfter(start, interval, k - 1) + interval
  }

  /** Starting one interval later is the same as having taken one more step. */
  lemma {:induction false} CursorShift(start: int, interval: int, k: nat)
    ensures CursorAfter(start + interval, interval, k) == CursorAfter(start, interval, k + 1)
  {
    if k > 0 {
      CursorShift(start, interval, k - 1);
    }
  }

  /** The cursor after `k` steps is `start + k * interval`. */
  lemma {:induction false} CursorClosedForm(start: int, interval: int, k: nat)
    ensures CursorAfter(start, interval, k) == start + k * interval
  {
    if k > 0 {
      CursorClosedForm(start, interval, k - 1);
      Arith.MulStep(k - 1, interval);
    }
  }

  /** A later cursor is at least one whole interval further on. */
  lemma {:induction false} CursorIncreasing(start: int, interval: int, j: nat, k: nat)
    requires interval >= 1 && j < k
    ensures CursorAfter(start, interval, j) + interval <= CursorAfter(start, interval, k)
  {
    if j + 1 < k {
      CursorIncreasing(start, interval, j, k - 1);
    }
  }

  /**
   * The successive cursor values, i.e. the bucket start days, in visiting
   * order: the cursor after each number of steps, as long as it is not past
   * `end`.
   */
  function Starts(start: int, end: int, interval: int): (r: seq<int>)
    requires interval >= 1
    ensures |r| == 0 <==> start > end
    ensures forall k :: 0 <= k < |r| ==> r[k] == CursorAfter(start, interval, k) && r[k] <= end
    ensures |r| > 0 ==> r[|r| - 1] + interval > end
    decreases end - start
  {
    if start > end then []
    else
      var rest := Starts(start + interval, end, interval);
      forall k | 1 <= k < |rest| + 1
        ensures ([start] + rest)[k] == CursorAfter(start, interval, k)
      {
        CursorShift(start, interval, k - 1);
      }
      [start] + rest
  }

  /** A range that is not yet exhausted starts with its first day. */
  lemma StartsUnfold(start: int, end: int, interval: int)
    requires interval >= 1 && start <= end
    ensures Starts(start, end, interval) == [start] + Starts(start + interval, end, interval)
  {
  }

  /** The loop visits floor((end - start) / interval) + 1 buckets, or none. */
  lemma {:induction false} StartsCount(start: int, end: int, interval: int)
    requires interval >= 1
    ensures |Starts(start, end, interval)| == BucketCount(start, end, interval)
    decreases end - start
  {
    if start <= end {
      StartsCount(start + interval, end, interval);
      StepCount(start, end, interval);
    }
  }

  /** Removing one step from the front of the range removes one bucket. */
  lemma StepCount(start: int, end: int, interval: int)
    requires interval >= 1 && start <= end
    ensures BucketCount(start, end, interval) == BucketCount(start + interval, end, interval) + 1
  {
    var n := end - start;
    if start + interval <= end {
      var q, r := n / interval, n % interval;
      assert n == q * interval + r;
      Arith.MulStep(q - 1, interval);
      Arith.DivUnique(n - interval, interval, q - 1, r);
    } else {
      Arith.DivUnique(n, interval, 0, n);
    }
  }

  /** Consecutive windows abut: each ends exactly where the next one begins. */
  lemma WindowsAbut(start: int, end: int, interval: int, k: nat)
    requires interval >= 1
    requires k + 1 < |Starts(start, end, interval)|
    ensures WindowAt(Starts(start, end, interval)[k], interval).to == Starts(start, end, interval)[k + 1]
  {
  }

  /** Bucket starts increase by at least one whole interval. */
  lemma StartsIncreasing(start: int, end: int, interval: int)
    requires interval >= 1
    ensures forall j, k :: 0 <= j < k < |Starts(start, end, interval)| ==>
      Starts(start, end, interval)[j] + interval <= Starts(start, end, interval)[k]
  {
    var r := Starts(start, end, interval);
    forall j, k | 0 <= j < k < |r|
      ensures r[j] + interval <= r[k]
    {
      CursorIncreasing(start, interval, j, k);
    }
  }

  /** A bucket that starts earlier comes earlier in the visiting order. */
  lemma StartsBefore(start: int, end: int, interval: int, l: nat, k: nat)
    requires interval >= 1
    requires l < |Starts(start, end, interval)| && k < |Starts(start, end, interval)|
    requires Starts(start, end, interval)[l] < Starts(start, end, interval)[k]
    ensures l < k
  {
    StartsIncreasing(start, end, interval);
  }

  /** The `k`-th bucket start lies in the range, a whole number of steps from `start`. */
  lemma StartOffset(start: int, end: int, interval: int, k: nat)
    requires interval >= 1 && k < |Starts(start, end, interval)|
    ensures start <= Starts(start, end, interval)[k] <= end
    ensures (Starts(start, end, interval)[k] - start) % interval == 0
    ensures (Starts(start, end, interval)[k] - start) / interval == k
  {
    CursorClosedForm(start, interval, k);
    Arith.MulMultiple(k, interval);
    if k > 0 {
      CursorIncreasing(start, interval, 0, k);
    }
  }

  /** The bucket whose window holds day `d` of the range is number `(d - start) / interval`. */
  lemma StartIndex(start: int, end: int, interval: int, d: int)
    requires interval >= 1 && start <= d <= end
    ensures 0 <= (d - start) / interval < |Starts(start, end, interval)|
    ensures Starts(start, end, interval)[(d - start) / interval] == d - (d - start) % interval
  {
    StartsCount(start, end, interval);
    Arith.DivSplit(d - start, interval);
    Arith.DivMonotone(d - start, end - start, interval);
    CursorClosedForm(start, interval, (d - start) / interval);
  }

  /** A day is a bucket start exactly when it is in range and a whole number of steps from `start`. */
  lemma StartMembership(start: int, end: int, interval: int, d: int)
    requires interval >= 1
    ensures d in Starts(start, end, interval) <==> start <= d <= end && (d - start) % interval == 0
  {
    var r := Starts(start, end, interval);
    if d in r {
      var k :| 0 <= k < |r| && r[k] == d;
      StartOffset(start, end, interval, k);
    }
    if start <= d <= end && (d - start) % interval == 0 {
      StartIndex(start, end, interval, d);
    }
  }

  /** At most one bucket window holds a given day. */
  lemma WindowUnique(start: int, end: int, interval: int, d: int, j: nat, k: nat)
    requires interval >= 1
    requires j < |Starts(start, end, interval)| && WindowAt(Starts(start, end, interval)[j], interval).Contains(d)
    requires k < |Starts(start, end, interval)| && WindowAt(Starts(start, end, interval)[k], interval).Contains(d)
    ensures j == k
  {
    StartsIncreasing(start, end, interval);
  }

  /**
   * Every day of the user's range `[start, end]` lies in exactly one bucket
   * window: the windows of the visited buckets tile the range.
   */
  lemma WindowsTile(start: int, end: int, interval: int, d: int)
    requires interval >= 1
    requires start <= d <= end
    ensures exists k :: 0 <= k < |Starts(start, end, interval)| && WindowAt(Starts(start, end, interval)[k], interval).Contains(d)
    ensures forall j, k ::
      && 0 <= j < |Starts(start, end, interval)| && WindowAt(Starts(start, end, interval)[j], interval).Contains(d)
      && 0 <= k < |Starts(start, end, interval)| && WindowAt(Starts(start, end, interval)[k], interval).Contains(d)
      ==> j == k
  {
    var r := Starts(start, end, interval);
    var k := (d - start) / interval;
    StartIndex(start, end, interval, d);
    Arith.DivSplit(d - start, interval);
    assert WindowAt(r[k], interval).Contains(d);
    forall j, i | 0 <= j < |r| && 0 <= i < |r| && WindowAt(r[j], interval).Contains(d) && WindowAt(r[i], interval).Contains(d)
      ensures j == i
    {
      WindowUnique(start, end, interval, d, j, i);
    }
  }

  /**
   * Thirty-one days stepped by fifteen give three buckets; the last window
   * reaches fifteen days past the end of the range.
   */
  lemma ThirtyOneDaysByFifteen()
    ensures Starts(1, 31, 15) == [1, 16, 31]
    ensures WindowAt(31, 15) == Window(31, 46)
  {
    var r := Starts(1, 31, 15);
    assert |r| == 3;
    assert r[0] == 1 && r[1] == 16 && r[2] == 31;
  }
}
