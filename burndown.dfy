/** The ideal and actual burndown series and the velocity
    (burndown.py:11-13, 118-154, 182-186). */
module Burndown {
  import opened Common
  import opened Cards

  /** COURSE_START, 2021-02-03 00:00 at UTC+1, in seconds since the Unix epoch. */
  const CourseStart: Instant := 1612306800

  /** COURSE_END, 2021-03-21 00:00 at UTC+1, in seconds since the Unix epoch. */
  const CourseEnd: Instant := 1616281200

  /** The course window is 46 days long. */
  lemma CourseLength()
    ensures DayOffset(CourseEnd, CourseStart) == 46
  {
  }

  // ---------------------------------------------------------------------------
  // Sums of story points

  predicate NonNegativePoints(tasks: seq<Task>) {
    forall k :: 0 <= k < |tasks| ==> tasks[k].storyPoints >= 0.0
  }

  /** `sum(t.story_points for t in tasks)` */
  function TotalPoints(tasks: seq<Task>): (r: real)
    ensures NonNegativePoints(tasks) ==> r >= 0.0
  {
    if tasks == [] then 0.0 else TotalPoints(tasks[..|tasks| - 1]) + tasks[|tasks| - 1].storyPoints
  }

  lemma {:induction false} TotalPointsAppend(a: seq<Task>, b: seq<Task>)
    ensures TotalPoints(a + b) == TotalPoints(a) + TotalPoints(b)
    decreases |b|
  {
    if b == [] {
      assert a + b == a;
    } else {
      assert (a + b)[..|a + b| - 1] == a + b[..|b| - 1];
      TotalPointsAppend(a, b[..|b| - 1]);
    }
  }

  // ---------------------------------------------------------------------------
  // The ideal curve

  /** ideal_burndown: `days` entries descending linearly from the total to one
      day's worth of points. A window of zero days divides by zero; a window
      that ends before it starts gives no entries. */
  function IdealBurndown(total: real, start: Instant, end: Instant): (r: Result<seq<real>>)
    ensures r.Err? <==> DayOffset(end, start) == 0
    ensures r.Err? ==> r.error == DivisionByZero
    ensures r.Ok? ==> |r.value| == if DayOffset(end, start) > 0 then DayOffset(end, start) else 0
  {
    var days := DayOffset(end, start);
    if days == 0 then Err(DivisionByZero)
    else
      var rate := total / days as real;
      Ok(seq(if days > 0 then days else 0, i => rate * (days - i) as real))
  }

  /** Entry i of the ideal curve is total * (days - i) / days: it starts at the
      total, drops by the same rate every day, and stops one rate above zero. */
  lemma IdealShape(total: real, start: Instant, end: Instant)
    requires DayOffset(end, start) > 0
    ensures var days := DayOffset(end, start);
            var ideal := IdealBurndown(total, start, end).value;
            && ideal[0] == total
            && ideal[days - 1] == total / days as real
            && (forall i :: 0 <= i < days ==> ideal[i] * days as real == total * (days - i) as real)
            && (forall i :: 0 < i < days ==> ideal[i - 1] - ideal[i] == total / days as real)
  {
    var days := DayOffset(end, start);
    var rate := total / days as real;
    var ideal := IdealBurndown(total, start, end).value;
    assert rate * days as real == total;
    forall i | 0 <= i < days ensures ideal[i] * days as real == total * (days - i) as real {
      assert ideal[i] == rate * (days - i) as real;
      calc {
        ideal[i] * days as real;
        rate * (days - i) as real * days as real;
        (rate * days as real) * (days - i) as real;
      }
    }
  }

  /** With a positive total the ideal curve falls strictly and stays above zero. */
  lemma IdealStrictlyDecreasing(total: real, start: Instant, end: Instant)
    requires DayOffset(end, start) > 0 && total > 0.0
    ensures var ideal := IdealBurndown(total, start, end).value;
            && (forall i, j :: 0 <= i < j < |ideal| ==> ideal[j] < ideal[i])
            && (forall i :: 0 <= i < |ideal| ==> ideal[i] > 0.0)
  {
    var days := DayOffset(end, start);
    var rate := total / days as real;
    var ideal := IdealBurndown(total, start, end).value;
    assert rate > 0.0;
    forall i, j | 0 <= i < j < |ideal| ensures ideal[j] < ideal[i] {
      assert ideal[i] - ideal[j] == rate * (j - i) as real;
    }
    forall i | 0 <= i < |ideal| ensures ideal[i] > 0.0 {
      assert ideal[i] == rate * (days - i) as real;
    }
  }

  // ---------------------------------------------------------------------------
  // Completed points per day

  /** Every task has a completion time. */
  predicate AllDone(tasks: seq<Task>) {
    forall k :: 0 <= k < |tasks| ==> tasks[k].doneAt.Some?
  }

  /** `(task.done_at - COURSE_START).days` */
  function Offset(task: Task, start: Instant): int
    requires task.doneAt.Some?
  {
    DayOffset(task.doneAt.value, start)
  }

  /** The points of the tasks completed on day `d` of the window. */
  function PointsOnDay(tasks: seq<Task>, start: Instant, d: int): real
    requires AllDone(tasks)
  {
    if tasks == [] then 0.0
    else
      var last := tasks[|tasks| - 1];
      PointsOnDay(tasks[..|tasks| - 1], start, d) + (if Offset(last, start) == d then last.storyPoints else 0.0)
  }

  /** The points of the tasks completed on a day `lo <= d < hi`. */
  function PointsBetween(tasks: seq<Task>, start: Instant, lo: int, hi: int): real
    requires AllDone(tasks)
  {
    if tasks == [] then 0.0
    else
      var last := tasks[|tasks| - 1];
      PointsBetween(tasks[..|tasks| - 1], start, lo, hi) + (if lo <= Offset(last, start) < hi then last.storyPoints else 0.0)
  }

  /** A Counter lookup: a missing day counts as zero. */
  function Count(counter: map<int, real>, d: int): real {
    if d in counter then counter[d] else 0.0
  }

  /** The grouping loop of burndown_chart: the Counter `completed_pts_by_day`
      after adding every done task's points under its day offset. */
  method CompletedByDay(done: seq<Task>, start: Instant) returns (byDay: map<int, real>)
    requires AllDone(done)
    ensures forall d :: Count(byDay, d) == PointsOnDay(done, start, d)
    ensures byDay.Keys == set k | 0 <= k < |done| :: Offset(done[k], start)
  {
    byDay := map[];
    for i := 0 to |done|
      invariant forall d :: Count(byDay, d) == PointsOnDay(done[..i], start, d)
      invariant byDay.Keys == set k | 0 <= k < i :: Offset(done[k], start)
    {
      var d := Offset(done[i], start);
      byDay := byDay[d := Count(byDay, d) + done[i].storyPoints];
      assert done[..i + 1][..i] == done[..i];
      assert (set k | 0 <= k < i + 1 :: Offset(done[k], start)) == (set k | 0 <= k < i :: Offset(done[k], start)) + {d};
    }
    assert done[..|done|] == done;
  }

  // ---------------------------------------------------------------------------
  // The actual curve

  /** The actual curve, defined without buckets: on day i the points left are
      the total minus the points of the tasks completed on days 0 to i. */
  function ActualSeries(total: real, done: seq<Task>, start: Instant, days: nat): (r: seq<real>)
    requires AllDone(done)
    ensures |r| == days
  {
    seq(days, i requires 0 <= i < days => total - PointsBetween(done, start, 0, i + 1))
  }

  lemma {:induction false} PointsBetweenEmpty(tasks: seq<Task>, start: Instant, lo: int)
    requires AllDone(tasks)
    ensures PointsBetween(tasks, start, lo, lo) == 0.0
  {
    if tasks != [] {
      PointsBetweenEmpty(tasks[..|tasks| - 1], start, lo);
    }
  }

  /** Extending the range of days by one day adds that day's bucket. */
  lemma {:induction false} PointsBetweenStep(tasks: seq<Task>, start: Instant, lo: int, hi: int)
    requires AllDone(tasks) && lo <= hi
    ensures PointsBetween(tasks, start, lo, hi + 1) == PointsBetween(tasks, start, lo, hi) + PointsOnDay(tasks, start, hi)
  {
    if tasks != [] {
      PointsBetweenStep(tasks[..|tasks| - 1], start, lo, hi);
    }
  }

  /** The running loop of burndown_chart: one entry per day of the window,
      each the points still left after subtracting that day's bucket. */
  method ActualBurndown(total: real, done: seq<Task>, start: Instant, days: nat) returns (burndown: seq<real>)
    requires AllDone(done)
    ensures burndown == ActualSeries(total, done, start, days)
  {
    var byDay := CompletedByDay(done, start);
    var left := total;
    burndown := [];
    PointsBetweenEmpty(done, start, 0);
    for day := 0 to days
      invariant |burndown| == day
      invariant left == total - PointsBetween(done, start, 0, day)
      invariant forall i :: 0 <= i < day ==> burndown[i] == total - PointsBetween(done, start, 0, i + 1)
    {
      PointsBetweenStep(done, start, 0, day);
      left := left - Count(byDay, day);
      burndown := burndown + [left];
    }
  }

  /** The chart data: the ideal curve for the total points of all tasks, and
      the actual curve over as many days. */
  datatype Chart = Chart(ideal: seq<real>, actual: seq<real>)

  /** The computing part of burndown_chart. */
  method BurndownChart(todo: seq<Task>, done: seq<Task>, start: Instant, end: Instant) returns (r: Result<Chart>)
    requires AllDone(done)
    ensures r.Err? <==> DayOffset(end, start) == 0
    ensures r.Err? ==> r.error == DivisionByZero
    ensures r.Ok? ==> r.value.ideal == IdealBurndown(TotalPoints(todo + done), start, end).value
    ensures r.Ok? ==> r.value.actual == ActualSeries(TotalPoints(todo + done), done, start, |r.value.ideal|)
  {
    var total := TotalPoints(todo + done);
    var ideal := IdealBurndown(total, start, end);
    if ideal.Err? {
      return Err(ideal.error);
    }
    var actual := ActualBurndown(total, done, start, |ideal.value|);
    return Ok(Chart(ideal.value, actual));
  }

  // ---------------------------------------------------------------------------
  // What the actual curve promises

  /** Σ_{d < n} bucket[d]: the buckets of days 0 to n - 1 added up. */
  function DailySums(tasks: seq<Task>, start: Instant, n: nat): real
    requires AllDone(tasks)
  {
    if n == 0 then 0.0 else DailySums(tasks, start, n - 1) + PointsOnDay(tasks, start, n - 1)
  }

  /** Entry i of the actual curve is the total minus the buckets of days 0 to i. */
  lemma {:induction false} ActualIsRunningBuckets(total: real, done: seq<Task>, start: Instant, days: nat, i: nat)
    requires AllDone(done) && i < days
    ensures ActualSeries(total, done, start, days)[i] == total - DailySums(done, start, i + 1)
  {
    PointsBetweenIsDailySums(done, start, i + 1);
  }

  lemma {:induction false} PointsBetweenIsDailySums(tasks: seq<Task>, start: Instant, n: nat)
    requires AllDone(tasks)
    ensures PointsBetween(tasks, start, 0, n) == DailySums(tasks, start, n)
  {
    if n == 0 {
      PointsBetweenEmpty(tasks, start, 0);
    } else {
      PointsBetweenIsDailySums(tasks, start, n - 1);
      PointsBetweenStep(tasks, start, 0, n - 1);
    }
  }

  /** With non-negative points, widening the range of days never loses points. */
  lemma {:induction false} PointsBetweenMonotone(tasks: seq<Task>, start: Instant, lo: int, hi: int, hi': int)
    requires AllDone(tasks) && NonNegativePoints(tasks) && hi <= hi'
    ensures PointsBetween(tasks, start, lo, hi) <= PointsBetween(tasks, start, lo, hi')
  {
    if tasks != [] {
      PointsBetweenMonotone(tasks[..|tasks| - 1], start, lo, hi, hi');
    }
  }

  /** With non-negative points the actual curve never goes up. */
  lemma ActualNonIncreasing(total: real, done: seq<Task>, start: Instant, days: nat)
    requires AllDone(done) && NonNegativePoints(done)
    ensures var actual := ActualSeries(total, done, start, days);
            forall i, j :: 0 <= i <= j < days ==> actual[j] <= actual[i]
  {
    forall i, j | 0 <= i <= j < days
      ensures ActualSeries(total, done, start, days)[j] <= ActualSeries(total, done, start, days)[i]
    {
      PointsBetweenMonotone(done, start, 0, i + 1, j + 1);
    }
  }

  /** A task completed before the window or after its last day is never
      subtracted. */
  lemma OutOfWindowIgnored(total: real, done: seq<Task>, task: Task, start: Instant, days: nat)
    requires AllDone(done) && task.doneAt.Some?
    requires Offset(task, start) < 0 || Offset(task, start) >= days
    ensures AllDone(done + [task])
    ensures ActualSeries(total, done + [task], start, days) == ActualSeries(total, done, start, days)
  {
    var more := done + [task];
    assert more[..|more| - 1] == done;
  }

  /** The points of tasks all completed within the range are all their points. */
  lemma {:induction false} PointsBetweenAll(tasks: seq<Task>, start: Instant, lo: int, hi: int)
    requires AllDone(tasks)
    requires forall k :: 0 <= k < |tasks| ==> lo <= Offset(tasks[k], start) < hi
    ensures PointsBetween(tasks, start, lo, hi) == TotalPoints(tasks)
  {
    if tasks != [] {
      PointsBetweenAll(tasks[..|tasks| - 1], start, lo, hi);
    }
  }

  /** When every done task was completed inside the window, the last entry of
      the actual curve is exactly the points of the tasks still to do. */
  lemma FinalEntryIsTodoPoints(todo: seq<Task>, done: seq<Task>, start: Instant, days: nat)
    requires AllDone(done) && days > 0
    requires forall k :: 0 <= k < |done| ==> 0 <= Offset(done[k], start) < days
    ensures ActualSeries(TotalPoints(todo + done), done, start, days)[days - 1] == TotalPoints(todo)
  {
    TotalPointsAppend(todo, done);
    PointsBetweenAll(done, start, 0, days);
  }

  // ---------------------------------------------------------------------------
  // Velocity

  /** The velocity of main: completed points per whole day elapsed since the
      start; no whole day elapsed divides by zero. */
  function Velocity(done: seq<Task>, start: Instant, now: Instant): (r: Result<real>)
    ensures r.Err? <==> DayOffset(now, start) == 0
    ensures r.Err? ==> r.error == DivisionByZero
    ensures r.Ok? ==> r.value * DayOffset(now, start) as real == TotalPoints(done)
  {
    var elapsed := DayOffset(now, start);
    if elapsed == 0 then Err(DivisionByZero) else Ok(TotalPoints(done) / elapsed as real)
  }
}
