/** Replay of a whole scheduler window (scheduler_window.py): the rows' cumulative
    histograms are accepted exactly when one growing run of waits explains all of
    them, and the report then describes every such run. */
module SchedulerWindow {
  import opened Limits
  import opened Wrappers
  import opened Sums
  import opened Histogram
  import opened Percentile

  const SECOND: nat := 1_000_000_000

  // ------------------------------------------------ one interval, and one run

  function Delta(a: seq<int>, b: seq<int>): seq<int>
    requires |a| == |b|
  {
    seq(|a|, k requires 0 <= k < |a| => b[k] - a[k])
  }

  /** The requires that compare two successive histograms. */
  ghost predicate StepAccepted(a: Histogram, b: Histogram)
    requires |a.buckets| == |b.buckets| == BUCKETS && 0 <= b.maximum && BitLength(b.maximum) < BUCKETS
  {
    var buckets, count, total := Delta(a.buckets, b.buckets), b.count - a.count, b.sum - a.sum;
    var changed := a.maximum < b.maximum;
    var (low, high) := SumBounds(buckets, b.maximum, changed);
    && (forall k | 0 <= k < BUCKETS :: 0 <= buckets[k])
    && 0 <= count && Sum(buckets) == count && 0 <= total && a.maximum <= b.maximum
    && (changed ==> buckets[BitLength(b.maximum)] > 0)
    && low <= total <= high
  }

  lemma {:induction false} AcceptedShape(h: Histogram, elapsed: int)
    requires Accepted(h, elapsed)
    ensures Buckets(h.buckets) && 0 <= h.maximum && BitLength(h.maximum) < BUCKETS
    ensures forall k | 0 <= k < BUCKETS && 0 < h.buckets[k] :: k <= BitLength(h.maximum)
  {
    HighestIsMax(h.buckets, BUCKETS);
    if h.count == 0 {
      forall k | 0 <= k < BUCKETS ensures h.buckets[k] == 0 {
        OccupiedBucketBelowSum(h.buckets, k);
      }
    }
  }

  /** A run that explains a, followed by waits that fill the difference, explains b. */
  lemma {:induction false} Append(ws: seq<nat>, a: Histogram, more: seq<nat>, b: Histogram)
    requires Explains(ws, a) && |b.buckets| == BUCKETS
    requires Fits(more, Delta(a.buckets, b.buckets)) && |more| == b.count - a.count && Sum(more) == b.sum - a.sum
    requires b.maximum == if a.maximum < Max(more) then Max(more) else a.maximum
    ensures Explains(ws + more, b)
  {
    FitsConcat(ws, a.buckets, more, Delta(a.buckets, b.buckets));
    assert b.buckets == Plus(a.buckets, Delta(a.buckets, b.buckets));
    SumConcat(ws, more);
    MaxConcat(ws, more);
  }

  lemma {:induction false} DeltaReachable(a: Histogram, b: Histogram, elapsed: int)
    requires Buckets(a.buckets) && Accepted(b, elapsed)
    requires forall k | 0 <= k < BUCKETS :: 0 <= b.buckets[k] - a.buckets[k]
    ensures 0 <= b.maximum && BitLength(b.maximum) < BUCKETS && Reachable(Delta(a.buckets, b.buckets), b.maximum)
  {
    AcceptedShape(b, elapsed);
    assert forall k | 0 <= k < BUCKETS && 0 < Delta(a.buckets, b.buckets)[k] :: 0 < b.buckets[k];
  }

  /** An accepted step can be explained by waits appended to any explanation of
      what came before. */
  lemma {:induction false} StepExtendsRun(
    ws: seq<nat>, a: Histogram, b: Histogram, elapsed: int) returns (more: seq<nat>)
    requires Explains(ws, a) && Accepted(b, elapsed)
    requires BitLength(b.maximum) < BUCKETS && StepAccepted(a, b)
    ensures Explains(ws + more, b)
  {
    var buckets, total := Delta(a.buckets, b.buckets), b.sum - a.sum;
    assert forall k | 0 <= k < BUCKETS :: buckets[k] == b.buckets[k] - a.buckets[k];
    FitsCounts(ws, a.buckets);
    DeltaReachable(a, b, elapsed);
    if a.maximum < b.maximum {
      more := RealiseMaximum(buckets, b.maximum, total);
    } else {
      more := Realise(buckets, b.maximum, total);
      MaxIsGreatest(more);
    }
    Append(ws, a, more, b);
  }

  /** The waits that a run gains fill exactly the difference of its histograms. */
  lemma {:induction false} RunDelta(ws: seq<nat>, a: Histogram, more: seq<nat>, b: Histogram)
    requires Explains(ws, a) && Explains(ws + more, b)
    ensures Fits(more, Delta(a.buckets, b.buckets)) && Sum(more) == b.sum - a.sum
    ensures b.maximum == if a.maximum < Max(more) then Max(more) else a.maximum
  {
    forall w | w in more ensures BitLength(w) < BUCKETS {
      assert w in ws + more;
    }
    FitsConcat(ws, a.buckets, more, Delta(a.buckets, b.buckets));
    assert b.buckets == Plus(a.buckets, Delta(a.buckets, b.buckets));
    SumConcat(ws, more);
    MaxConcat(ws, more);
  }

  lemma {:induction false} MaximumHasBucket(ws: seq<nat>, h: Histogram)
    requires Explains(ws, h)
    ensures BitLength(h.maximum) < BUCKETS
  {
    MaxIsGreatest(ws);
  }

  /** Waits appended to an explained run always make an accepted step. */
  lemma {:induction false} RunMakesStep(ws: seq<nat>, a: Histogram, more: seq<nat>, b: Histogram)
    requires Explains(ws, a) && Explains(ws + more, b)
    ensures BitLength(b.maximum) < BUCKETS && StepAccepted(a, b)
    ensures Fits(more, Delta(a.buckets, b.buckets)) && Sum(more) == b.sum - a.sum
  {
    RunDelta(ws, a, more, b);
    MaximumHasBucket(ws + more, b);
    FilledDelta(more, a, b);
  }

  lemma {:induction false} FilledDelta(more: seq<nat>, a: Histogram, b: Histogram)
    requires |a.buckets| == |b.buckets| == BUCKETS && 0 <= a.maximum <= b.maximum && BitLength(b.maximum) < BUCKETS
    requires Fits(more, Delta(a.buckets, b.buckets)) && Sum(more) == b.sum - a.sum && |more| == b.count - a.count
    requires b.maximum == if a.maximum < Max(more) then Max(more) else a.maximum
    ensures StepAccepted(a, b)
  {
    var buckets := Delta(a.buckets, b.buckets);
    MaxIsGreatest(more);
    NonNegative(more);
    FitsCounts(more, buckets);
    SumsOfWaits(more, buckets, b.maximum);
    if a.maximum < b.maximum {
      SumsWithMaximum(more, buckets, b.maximum);
    }
  }

  /** One append-only run whose prefixes are the rows' cumulative histograms. */
  ghost predicate RunExplains(ws: seq<nat>, hs: seq<Histogram>) {
    && hs != [] && hs[|hs| - 1].count == |ws|
    && (forall i | 0 <= i < |hs| :: 0 <= hs[i].count <= |ws|)
    && (forall i | 0 <= i < |hs| :: Explains(ws[..hs[i].count], hs[i]))
    && (forall i | 0 < i < |hs| :: hs[i - 1].count <= hs[i].count)
  }

  /** No wait recorded by row i is longer than i seconds. */
  ghost predicate InTime(ws: seq<nat>, hs: seq<Histogram>)
    requires RunExplains(ws, hs)
  {
    forall i | 0 <= i < |hs| :: Max(ws[..hs[i].count]) <= i * SECOND
  }

  ghost predicate WithinLimits(hs: seq<Histogram>) {
    forall i | 0 <= i < |hs| :: hs[i].count <= LIMIT && hs[i].sum <= U64_MAX
  }

  ghost predicate StepOk(a: Histogram, b: Histogram) {
    |a.buckets| == |b.buckets| == BUCKETS && 0 <= b.maximum && BitLength(b.maximum) < BUCKETS && StepAccepted(a, b)
  }

  ghost predicate HistogramsAccepted(hs: seq<Histogram>) {
    && hs != []
    && (forall i | 0 <= i < |hs| :: Accepted(hs[i], i * SECOND))
    && (forall i | 0 < i < |hs| :: StepOk(hs[i - 1], hs[i]))
  }

  lemma {:induction false} BuildRun(hs: seq<Histogram>) returns (ws: seq<nat>)
    requires HistogramsAccepted(hs)
    ensures RunExplains(ws, hs)
  {
    var n := |hs| - 1;
    if n == 0 {
      ws := AcceptedIsRealisable(hs[0], 0);
      assert ws[..|ws|] == ws;
    } else {
      var before := BuildRun(hs[..n]);
      WholeRun(before, hs[..n]);
      var more := StepExtendsRun(before, hs[n - 1], hs[n], n * SECOND);
      ws := before + more;
      assert StepOk(hs[n - 1], hs[n]);
      AppendRow(before, more, hs);
    }
  }

  lemma {:induction false} WholeRun(ws: seq<nat>, hs: seq<Histogram>)
    requires RunExplains(ws, hs)
    ensures Explains(ws, hs[|hs| - 1])
  {
    assert ws[..|ws|] == ws;
    assert Explains(ws[..hs[|hs| - 1].count], hs[|hs| - 1]);
  }

  lemma {:induction false} AppendRow(ws: seq<nat>, more: seq<nat>, hs: seq<Histogram>)
    requires |hs| > 1 && RunExplains(ws, hs[..|hs| - 1])
    requires Explains(ws + more, hs[|hs| - 1])
    ensures RunExplains(ws + more, hs)
  {
    var n, run := |hs| - 1, ws + more;
    assert run[..|run|] == run && hs[..n][n - 1] == hs[n - 1];
    forall i | 0 <= i < n ensures 0 <= hs[i].count <= |ws| && run[..hs[i].count] == ws[..hs[i].count] {
      assert hs[..n][i] == hs[i];
    }
    forall i | 0 < i < |hs| ensures hs[i - 1].count <= hs[i].count {
      assert hs[..n][i - 1] == hs[i - 1];
    }
    forall i | 0 <= i < |hs| ensures Explains(run[..hs[i].count], hs[i]) {
      if i < n {
        assert hs[..n][i] == hs[i];
        assert Explains(ws[..hs[..n][i].count], hs[..n][i]);
      }
    }
  }

  /** The histogram checks accept a window of rows exactly when, within the
      numeric limits, one run of waits explains every row and no row reports a
      wait longer than its own elapsed time. */
  lemma {:induction false} HistogramsExact(hs: seq<Histogram>)
    ensures HistogramsAccepted(hs) <==>
            WithinLimits(hs) && HasRun(hs)
  {
    if HistogramsAccepted(hs) {
      var ws := BuildRun(hs);
      forall i | 0 <= i < |hs|
        ensures hs[i].count <= LIMIT && hs[i].sum <= U64_MAX && Max(ws[..hs[i].count]) <= i * SECOND
      {
        assert Accepted(hs[i], i * SECOND);
      }
    }
    if WithinLimits(hs) && exists ws: seq<nat> :: RunExplains(ws, hs) && InTime(ws, hs) {
      var ws: seq<nat> :| RunExplains(ws, hs) && InTime(ws, hs);
      forall i | 0 <= i < |hs| ensures Accepted(hs[i], i * SECOND) {
        RealisableIsAccepted(ws[..hs[i].count], hs[i], i * SECOND);
      }
      forall i | 0 < i < |hs| ensures StepOk(hs[i - 1], hs[i]) {
        IntervalOfRun(ws, hs, i);
      }
    }
  }

  /** The waits that the run recorded during interval i. */
  function Interval(ws: seq<nat>, hs: seq<Histogram>, i: nat): seq<nat>
    requires 0 < i < |hs| && 0 <= hs[i - 1].count <= hs[i].count <= |ws|
  {
    ws[hs[i - 1].count..hs[i].count]
  }

  lemma {:induction false} IntervalOfRun(ws: seq<nat>, hs: seq<Histogram>, i: nat)
    requires RunExplains(ws, hs) && 0 < i < |hs|
    ensures StepOk(hs[i - 1], hs[i])
    ensures Fits(Interval(ws, hs, i), Delta(hs[i - 1].buckets, hs[i].buckets))
    ensures Sum(Interval(ws, hs, i)) == hs[i].sum - hs[i - 1].sum
  {
    assert ws[..hs[i].count] == ws[..hs[i - 1].count] + Interval(ws, hs, i);
    RunMakesStep(ws[..hs[i - 1].count], hs[i - 1], Interval(ws, hs, i), hs[i]);
  }

  // ------------------------------------------------------------------ the rows

  datatype Perf = Perf(enabled: int, running: int, lost: int, minimumEnabled: int)
  datatype Observation = Observation(
    waits: Histogram, events: int, unmatched: int, replaced: int, exited: int, pending: int)
  datatype Row = Row(
    schema: int, index: int, started: int, cutoff: int, readStarted: int, readEnded: int,
    cpuUsec: int, peakRSS: int, startupDiscarded: int, perf: Perf, observation: Observation)

  predicate Integer(x: int, low: int, high: int) {
    low <= x <= high
  }

  predicate RowHeader(row: Row, origin: int, index: int) {
    && row.schema == 2 && row.index == index
    && Integer(row.started, 1, U64_MAX) && Integer(row.cutoff, 1, U64_MAX)
    && Integer(row.readStarted, 1, U64_MAX) && Integer(row.readEnded, 1, U64_MAX)
    && Integer(row.cpuUsec, 0, U64_MAX) && Integer(row.peakRSS, 1, U64_MAX)
    && Integer(row.startupDiscarded, 0, U64_MAX)
    && row.started == origin && row.cutoff == origin + index * SECOND
    && 100_000_000 <= row.readStarted - row.cutoff <= 350_000_000
    && 0 <= row.readEnded - row.readStarted <= 50_000_000
  }

  predicate PerfComplete(perf: Perf, cpuCount: int) {
    && Integer(perf.enabled, 1, U64_MAX) && Integer(perf.running, 1, U64_MAX)
    && Integer(perf.lost, 0, U64_MAX) && Integer(perf.minimumEnabled, 1, U64_MAX)
    && perf.lost == 0 && perf.enabled == perf.running
    && perf.enabled >= cpuCount * 4 * perf.minimumEnabled
  }

  predicate Counters(o: Observation) {
    && Integer(o.events, 0, LIMIT) && Integer(o.unmatched, 0, LIMIT)
    && Integer(o.replaced, 0, LIMIT) && Integer(o.exited, 0, LIMIT)
    && Integer(o.pending, 0, 32768)
  }

  predicate Covered(o: Observation) {
    && o.unmatched <= o.events && o.replaced <= o.events && o.exited <= o.events && o.pending <= o.events
    && o.waits.count + o.unmatched <= o.events
  }

  /** The requires on one row's observation. */
  ghost predicate ObservationAccepted(o: Observation, index: int) {
    Counters(o) && Accepted(o.waits, index * SECOND) && Covered(o)
  }

  predicate ObserverMonotone(prior: Row, row: Row) {
    && row.readStarted > prior.readEnded
    && row.cpuUsec >= prior.cpuUsec && row.peakRSS >= prior.peakRSS
    && row.startupDiscarded >= prior.startupDiscarded
    && row.perf.enabled >= prior.perf.enabled && row.perf.running >= prior.perf.running
    && row.perf.lost >= prior.perf.lost && row.perf.minimumEnabled >= prior.perf.minimumEnabled
  }

  predicate CoverageStep(before: Observation, after: Observation) {
    var events := after.events - before.events;
    var count := after.waits.count - before.waits.count;
    && 0 <= events
    && 0 <= after.unmatched - before.unmatched <= events
    && 0 <= after.replaced - before.replaced <= events
    && 0 <= after.exited - before.exited <= events
    && count <= events && count + (after.unmatched - before.unmatched) <= events
    && before.pending - after.pending <= count + (after.exited - before.exited)
  }

  /** The requires that compare two successive observations. */
  ghost predicate ObservationStep(a: Observation, b: Observation) {
    CoverageStep(a, b) && StepOk(a.waits, b.waits)
  }

  ghost predicate RowAccepted(rows: seq<Row>, i: nat, cpuCount: int)
    requires i < |rows|
  {
    && RowHeader(rows[i], rows[0].started, i) && PerfComplete(rows[i].perf, cpuCount)
    && ObservationAccepted(rows[i].observation, i)
    && (i > 0 ==> ObserverMonotone(rows[i - 1], rows[i]))
    && (i > 0 ==> ObservationStep(rows[i - 1].observation, rows[i].observation))
  }

  ghost predicate WindowAccepted(rows: seq<Row>, seconds: int, cpuCount: int) {
    && 1 <= seconds <= 1800 && 1 <= cpuCount <= 64 && |rows| == seconds + 1
    && forall i | 0 <= i < |rows| :: RowAccepted(rows, i, cpuCount)
  }

  function Histograms(rows: seq<Row>): (hs: seq<Histogram>)
    ensures |hs| == |rows|
  {
    seq(|rows|, i requires 0 <= i < |rows| => rows[i].observation.waits)
  }

  lemma {:induction false} AcceptedWindowHistograms(rows: seq<Row>, seconds: int, cpuCount: int)
    requires WindowAccepted(rows, seconds, cpuCount)
    ensures HistogramsAccepted(Histograms(rows))
  {
    var hs := Histograms(rows);
    forall i | 0 <= i < |hs| ensures Accepted(hs[i], i * SECOND) {
      assert RowAccepted(rows, i, cpuCount);
    }
    forall i | 0 < i < |hs| ensures StepOk(hs[i - 1], hs[i]) {
      assert RowAccepted(rows, i, cpuCount);
    }
  }

  // ---------------------------------------------------------------- the report

  datatype DistributionState = Observed | NoneObserved
  datatype Distribution = Distribution(
    state: DistributionState, count: int, sum: int, mean: Option<Ratio>,
    p50: PercentileResult, p95: PercentileResult, p99: PercentileResult)
  datatype Coverage = Coverage(events: int, unmatched: int, replaced: int, exited: int)
  datatype IntervalReport = IntervalReport(
    index: int, waits: Distribution, coverage: Coverage, pendingAtEnd: int)
  datatype Report = Report(
    intervals: seq<IntervalReport>, waits: Distribution, coverage: Coverage,
    pendingAtStart: int, pendingAtEnd: int, cpuUsec: int, peakRSS: int, lower: Ratio, upper: Ratio)

  /** The range is present exactly when there are waits, and encloses their
      nearest-rank percentile. */
  ghost predicate Encloses(r: PercentileResult, ws: seq<nat>, percent: nat)
    requires 1 <= percent <= 100
  {
    if ws == [] then r == NoWaits
    else r.Enclosed? && r.range.lower <= NearestRank(ws, percent) <= r.range.upper
  }

  /** State, count, sum and mean are those of the waits; the percentiles are enclosed. */
  ghost predicate Describes(d: Distribution, ws: seq<nat>) {
    && (d.state.Observed? <==> ws != []) && d.count == |ws| && d.sum == Sum(ws)
    && d.mean == (if ws == [] then None else Some(Ratio(Sum(ws), |ws|)))
    && Encloses(d.p50, ws, 50) && Encloses(d.p95, ws, 95) && Encloses(d.p99, ws, 99)
  }

  /** What the report says holds of every run that explains the rows. */
  ghost predicate ReportDescribes(report: Report, ws: seq<nat>, hs: seq<Histogram>)
    requires RunExplains(ws, hs)
  {
    && |report.intervals| == |hs| - 1
    && (forall i | 0 < i < |hs| :: Describes(report.intervals[i - 1].waits, Interval(ws, hs, i)))
    && Describes(report.waits, ws[hs[0].count..])
  }

  /** Some run of waits, none longer than its row's elapsed time, explains every row. */
  ghost predicate HasRun(hs: seq<Histogram>) {
    exists ws: seq<nat> :: RunExplains(ws, hs) && InTime(ws, hs)
  }

  /** The report is true of every run that explains the rows. */
  ghost predicate Truthful(report: Report, hs: seq<Histogram>) {
    forall ws: seq<nat> | RunExplains(ws, hs) :: ReportDescribes(report, ws, hs)
  }

  method ComputeDistribution(buckets: seq<int>, total: int) returns (d: Distribution)
    requires Buckets(buckets)
    ensures forall ws: seq<nat> | Fits(ws, buckets) && Sum(ws) == total :: Describes(d, ws)
    ensures d.count == Sum(buckets) && d.sum == total
  {
    var p50 := PercentileBounds(buckets, 50);
    var p95 := PercentileBounds(buckets, 95);
    var p99 := PercentileBounds(buckets, 99);
    var count := Sum(buckets);
    d := Distribution(if count != 0 then Observed else NoneObserved, count, total,
                      if count != 0 then Some(Ratio(total, count)) else None, p50, p95, p99);
    forall ws: seq<nat> | Fits(ws, buckets) && Sum(ws) == total ensures Describes(d, ws) {
      MaxIsGreatest(ws);
      SumsOfWaits(ws, buckets, Max(ws));
    }
  }

  method CheckStep(a: Histogram, b: Histogram) returns (ok: bool)
    requires |a.buckets| == |b.buckets| == BUCKETS && 0 <= b.maximum && BitLength(b.maximum) < BUCKETS
    ensures ok <==> StepAccepted(a, b)
  {
    var buckets, count, total := Delta(a.buckets, b.buckets), b.count - a.count, b.sum - a.sum;
    if (exists k | 0 <= k < BUCKETS :: buckets[k] < 0) || count < 0 || Sum(buckets) != count || total < 0
       || b.maximum < a.maximum {
      return false;
    }
    var changed := b.maximum > a.maximum;
    if changed && buckets[BitLength(b.maximum)] <= 0 {
      return false;
    }
    var low, high := ComputeSumBounds(buckets, b.maximum, changed);
    return low <= total <= high;
  }

  function CoverageDelta(a: Observation, b: Observation): Coverage {
    Coverage(b.events - a.events, b.unmatched - a.unmatched, b.replaced - a.replaced, b.exited - a.exited)
  }

  /** What was gained since the first observation gives the second. */
  predicate Gained(c: Coverage, a: Observation, b: Observation) {
    && b.events == a.events + c.events && b.unmatched == a.unmatched + c.unmatched
    && b.replaced == a.replaced + c.replaced && b.exited == a.exited + c.exited
  }

  ghost predicate IntervalReported(report: IntervalReport, rows: seq<Row>, i: nat)
    requires 0 < i < |rows|
  {
    var a, b := rows[i - 1].observation, rows[i].observation;
    && report.index == i && report.pendingAtEnd == b.pending && Gained(report.coverage, a, b)
    && |a.waits.buckets| == |b.waits.buckets|
    && forall ws: seq<nat> |
         Fits(ws, Delta(a.waits.buckets, b.waits.buckets)) && Sum(ws) == b.waits.sum - a.waits.sum ::
         Describes(report.waits, ws)
  }

  /** The body of the source's loop for one row. */
  method CheckRow(rows: seq<Row>, index: nat, cpuCount: int) returns (ok: bool)
    requires index < |rows|
    requires index > 0 ==> RowAccepted(rows, index - 1, cpuCount)
    ensures ok <==> RowAccepted(rows, index, cpuCount)
  {
    var row := rows[index];
    if !RowHeader(row, rows[0].started, index) || !PerfComplete(row.perf, cpuCount) || !Counters(row.observation) {
      return false;
    }
    var whole := CheckHistogram(row.observation.waits, index * SECOND);
    if !whole || !Covered(row.observation) {
      return false;
    }
    if index == 0 {
      return true;
    }
    var prior := rows[index - 1];
    if !ObserverMonotone(prior, row) || !CoverageStep(prior.observation, row.observation) {
      return false;
    }
    AcceptedShape(row.observation.waits, index * SECOND);
    ok := CheckStep(prior.observation.waits, row.observation.waits);
  }

  method ReportInterval(rows: seq<Row>, index: nat, cpuCount: int) returns (report: IntervalReport)
    requires 0 < index < |rows| && RowAccepted(rows, index, cpuCount)
    ensures IntervalReported(report, rows, index)
  {
    var a, b := rows[index - 1].observation, rows[index].observation;
    var d := ComputeDistribution(Delta(a.waits.buckets, b.waits.buckets), b.waits.sum - a.waits.sum);
    report := IntervalReport(index, d, CoverageDelta(a, b), b.pending);
  }

  /** The report over the whole window, from its first and last row. */
  method CloseReport(rows: seq<Row>, intervals: seq<IntervalReport>, ghost seconds: int, ghost cpuCount: int)
    returns (report: Report)
    requires WindowAccepted(rows, seconds, cpuCount) && Replayed(rows, |rows|, cpuCount, intervals)
    ensures Totals(report, rows)
  {
    AcceptedWindowRun(rows, seconds, cpuCount);
    WholeCount(rows, seconds, cpuCount);
    AcceptedFollows(rows, seconds, cpuCount, 0, seconds);
    assert RowAccepted(rows, 0, cpuCount) && RowAccepted(rows, seconds, cpuCount);
    var first, last := rows[0], rows[|rows| - 1];
    var a, b := first.observation, last.observation;
    var whole := ComputeDistribution(Delta(a.waits.buckets, b.waits.buckets), b.waits.sum - a.waits.sum);
    var cpu := last.cpuUsec - first.cpuUsec;
    report := Report(intervals, whole, CoverageDelta(a, b), a.pending, b.pending, cpu, last.peakRSS,
                     Ratio(cpu * 1_000_000, last.readEnded - first.readStarted),
                     Ratio(cpu * 1_000_000, last.readStarted - first.readEnded));
  }

  ghost predicate Replayed(rows: seq<Row>, n: nat, cpuCount: int, intervals: seq<IntervalReport>) {
    && n <= |rows| && |intervals| == (if n == 0 then 0 else n - 1)
    && (forall i | 0 <= i < n :: RowAccepted(rows, i, cpuCount))
    && (forall i | 0 <= i < |intervals| :: IntervalReported(intervals[i], rows, i + 1))
  }

  method ReplayRow(rows: seq<Row>, index: nat, cpuCount: int, intervals: seq<IntervalReport>)
    returns (ok: bool, extended: seq<IntervalReport>)
    requires index < |rows| && Replayed(rows, index, cpuCount, intervals)
    ensures ok <==> RowAccepted(rows, index, cpuCount)
    ensures ok ==> Replayed(rows, index + 1, cpuCount, extended)
  {
    extended := intervals;
    ok := CheckRow(rows, index, cpuCount);
    if ok && index > 0 {
      var report := ReportInterval(rows, index, cpuCount);
      extended := intervals + [report];
    }
  }

  /** The source's loop over the rows. */
  method ReplayRows(rows: seq<Row>, cpuCount: int) returns (ok: bool, intervals: seq<IntervalReport>)
    ensures ok <==> forall i | 0 <= i < |rows| :: RowAccepted(rows, i, cpuCount)
    ensures ok ==> Replayed(rows, |rows|, cpuCount, intervals)
  {
    intervals := [];
    for index := 0 to |rows|
      invariant Replayed(rows, index, cpuCount, intervals)
    {
      ok, intervals := ReplayRow(rows, index, cpuCount, intervals);
      if !ok {
        return;
      }
    }
    ok := true;
  }

  /** scheduler_window: a report exists exactly for accepted rows, and reports every
      interval and the window; ReportIsTruthful says what that means. */
  method Replay(rows: seq<Row>, seconds: int, cpuCount: int) returns (r: Option<Report>)
    ensures r.Some? <==> WindowAccepted(rows, seconds, cpuCount)
    ensures r.Some? ==> Totals(r.value, rows)
    ensures r.Some? ==> forall i, j | 0 <= i < j < |rows| :: Follows(rows[i], rows[j])
  {
    if !(1 <= seconds <= 1800) || !(1 <= cpuCount <= 64) || |rows| != seconds + 1 {
      return None;
    }
    var ok, intervals := ReplayRows(rows, cpuCount);
    if !ok {
      return None;
    }
    AcceptedWindowRun(rows, seconds, cpuCount);
    var report := CloseReport(rows, intervals, seconds, cpuCount);
    forall i, j | 0 <= i < j < |rows| ensures Follows(rows[i], rows[j]) {
      AcceptedFollows(rows, seconds, cpuCount, i, j);
    }
    r := Some(report);
  }

  /** The distribution over the window is true of any waits that fill the difference
      between the last and the first row. */
  ghost predicate WholeReported(report: Report, rows: seq<Row>)
    requires rows != []
  {
    var a, b := rows[0].observation.waits, rows[|rows| - 1].observation.waits;
    && |a.buckets| == |b.buckets| == BUCKETS
    && forall ws: seq<nat> | Fits(ws, Delta(a.buckets, b.buckets)) && Sum(ws) == b.sum - a.sum ::
         Describes(report.waits, ws)
  }

  /** What the report says of the rows; the mean CPU is bounded by the longest and
      the shortest time that the reads leave open. */
  ghost predicate Totals(report: Report, rows: seq<Row>)
    requires rows != []
  {
    var first, last := rows[0], rows[|rows| - 1];
    && |report.intervals| == |rows| - 1
    && (forall i | 0 <= i < |report.intervals| :: IntervalReported(report.intervals[i], rows, i + 1))
    && Gained(report.coverage, first.observation, last.observation)
    && report.pendingAtStart == first.observation.pending && report.pendingAtEnd == last.observation.pending
    && report.cpuUsec == last.cpuUsec - first.cpuUsec && report.peakRSS == last.peakRSS
    && report.lower == Ratio(report.cpuUsec * 1_000_000, last.readEnded - first.readStarted)
    && report.upper == Ratio(report.cpuUsec * 1_000_000, last.readStarted - first.readEnded)
    && 0 < report.upper.denominator <= report.lower.denominator
    && WholeReported(report, rows) && Balanced(report)
  }

  /** Whatever stopped being pending completed its wait or exited, and no event did
      two of the things that are counted apart. */
  predicate Balanced(report: Report) {
    && report.pendingAtStart - report.pendingAtEnd <= report.waits.count + report.coverage.exited
    && 0 <= report.waits.count && 0 <= report.coverage.unmatched
    && report.waits.count + report.coverage.unmatched <= report.coverage.events
  }

  lemma {:induction false} AcceptedWindowRun(rows: seq<Row>, seconds: int, cpuCount: int)
    requires WindowAccepted(rows, seconds, cpuCount)
    ensures HasRun(Histograms(rows))
    ensures var a, b := rows[0].observation.waits, rows[|rows| - 1].observation.waits;
            |a.buckets| == |b.buckets| == BUCKETS && Buckets(Delta(a.buckets, b.buckets))
  {
    AcceptedWindowHistograms(rows, seconds, cpuCount);
    HistogramsExact(Histograms(rows));
    var ws := BuildRun(Histograms(rows));
    WholeDelta(ws, Histograms(rows));
  }

  /** What is reported of an interval is true of the waits any explaining run had in it. */
  lemma {:induction false} IntervalFits(report: IntervalReport, rows: seq<Row>, ws: seq<nat>, i: nat)
    requires 0 < i < |rows| && RunExplains(ws, Histograms(rows)) && IntervalReported(report, rows, i)
    ensures Describes(report.waits, Interval(ws, Histograms(rows), i))
  {
    IntervalOfRun(ws, Histograms(rows), i);
  }

  lemma {:induction false} WholeFits(report: Report, rows: seq<Row>, ws: seq<nat>)
    requires rows != [] && RunExplains(ws, Histograms(rows)) && WholeReported(report, rows)
    ensures Describes(report.waits, ws[Histograms(rows)[0].count..])
  {
    WholeDelta(ws, Histograms(rows));
  }

  /** What an accepted window's report means: some run of waits explains the rows, and
      whichever did, the report is true of it, interval by interval and as a whole. */
  lemma {:induction false} ReportIsTruthful(report: Report, rows: seq<Row>, seconds: int, cpuCount: int)
    requires WindowAccepted(rows, seconds, cpuCount) && Totals(report, rows)
    ensures HasRun(Histograms(rows)) && Truthful(report, Histograms(rows))
  {
    var hs := Histograms(rows);
    AcceptedWindowRun(rows, seconds, cpuCount);
    forall ws: seq<nat> | RunExplains(ws, hs) ensures ReportDescribes(report, ws, hs) {
      WholeFits(report, rows, ws);
      forall i | 0 < i < |hs| ensures Describes(report.intervals[i - 1].waits, Interval(ws, hs, i)) {
        assert IntervalReported(report.intervals[i - 1], rows, i - 1 + 1);
        IntervalFits(report.intervals[i - 1], rows, ws, i);
      }
    }
  }

  lemma {:induction false} WholeDelta(ws: seq<nat>, hs: seq<Histogram>)
    requires RunExplains(ws, hs)
    ensures hs[0].count <= |ws|
    ensures Buckets(Delta(hs[0].buckets, hs[|hs| - 1].buckets))
    ensures Fits(ws[hs[0].count..], Delta(hs[0].buckets, hs[|hs| - 1].buckets))
    ensures Sum(ws[hs[0].count..]) == hs[|hs| - 1].sum - hs[0].sum
  {
    var n := hs[0].count;
    assert ws[..|ws|] == ws == ws[..n] + ws[n..];
    RunMakesStep(ws[..n], hs[0], ws[n..], hs[|hs| - 1]);
  }

  lemma {:induction false} WholeCount(rows: seq<Row>, seconds: int, cpuCount: int)
    requires WindowAccepted(rows, seconds, cpuCount)
    ensures var a, b := rows[0].observation.waits, rows[|rows| - 1].observation.waits;
            |a.buckets| == |b.buckets| && Sum(Delta(a.buckets, b.buckets)) == b.count - a.count
  {
    AcceptedWindowHistograms(rows, seconds, cpuCount);
    var hs := Histograms(rows);
    var ws := BuildRun(hs);
    WholeDelta(ws, hs);
    var more := ws[hs[0].count..];
    MaxIsGreatest(more);
    SumsOfWaits(more, Delta(hs[0].buckets, hs[|hs| - 1].buckets), Max(more));
  }

  // ------------------------------------------- what accepted rows have in common

  /** One row is an observation of the capture begun at origin: read in the tenth to
      a third of a second after its cutoff, nothing lost, every descriptor enabled,
      and no event counted for two things. */
  ghost predicate OnSchedule(row: Row, origin: int, i: nat, cpuCount: int) {
    var cutoff, o := origin + i * SECOND, row.observation;
    && row.schema == 2 && row.index == i && 1 <= origin == row.started && row.cutoff == cutoff
    && cutoff + 100_000_000 <= row.readStarted <= cutoff + 350_000_000
    && row.readStarted <= row.readEnded <= row.readStarted + 50_000_000 && row.readEnded <= U64_MAX
    && 0 <= row.cpuUsec <= U64_MAX && 1 <= row.peakRSS <= U64_MAX && 0 <= row.startupDiscarded <= U64_MAX
    && row.perf.lost == 0 && 1 <= row.perf.minimumEnabled <= U64_MAX
    && 4 * cpuCount * row.perf.minimumEnabled <= row.perf.enabled == row.perf.running <= U64_MAX
    && o.events <= LIMIT && 0 <= o.replaced <= o.events && 0 <= o.exited <= o.events
    && 0 <= o.pending <= 32768 && o.pending <= o.events
    && 0 <= o.unmatched <= o.events - o.waits.count
  }

  /** From an observation to any later one counters only grow, events account for
      whatever was completed, unmatched, replaced or ended, and no pending wait
      disappears without having completed or ended. */
  ghost predicate Conserves(a: Observation, b: Observation) {
    var completed := b.waits.count - a.waits.count;
    && a.unmatched <= b.unmatched && a.replaced <= b.replaced && a.exited <= b.exited && 0 <= completed
    && b.replaced - a.replaced <= b.events - a.events && b.exited - a.exited <= b.events - a.events
    && completed + b.unmatched - a.unmatched <= b.events - a.events
    && a.pending <= b.pending + completed + b.exited - a.exited
  }

  /** A later row: read after the earlier one, with nothing reset and nothing lost. */
  ghost predicate Follows(a: Row, b: Row) {
    && a.readStarted <= a.readEnded < b.readStarted <= b.readEnded
    && a.cpuUsec <= b.cpuUsec && a.peakRSS <= b.peakRSS && a.startupDiscarded <= b.startupDiscarded
    && a.perf.enabled <= b.perf.enabled && a.perf.minimumEnabled <= b.perf.minimumEnabled
    && Conserves(a.observation, b.observation)
  }

  /** Every row of an accepted window follows every earlier one. */
  lemma {:induction false} AcceptedFollows(rows: seq<Row>, seconds: int, cpuCount: int, i: nat, j: nat)
    requires WindowAccepted(rows, seconds, cpuCount) && i < j < |rows|
    ensures Follows(rows[i], rows[j])
    decreases j
  {
    NextFollows(rows, j, cpuCount);
    if i < j - 1 {
      AcceptedFollows(rows, seconds, cpuCount, i, j - 1);
      FollowsOn(rows[i], rows[j - 1], rows[j]);
    }
  }

  lemma {:induction false} NextFollows(rows: seq<Row>, i: nat, cpuCount: int)
    requires 0 < i < |rows| && RowAccepted(rows, i - 1, cpuCount) && RowAccepted(rows, i, cpuCount)
    ensures Follows(rows[i - 1], rows[i])
  {
    var a, b := rows[i - 1], rows[i];
    assert ObserverMonotone(a, b) && CoverageStep(a.observation, b.observation);
  }

  lemma {:induction false} FollowsOn(a: Row, b: Row, c: Row)
    requires Follows(a, b) && Follows(b, c)
    ensures Follows(a, c)
  {}

  lemma {:induction false} EnabledPositive(cpuCount: int, minimum: int)
    requires 1 <= cpuCount && 1 <= minimum
    ensures 1 <= 4 * cpuCount * minimum == cpuCount * 4 * minimum
  {
    assert 1 <= cpuCount * minimum by {
      assert (cpuCount - 1) * minimum >= 0;
    }
  }

  lemma {:induction false} LocalExact(rows: seq<Row>, i: nat, cpuCount: int)
    requires i < |rows| && 1 <= cpuCount
    ensures RowHeader(rows[i], rows[0].started, i) && PerfComplete(rows[i].perf, cpuCount)
            && Counters(rows[i].observation) && Covered(rows[i].observation) && 0 <= rows[i].observation.waits.count
            <==> OnSchedule(rows[i], rows[0].started, i, cpuCount) && 0 <= rows[i].observation.waits.count
  {
    if 1 <= rows[i].perf.minimumEnabled {
      EnabledPositive(cpuCount, rows[i].perf.minimumEnabled);
    }
  }

  /** A window is accepted if and only if every row is on schedule, every later row
      follows every earlier one, and one run of waits explains all histograms. */
  lemma {:induction false} WindowExact(rows: seq<Row>, seconds: int, cpuCount: int)
    ensures WindowAccepted(rows, seconds, cpuCount) <==>
            && 1 <= seconds <= 1800 && 1 <= cpuCount <= 64 && |rows| == seconds + 1
            && (forall i | 0 <= i < |rows| :: OnSchedule(rows[i], rows[0].started, i, cpuCount))
            && (forall i, j | 0 <= i < j < |rows| :: Follows(rows[i], rows[j]))
            && WithinLimits(Histograms(rows)) && HasRun(Histograms(rows))
  {
    HistogramsExact(Histograms(rows));
    if WindowAccepted(rows, seconds, cpuCount) {
      AcceptedWindowHistograms(rows, seconds, cpuCount);
      forall i | 0 <= i < |rows| ensures OnSchedule(rows[i], rows[0].started, i, cpuCount) {
        assert RowAccepted(rows, i, cpuCount);
        LocalExact(rows, i, cpuCount);
      }
      forall i, j | 0 <= i < j < |rows| ensures Follows(rows[i], rows[j]) {
        AcceptedFollows(rows, seconds, cpuCount, i, j);
      }
    } else if 1 <= cpuCount && HistogramsAccepted(Histograms(rows))
      && (forall i | 0 <= i < |rows| :: OnSchedule(rows[i], rows[0].started, i, cpuCount))
      && (forall i, j | 0 <= i < j < |rows| :: Follows(rows[i], rows[j])) {
      forall i | 0 <= i < |rows| ensures RowAccepted(rows, i, cpuCount) {
        FollowingAccepted(rows, i, cpuCount);
      }
    }
  }

  lemma {:induction false} FollowingAccepted(rows: seq<Row>, i: nat, cpuCount: int)
    requires i < |rows| && 1 <= cpuCount && HistogramsAccepted(Histograms(rows))
    requires OnSchedule(rows[i], rows[0].started, i, cpuCount)
    requires i > 0 ==> OnSchedule(rows[i - 1], rows[0].started, i - 1, cpuCount) && Follows(rows[i - 1], rows[i])
    ensures RowAccepted(rows, i, cpuCount)
  {
    var hs := Histograms(rows);
    assert Accepted(hs[i], i * SECOND);
    LocalExact(rows, i, cpuCount);
    if i > 0 {
      assert StepOk(hs[i - 1], hs[i]);
    }
  }

  // ------------------------------------------------------- the reports add up

  /** The coverage of the first n intervals together. */
  function CoverageOf(rs: seq<IntervalReport>, n: nat): Coverage
    requires n <= |rs|
  {
    if n == 0 then Coverage(0, 0, 0, 0) else
      var c, d := CoverageOf(rs, n - 1), rs[n - 1].coverage;
      Coverage(c.events + d.events, c.unmatched + d.unmatched, c.replaced + d.replaced, c.exited + d.exited)
  }

  /** How many waits the first n intervals completed, and how long they were. */
  function CountOf(rs: seq<IntervalReport>, n: nat): int
    requires n <= |rs|
  {
    if n == 0 then 0 else CountOf(rs, n - 1) + rs[n - 1].waits.count
  }

  function SumOf(rs: seq<IntervalReport>, n: nat): int
    requires n <= |rs|
  {
    if n == 0 then 0 else SumOf(rs, n - 1) + rs[n - 1].waits.sum
  }

  /** What an interval reports to have been completed is what the counters gained. */
  lemma {:induction false} OneInterval(report: IntervalReport, rows: seq<Row>, ws: seq<nat>, i: nat)
    requires 0 < i < |rows| && RunExplains(ws, Histograms(rows)) && IntervalReported(report, rows, i)
    ensures rows[i].observation.waits.count == rows[i - 1].observation.waits.count + report.waits.count
    ensures rows[i].observation.waits.sum == rows[i - 1].observation.waits.sum + report.waits.sum
  {
    IntervalFits(report, rows, ws, i);
    IntervalOfRun(ws, Histograms(rows), i);
  }

  lemma {:induction false} FirstIntervals(rs: seq<IntervalReport>, rows: seq<Row>, ws: seq<nat>, n: nat)
    requires n < |rows| && n <= |rs| && RunExplains(ws, Histograms(rows))
    requires forall i | 0 <= i < n :: IntervalReported(rs[i], rows, i + 1)
    ensures Gained(CoverageOf(rs, n), rows[0].observation, rows[n].observation)
    ensures rows[n].observation.waits.count == rows[0].observation.waits.count + CountOf(rs, n)
    ensures rows[n].observation.waits.sum == rows[0].observation.waits.sum + SumOf(rs, n)
  {
    if n > 0 {
      FirstIntervals(rs, rows, ws, n - 1);
      assert IntervalReported(rs[n - 1], rows, n - 1 + 1);
      OneInterval(rs[n - 1], rows, ws, n);
    }
  }

  lemma {:induction false} WholeWindow(report: Report, rows: seq<Row>, ws: seq<nat>)
    requires rows != [] && RunExplains(ws, Histograms(rows)) && WholeReported(report, rows)
    ensures var a, b := rows[0].observation.waits, rows[|rows| - 1].observation.waits;
            b.count == a.count + report.waits.count && b.sum == a.sum + report.waits.sum
  {
    WholeFits(report, rows, ws);
    WholeDelta(ws, Histograms(rows));
  }

  /** The intervals' completed waits and coverage add up to those of the window. */
  lemma {:induction false} IntervalsAddUp(report: Report, rows: seq<Row>, seconds: int, cpuCount: int)
    requires WindowAccepted(rows, seconds, cpuCount) && Totals(report, rows)
    ensures CoverageOf(report.intervals, seconds) == report.coverage
    ensures CountOf(report.intervals, seconds) == report.waits.count
    ensures SumOf(report.intervals, seconds) == report.waits.sum
  {
    AcceptedWindowRun(rows, seconds, cpuCount);
    var ws: seq<nat> :| RunExplains(ws, Histograms(rows)) && InTime(ws, Histograms(rows));
    FirstIntervals(report.intervals, rows, ws, seconds);
    WholeWindow(report, rows, ws);
  }
}
