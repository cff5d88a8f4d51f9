/** Replay of a verifier window (verifier_window.py): cumulative count, sum and
    maximum without buckets, and conservation of the perf records behind them. */
module VerifierWindow {
  import opened Limits
  import opened Wrappers
  import opened Sums

  // ---------------------------------------------------- count, sum and maximum

  datatype Meter = Meter(count: int, sum: int, maximum: int)

  const ZERO := Meter(0, 0, 0)

  /** What a meter that saw exactly these values reports. */
  ghost predicate Measures(xs: seq<nat>, m: Meter) {
    m.count == |xs| && m.sum == Sum(xs) && m.maximum == Max(xs)
  }

  ghost predicate AtLeast(xs: seq<nat>, floor: nat) {
    forall i | 0 <= i < |xs| :: floor <= xs[i]
  }

  /** The values of the interval fit in: they are at least the floor and at most
      the new maximum, which one of them attains if it is new. */
  predicate Room(floor: nat, a: Meter, b: Meter) {
    var count, sum := b.count - a.count, b.sum - a.sum;
    && 0 <= count && a.maximum <= b.maximum && floor * count <= sum <= count * b.maximum
    && (a.maximum < b.maximum ==> 0 < count && b.maximum + floor * (count - 1) <= sum)
  }

  /** The requires of interval on one count, sum and maximum. */
  predicate StepChecks(a: Meter, b: Meter) {
    var count, sum := b.count - a.count, b.sum - a.sum;
    && 0 <= count && 0 <= sum && a.maximum <= b.maximum && sum <= count * b.maximum
    && (a.maximum < b.maximum ==> 0 < count && b.maximum <= sum)
  }

  /** The requires of totals on one count, sum and maximum. */
  predicate RowChecks(m: Meter, bound: int) {
    0 <= m.count && 0 <= m.maximum <= bound && m.maximum <= m.sum <= m.count * m.maximum
  }

  lemma {:induction false} MaxAtMostSum(xs: seq<nat>)
    ensures Max(xs) <= Sum(xs)
  {
    if xs != [] {
      MaxAtMostSum(xs[1..]);
      NonNegative(xs[1..]);
    }
  }

  /** Values at least the floor and at most the maximum sum to at least one
      maximum and otherwise floors. */
  lemma {:induction false} SumRoom(floor: nat, xs: seq<nat>)
    requires AtLeast(xs, floor)
    ensures floor * |xs| <= Sum(xs) <= |xs| * Max(xs)
    ensures xs != [] ==> Max(xs) + floor * (|xs| - 1) <= Sum(xs)
  {
    if xs != [] {
      SumRoom(floor, xs[1..]);
      Distribute(|xs| - 1, floor);
      Distribute(|xs| - 1, Max(xs));
      Scale(|xs| - 1, Max(xs[1..]), Max(xs));
      if |xs| > 1 {
        Distribute(|xs| - 2, floor);
      }
    }
  }

  lemma {:induction false} Scale(n: nat, a: int, b: int)
    requires a <= b
    ensures n * a <= n * b
  {}

  lemma {:induction false} FillMeter(floor: nat, n: nat, maximum: nat, total: int) returns (xs: seq<nat>)
    requires floor * n <= total <= n * maximum
    requires n > 0 ==> floor <= maximum
    ensures |xs| == n && Sum(xs) == total && AtLeast(xs, floor) && Max(xs) <= maximum
  {
    SumRepeat(floor, n);
    SumRepeat(maximum, n);
    var ys := Fill(Repeat(floor, n), Repeat(maximum, n), total);
    forall i | 0 <= i < n ensures floor <= ys[i] <= maximum {
      assert Repeat(floor, n)[i] <= ys[i] <= Repeat(maximum, n)[i];
    }
    xs := ys;
    MaxIsGreatest(xs);
  }

  lemma {:induction false} FloorBelow(floor: nat, n: nat, maximum: int, total: int)
    requires n > 0 && floor * n <= total <= n * maximum
    ensures floor <= maximum
  {
    if maximum < floor {
      Scale(n, maximum + 1, floor);
    }
  }

  /** An interval with room is filled by values appended to what came before. */
  lemma {:induction false} StepRealised(floor: nat, xs: seq<nat>, a: Meter, b: Meter) returns (more: seq<nat>)
    requires Measures(xs, a) && Room(floor, a, b)
    ensures Measures(xs + more, b) && AtLeast(more, floor)
  {
    var n, total := b.count - a.count, b.sum - a.sum;
    if n > 0 {
      FloorBelow(floor, n, b.maximum, total);
    }
    if a.maximum < b.maximum {
      Distribute(n - 1, b.maximum);
      var others := FillMeter(floor, n - 1, b.maximum, total - b.maximum);
      more := [b.maximum] + others;
      assert more[1..] == others;
    } else {
      more := FillMeter(floor, n, b.maximum, total);
    }
    SumConcat(xs, more);
    MaxConcat(xs, more);
  }

  lemma {:induction false} StepHasRoom(floor: nat, xs: seq<nat>, a: Meter, more: seq<nat>, b: Meter)
    requires Measures(xs, a) && Measures(xs + more, b) && AtLeast(more, floor)
    ensures Room(floor, a, b)
  {
    SumConcat(xs, more);
    MaxConcat(xs, more);
    SumRoom(floor, more);
    Scale(|more|, Max(more), b.maximum);
  }

  /** One growing sequence of values whose prefixes are what the rows report. */
  ghost predicate MeasuresAt(xs: seq<nat>, ms: seq<Meter>, i: nat)
    requires i < |ms|
  {
    0 <= ms[i].count <= |xs| && Measures(xs[..ms[i].count], ms[i])
  }

  ghost predicate RunMeasures(xs: seq<nat>, ms: seq<Meter>) {
    && ms != [] && ms[|ms| - 1].count == |xs|
    && (forall i | 0 <= i < |ms| :: MeasuresAt(xs, ms, i))
    && (forall i | 0 < i < |ms| :: CountStep(ms, i))
  }

  predicate CountStep(ms: seq<Meter>, i: nat)
    requires 0 < i < |ms|
  {
    ms[i - 1].count <= ms[i].count
  }

  function Before(ms: seq<Meter>, i: nat): Meter
    requires i < |ms|
  {
    if i == 0 then ZERO else ms[i - 1]
  }

  predicate RoomAt(floor: nat, ms: seq<Meter>, i: nat)
    requires i < |ms|
  {
    Room(floor, Before(ms, i), ms[i])
  }

  lemma {:induction false} RealiseRun(floor: nat, ms: seq<Meter>) returns (xs: seq<nat>)
    requires ms != [] && forall i | 0 <= i < |ms| :: RoomAt(floor, ms, i)
    ensures RunMeasures(xs, ms) && AtLeast(xs, floor)
  {
    var n := |ms| - 1;
    assert RoomAt(floor, ms, n);
    if n == 0 {
      assert Measures([], ZERO);
      xs := StepRealised(floor, [], ZERO, ms[0]);
      assert [] + xs == xs && xs[..|xs|] == xs;
    } else {
      forall i | 0 <= i < n ensures RoomAt(floor, ms[..n], i) {
        assert RoomAt(floor, ms, i);
      }
      var before := RealiseRun(floor, ms[..n]);
      assert MeasuresAt(before, ms[..n], n - 1) && before[..|before|] == before;
      var more := StepRealised(floor, before, ms[n - 1], ms[n]);
      xs := before + more;
      forall i | 0 <= i < |ms| ensures MeasuresAt(xs, ms, i) {
        if i < n {
          assert MeasuresAt(before, ms[..n], i) && xs[..ms[i].count] == before[..ms[i].count];
        } else {
          assert xs[..|xs|] == xs;
        }
      }
      forall i | 0 < i < |ms| ensures CountStep(ms, i) {
        assert i < n ==> CountStep(ms[..n], i);
      }
    }
  }

  lemma {:induction false} RunHasRoom(floor: nat, xs: seq<nat>, ms: seq<Meter>, i: nat)
    requires RunMeasures(xs, ms) && AtLeast(xs, floor) && i < |ms|
    ensures RoomAt(floor, ms, i)
  {
    assert MeasuresAt(xs, ms, i);
    if i == 0 {
      assert [] + xs[..ms[0].count] == xs[..ms[0].count];
      StepHasRoom(floor, [], ZERO, xs[..ms[0].count], ms[0]);
    } else {
      assert MeasuresAt(xs, ms, i - 1) && CountStep(ms, i);
      var more := xs[ms[i - 1].count..ms[i].count];
      assert xs[..ms[i].count] == xs[..ms[i - 1].count] + more;
      StepHasRoom(floor, xs[..ms[i - 1].count], ms[i - 1], more, ms[i]);
    }
  }

  /** Rows of count, sum and maximum come from one growing sequence of values of
      at least the floor exactly when every step leaves room for them. */
  lemma {:induction false} RunExact(floor: nat, ms: seq<Meter>)
    requires ms != []
    ensures (forall i | 0 <= i < |ms| :: RoomAt(floor, ms, i))
            <==> exists xs: seq<nat> :: RunMeasures(xs, ms) && AtLeast(xs, floor)
  {
    if forall i | 0 <= i < |ms| :: RoomAt(floor, ms, i) {
      var xs := RealiseRun(floor, ms);
    }
    if exists xs: seq<nat> :: RunMeasures(xs, ms) && AtLeast(xs, floor) {
      var xs: seq<nat> :| RunMeasures(xs, ms) && AtLeast(xs, floor);
      forall i | 0 <= i < |ms| ensures RoomAt(floor, ms, i) {
        RunHasRoom(floor, xs, ms, i);
      }
    }
  }

  // --------------------------------------------- the source's checks on a window

  predicate BytesAt(ms: seq<Meter>, i: nat)
    requires i < |ms|
  {
    RowChecks(ms[i], 0xFFFF_FFFF) && (i > 0 ==> StepChecks(ms[i - 1], ms[i]))
  }

  predicate DurationsAt(ms: seq<Meter>, i: nat)
    requires i < |ms|
  {
    var limit := if i * 1_000_000_000 < 30_000_000_000 then i * 1_000_000_000 else 30_000_000_000;
    && RowChecks(ms[i], limit) && ms[i].sum >= ms[i].count * 2
    && (i > 0 ==> StepChecks(ms[i - 1], ms[i]) && ms[i].sum - ms[i - 1].sum >= (ms[i].count - ms[i - 1].count) * 2)
  }

  lemma {:induction false} MeterBounded(xs: seq<nat>, ms: seq<Meter>, i: nat)
    requires RunMeasures(xs, ms) && i < |ms|
    ensures ms[i].maximum <= ms[i].sum <= ms[i].count * ms[i].maximum && 0 <= ms[i].maximum && 0 <= ms[i].count
  {
    assert MeasuresAt(xs, ms, i);
    MaxAtMostSum(xs[..ms[i].count]);
    SumRoom(0, xs[..ms[i].count]);
  }

  lemma {:induction false} AnyValues(xs: seq<nat>)
    ensures AtLeast(xs, 0)
  {}

  /** For log bytes the checks are exact: rows pass them exactly when one growing
      sequence of calls, none logging more than 32 bits can count, reports them. */
  lemma {:induction false} BytesExact(ms: seq<Meter>)
    requires ms != []
    ensures (forall i | 0 <= i < |ms| :: BytesAt(ms, i))
            <==> (exists xs: seq<nat> :: RunMeasures(xs, ms))
                 && forall i | 0 <= i < |ms| :: ms[i].maximum <= 0xFFFF_FFFF
  {
    RunExact(0, ms);
    if forall i | 0 <= i < |ms| :: BytesAt(ms, i) {
      forall i | 0 <= i < |ms| ensures RoomAt(0, ms, i) && ms[i].maximum <= 0xFFFF_FFFF {
        assert BytesAt(ms, i);
      }
    }
    if (exists xs: seq<nat> :: RunMeasures(xs, ms)) && forall i | 0 <= i < |ms| :: ms[i].maximum <= 0xFFFF_FFFF {
      var xs: seq<nat> :| RunMeasures(xs, ms);
      AnyValues(xs);
      forall i | 0 <= i < |ms| ensures BytesAt(ms, i) {
        MeterBounded(xs, ms, i);
        RunHasRoom(0, xs, ms, i);
      }
    }
  }

  /** The room that a new maximum leaves for the other calls' two nanoseconds. */
  predicate PinnedRoomAt(ms: seq<Meter>, i: nat)
    requires i < |ms|
  {
    var a := Before(ms, i);
    a.maximum < ms[i].maximum ==> ms[i].maximum + 2 * (ms[i].count - a.count - 1) <= ms[i].sum - a.sum
  }

  /** For durations, of at least two nanoseconds each, the checks are necessary
      but not sufficient: accepted rows come from some sequence of calls exactly
      when every new maximum also leaves room for the interval's other calls. */
  lemma {:induction false} DurationsExact(ms: seq<Meter>)
    requires ms != [] && forall i | 0 <= i < |ms| :: DurationsAt(ms, i)
    ensures (exists xs: seq<nat> :: RunMeasures(xs, ms) && AtLeast(xs, 2))
            <==> forall i | 0 <= i < |ms| :: PinnedRoomAt(ms, i)
  {
    RunExact(2, ms);
    forall i | 0 <= i < |ms| ensures RoomAt(2, ms, i) <==> PinnedRoomAt(ms, i) {
      assert DurationsAt(ms, i);
    }
    if forall i | 0 <= i < |ms| :: PinnedRoomAt(ms, i) {
      assert forall i | 0 <= i < |ms| :: RoomAt(2, ms, i);
    }
    if forall i | 0 <= i < |ms| :: RoomAt(2, ms, i) {
      assert forall i | 0 <= i < |ms| :: PinnedRoomAt(ms, i);
    }
  }

  /** Two calls of 4 ns in all, the longest of 3 ns: accepted, yet impossible. */
  lemma {:induction false} DurationsNotExact()
    ensures var ms := [Meter(0, 0, 0), Meter(2, 4, 3)];
            && (forall i | 0 <= i < |ms| :: DurationsAt(ms, i))
            && !exists xs: seq<nat> :: RunMeasures(xs, ms) && AtLeast(xs, 2)
  {
    var ms := [Meter(0, 0, 0), Meter(2, 4, 3)];
    assert DurationsAt(ms, 0) && DurationsAt(ms, 1);
    DurationsExact(ms);
    assert !PinnedRoomAt(ms, 1);
  }

  lemma {:induction false} DurationsNecessary(xs: seq<nat>, ms: seq<Meter>)
    requires RunMeasures(xs, ms) && AtLeast(xs, 2)
    requires forall i | 0 <= i < |ms| :: ms[i].maximum <= i * 1_000_000_000 && ms[i].maximum <= 30_000_000_000
    ensures forall i | 0 <= i < |ms| :: DurationsAt(ms, i)
  {
    forall i | 0 <= i < |ms| ensures DurationsAt(ms, i) {
      MeterBounded(xs, ms, i);
      RunHasRoom(2, xs, ms, i);
      assert MeasuresAt(xs, ms, i);
      SumRoom(2, xs[..ms[i].count]);
    }
  }

  // ------------------------------------------------------------------- the rows

  datatype Totals = Totals(
    completed: int, rejected: int, logFailures: int, duration: int, maximum: int,
    logBytes: int, maximumLog: int, pending: int, unassociated: int)
  datatype Perf = Perf(events: int, enabled: int, running: int, lost: int, minimumEnabled: int, descriptors: int)
  datatype Probe = Probe(hits: int, missed: int)
  datatype Binding = Binding(owner: string, btf: string, anchor: string, formats: seq<string>, inode: int)
  datatype Row = Row(
    schema: int, index: int, started: int, cutoff: int, readStarted: int, readEnded: int,
    cpuUsec: int, peakRSS: int, discarded: int, perf: Perf, totals: Totals, probes: seq<Probe>,
    binding: Binding, closed: bool, closeStarted: int, closeEnded: int)

  function Durations(t: Totals): Meter {
    Meter(t.completed, t.duration, t.maximum)
  }

  function Logs(t: Totals): Meter {
    Meter(t.completed, t.logBytes, t.maximumLog)
  }

  predicate Integer(x: int, low: int, high: int) {
    low <= x <= high
  }

  predicate Hexadecimal(s: string, size: nat) {
    |s| == size && forall i | 0 <= i < |s| :: '0' <= s[i] <= '9' || 'a' <= s[i] <= 'f'
  }

  /** validate_binding: one format digest for each of the three roles. */
  predicate BindingOk(b: Binding) {
    && Hexadecimal(b.owner, 32) && Hexadecimal(b.btf, 64) && Hexadecimal(b.anchor, 64)
    && |b.formats| == 3 && (forall i | 0 <= i < |b.formats| :: Hexadecimal(b.formats[i], 64))
    && Integer(b.inode, 1, U64_MAX)
  }

  /** Every require of totals. */
  predicate TotalsOk(t: Totals, elapsed: int) {
    && Integer(t.duration, 0, U64_MAX) && Integer(t.logBytes, 0, U64_MAX)
    && Integer(t.completed, 0, 4096) && Integer(t.pending, 0, 64) && t.completed + t.pending <= 4096
    && Integer(t.unassociated, 0, 32768)
    && 0 <= t.rejected <= t.completed && 0 <= t.logFailures <= t.completed
    && RowChecks(Durations(t), if elapsed < 30_000_000_000 then elapsed else 30_000_000_000)
    && RowChecks(Logs(t), 0xFFFF_FFFF)
    && (t.completed == 0 || t.duration >= t.completed * 2)
  }

  /** Every require of interval. */
  predicate IntervalOk(a: Totals, b: Totals) {
    var calls := b.completed - a.completed;
    && a.unassociated <= b.unassociated
    && 0 <= b.rejected - a.rejected <= calls && 0 <= b.logFailures - a.logFailures <= calls
    && a.pending - b.pending <= calls
    && StepChecks(Durations(a), Durations(b)) && StepChecks(Logs(a), Logs(b))
    && b.duration - a.duration >= calls * 2
  }

  /** The perf records of a row cover what its totals account for, and in the final
      row, where nothing may be pending, they are exactly that. */
  predicate RecordsOk(t: Totals, discarded: int, events: int, final: bool) {
    var accounted := t.completed * 3 + t.unassociated + discarded;
    events >= accounted + t.pending && (final ==> t.pending == 0 && events == accounted)
  }

  predicate EventsOk(row: Row, final: bool) {
    RecordsOk(row.totals, row.discarded, row.perf.events, final)
  }

  predicate PerfOk(perf: Perf, cpuCount: int) {
    && Integer(perf.events, 0, U64_MAX) && Integer(perf.enabled, 0, U64_MAX) && Integer(perf.running, 0, U64_MAX)
    && Integer(perf.minimumEnabled, 0, U64_MAX)
    && perf.descriptors == cpuCount * 3 && perf.lost == 0 && perf.enabled == perf.running
    && perf.enabled >= perf.descriptors * perf.minimumEnabled && (perf.events == 0 || perf.enabled > 0)
  }

  predicate HeaderOk(first: Row, row: Row, index: int, final: bool) {
    && row.schema == 1 && row.index == index
    && Integer(row.started, 1, U64_MAX) && Integer(row.cutoff, 1, U64_MAX)
    && Integer(row.readStarted, 1, U64_MAX) && Integer(row.readEnded, 1, U64_MAX)
    && Integer(row.peakRSS, 1, U64_MAX) && Integer(row.cpuUsec, 0, U64_MAX) && Integer(row.discarded, 0, U64_MAX)
    && Integer(row.closeStarted, 0, U64_MAX) && Integer(row.closeEnded, 0, U64_MAX)
    && row.started == first.started && row.cutoff == row.started + index * 1_000_000_000
    && 100_000_000 <= row.readStarted - row.cutoff <= 350_000_000
    && 0 <= row.readEnded - row.readStarted <= 50_000_000
    && row.closed == final
    && (if final then row.closeEnded >= row.closeStarted >= row.readEnded
        else row.closeStarted == 0 && row.closeEnded == 0)
  }

  predicate ProbesOk(row: Row) {
    && |row.probes| == 3
    && forall i | 0 <= i < |row.probes| ::
         row.probes[i].missed == 0 && row.totals.completed <= row.probes[i].hits <= U64_MAX
  }

  predicate ObserverMonotone(prior: Row, row: Row)
    requires |prior.probes| == |row.probes|
  {
    && row.readStarted > prior.readEnded
    && row.cpuUsec >= prior.cpuUsec && row.peakRSS >= prior.peakRSS && row.discarded >= prior.discarded
    && row.perf.events >= prior.perf.events && row.perf.enabled >= prior.perf.enabled
    && row.perf.minimumEnabled >= prior.perf.minimumEnabled
    && forall i | 0 <= i < |row.probes| :: row.probes[i].hits >= prior.probes[i].hits
  }

  predicate RowOk(first: Row, row: Row, index: int, final: bool, cpuCount: int) {
    && HeaderOk(first, row, index, final) && PerfOk(row.perf, cpuCount)
    && TotalsOk(row.totals, index * 1_000_000_000) && EventsOk(row, final) && ProbesOk(row)
  }

  predicate RowAt(rows: seq<Row>, i: nat, cpuCount: int)
    requires i < |rows|
  {
    && RowOk(rows[0], rows[i], i, i == |rows| - 1, cpuCount)
    && (i > 0 ==> |rows[i - 1].probes| == 3 && ObserverMonotone(rows[i - 1], rows[i])
                  && IntervalOk(rows[i - 1].totals, rows[i].totals))
  }

  /** The row is of the source and owner that the window is bound to. */
  predicate BoundAt(rows: seq<Row>, i: nat, binding: Binding)
    requires i < |rows|
  {
    rows[i].binding == binding
  }

  ghost predicate WindowAccepted(rows: seq<Row>, seconds: int, cpuCount: int, binding: Binding) {
    && 1 <= seconds <= 1800 && 1 <= cpuCount <= 64 && BindingOk(binding) && |rows| == seconds + 1
    && (forall i | 0 <= i < |rows| :: BoundAt(rows, i, binding))
    && (forall i | 0 <= i < |rows| :: RowAt(rows, i, cpuCount))
  }

  function LogMeters(rows: seq<Row>): (ms: seq<Meter>)
    ensures |ms| == |rows|
  {
    seq(|rows|, i requires 0 <= i < |rows| =>
      Meter(rows[i].totals.completed, rows[i].totals.logBytes, rows[i].totals.maximumLog))
  }

  datatype Delta = Delta(index: int, completed: int, rejected: int, logFailures: int, duration: int,
                         logBytes: int, unassociated: int, pendingAtEnd: int)

  function DeltaOf(a: Totals, b: Totals, index: int): Delta {
    Delta(index, b.completed - a.completed, b.rejected - a.rejected, b.logFailures - a.logFailures,
          b.duration - a.duration, b.logBytes - a.logBytes, b.unassociated - a.unassociated, b.pending)
  }

  /** What an interval gained, added to the totals before it, gives those after it. */
  predicate Gained(d: Delta, a: Totals, b: Totals, index: int) {
    && d.index == index && d.pendingAtEnd == b.pending
    && b.completed == a.completed + d.completed && b.rejected == a.rejected + d.rejected
    && b.logFailures == a.logFailures + d.logFailures && b.duration == a.duration + d.duration
    && b.logBytes == a.logBytes + d.logBytes && b.unassociated == a.unassociated + d.unassociated
  }

  /** Totals, and what the observer itself cost: its CPU time over the longest and
      over the shortest time that the two reads allow. */
  datatype Report = Report(
    intervals: seq<Delta>, totals: Totals, cpuUsec: int, peakRSS: int, lower: Ratio, upper: Ratio)

  /** The observer's cost in an accepted window, whose denominators are positive. */
  predicate CostReported(report: Report, first: Row, last: Row) {
    && report.totals == last.totals && report.peakRSS == last.peakRSS >= first.peakRSS
    && report.cpuUsec == last.cpuUsec - first.cpuUsec >= 0
    && report.lower == Ratio(report.cpuUsec * 1_000_000, last.readEnded - first.readStarted)
    && report.upper == Ratio(report.cpuUsec * 1_000_000, last.readStarted - first.readEnded)
    && report.lower.denominator >= report.upper.denominator > 0
  }

  /** Reads never overlap, and neither counter of the observer falls. */
  lemma {:induction false} ReadsOrdered(rows: seq<Row>, cpuCount: int, i: nat)
    requires 0 < i < |rows| && forall j | 0 <= j < |rows| :: RowAt(rows, j, cpuCount)
    ensures rows[0].readStarted <= rows[0].readEnded < rows[i].readStarted <= rows[i].readEnded
    ensures rows[0].cpuUsec <= rows[i].cpuUsec && rows[0].peakRSS <= rows[i].peakRSS
  {
    assert RowAt(rows, i, cpuCount) && RowAt(rows, i - 1, cpuCount);
    if i > 1 {
      ReadsOrdered(rows, cpuCount, i - 1);
    }
  }

  method CloseReport(rows: seq<Row>, cpuCount: int, intervals: seq<Delta>) returns (report: Report)
    requires |rows| > 1 && forall i | 0 <= i < |rows| :: RowAt(rows, i, cpuCount)
    ensures report.intervals == intervals && CostReported(report, rows[0], rows[|rows| - 1])
  {
    ReadsOrdered(rows, cpuCount, |rows| - 1);
    var first, last := rows[0], rows[|rows| - 1];
    var cpu := last.cpuUsec - first.cpuUsec;
    report := Report(intervals, last.totals, cpu, last.peakRSS,
                     Ratio(cpu * 1_000_000, last.readEnded - first.readStarted),
                     Ratio(cpu * 1_000_000, last.readStarted - first.readEnded));
  }

  /** verifier_window: accepted exactly when every row is; one sequence of log sizes
      then explains all rows, and every perf record of the window is part of a
      completed call, an unassociated log or a startup discard. */
  method Replay(rows: seq<Row>, seconds: int, cpuCount: int, binding: Binding) returns (r: Option<Report>)
    ensures r.Some? <==> WindowAccepted(rows, seconds, cpuCount, binding)
    ensures r.Some? ==> CostReported(r.value, rows[0], rows[|rows| - 1])
    ensures r.Some? ==> |r.value.intervals| == seconds
                        && forall i | 0 <= i < seconds ::
                             Gained(r.value.intervals[i], rows[i].totals, rows[i + 1].totals, i + 1)
    ensures r.Some? ==> exists xs: seq<nat> :: RunMeasures(xs, LogMeters(rows))
    ensures r.Some? ==> var last := rows[|rows| - 1];
              last.perf.events == last.totals.completed * 3 + last.totals.unassociated + last.discarded
              && last.totals.pending == 0
  {
    if !(1 <= seconds <= 1800) || !(1 <= cpuCount <= 64) || !BindingOk(binding) || |rows| != seconds + 1 {
      return None;
    }
    var intervals: seq<Delta> := [];
    for index := 0 to |rows|
      invariant forall i | 0 <= i < index :: BoundAt(rows, i, binding)
      invariant forall i | 0 <= i < index :: RowAt(rows, i, cpuCount)
      invariant |intervals| == if index == 0 then 0 else index - 1
      invariant forall i | 0 <= i < |intervals| :: intervals[i] == DeltaOf(rows[i].totals, rows[i + 1].totals, i + 1)
    {
      if !BoundAt(rows, index, binding) || !RowAt(rows, index, cpuCount) {
        return None;
      }
      if index > 0 {
        intervals := intervals + [DeltaOf(rows[index - 1].totals, rows[index].totals, index)];
      }
    }
    AcceptedBytes(rows, cpuCount);
    assert RowAt(rows, |rows| - 1, cpuCount);
    var report := CloseReport(rows, cpuCount, intervals);
    return Some(report);
  }

  lemma {:induction false} AcceptedBytes(rows: seq<Row>, cpuCount: int)
    requires rows != [] && forall i | 0 <= i < |rows| :: RowAt(rows, i, cpuCount)
    ensures exists xs: seq<nat> :: RunMeasures(xs, LogMeters(rows))
  {
    var ms := LogMeters(rows);
    forall i | 0 <= i < |ms| ensures BytesAt(ms, i) {
      assert RowAt(rows, i, cpuCount);
    }
    BytesExact(ms);
  }

  // ------------------------------------------- what accepted rows have in common

  function DurationMeters(rows: seq<Row>): (ms: seq<Meter>)
    ensures |ms| == |rows|
  {
    seq(|rows|, i requires 0 <= i < |rows| =>
      Meter(rows[i].totals.completed, rows[i].totals.duration, rows[i].totals.maximum))
  }

  /** So many lower-case hexadecimal digits. */
  ghost predicate LowerHex(s: string, size: nat) {
    |s| == size && forall c | c in s :: c in "0123456789abcdef"
  }

  /** Ownership by one nonce, and the digests of the source. */
  ghost predicate Bound(b: Binding) {
    && LowerHex(b.owner, 32) && LowerHex(b.btf, 64) && LowerHex(b.anchor, 64)
    && |b.formats| == 3 && LowerHex(b.formats[0], 64) && LowerHex(b.formats[1], 64) && LowerHex(b.formats[2], 64)
    && 0 < b.inode < 0x1_0000_0000_0000_0000
  }

  lemma {:induction false} HexadecimalExact(s: string, size: nat)
    ensures Hexadecimal(s, size) <==> LowerHex(s, size)
  {
    forall c: char ensures c in "0123456789abcdef" <==> '0' <= c <= '9' || 'a' <= c <= 'f' {
      DigitIn(c);
    }
    assert forall i | 0 <= i < |s| :: s[i] in s;
  }

  lemma {:induction false} DigitIn(c: char)
    ensures c in "0123456789abcdef" <==> '0' <= c <= '9' || 'a' <= c <= 'f'
  {
    var digits := "0123456789abcdef";
    if '0' <= c <= '9' {
      assert digits[c as int - '0' as int] == c;
    } else if 'a' <= c <= 'f' {
      assert digits[c as int - 'a' as int + 10] == c;
    }
  }

  lemma {:induction false} BoundExact(b: Binding)
    ensures BindingOk(b) <==> Bound(b)
  {
    HexadecimalExact(b.owner, 32);
    HexadecimalExact(b.btf, 64);
    HexadecimalExact(b.anchor, 64);
    if |b.formats| == 3 {
      HexadecimalExact(b.formats[0], 64);
      HexadecimalExact(b.formats[1], 64);
      HexadecimalExact(b.formats[2], 64);
    }
  }

  /** One row by itself: read in the tenth to a third of a second after its cutoff,
      closed after that if it is the last, with full perf coverage and with records
      and probe hits for every call that it counts. */
  ghost predicate OnSchedule(first: Row, row: Row, i: nat, last: nat, cpuCount: int) {
    var cutoff, t, p := first.started + 1_000_000_000 * i, row.totals, row.perf;
    var accounted := 3 * t.completed + t.unassociated + row.discarded;
    && row.schema == 1 && row.index == i && 1 <= row.started == first.started && row.cutoff == cutoff
    && cutoff + 100_000_000 <= row.readStarted <= cutoff + 350_000_000
    && row.readStarted <= row.readEnded <= row.readStarted + 50_000_000 && row.readEnded <= U64_MAX
    && 0 <= row.cpuUsec <= U64_MAX && 1 <= row.peakRSS <= U64_MAX && 0 <= row.discarded <= U64_MAX
    && (if i == last then row.closed && row.readEnded <= row.closeStarted <= row.closeEnded <= U64_MAX
        else !row.closed && row.closeStarted == row.closeEnded == 0)
    && p.descriptors == 3 * cpuCount && p.lost == 0 && 0 <= p.minimumEnabled <= U64_MAX
    && 3 * cpuCount * p.minimumEnabled <= p.enabled == p.running <= U64_MAX && 0 <= p.enabled
    && p.events <= U64_MAX && (p.enabled == 0 ==> p.events == 0)
    && 0 <= t.pending <= 64 && t.completed + t.pending <= 4096 && 0 <= t.unassociated <= 32768
    && 0 <= t.rejected <= t.completed && 0 <= t.logFailures <= t.completed
    && 0 <= accounted + t.pending <= p.events && (i == last ==> t.pending == 0 && p.events == accounted)
    && |row.probes| == 3
    && (forall k | 0 <= k < 3 :: row.probes[k].missed == 0 && t.completed <= row.probes[k].hits <= U64_MAX)
  }

  ghost predicate HitsKept(a: Row, b: Row, k: nat) {
    k < |a.probes| && k < |b.probes| && a.probes[k].hits <= b.probes[k].hits
  }

  /** A row against any earlier one: read after it, with nothing reset, no more calls
      rejected or without a log than ended, and no pending call gone without ending. */
  ghost predicate Follows(a: Row, b: Row) {
    var s, t := a.totals, b.totals;
    var calls := t.completed - s.completed;
    && a.readStarted <= a.readEnded < b.readStarted <= b.readEnded
    && a.cpuUsec <= b.cpuUsec && a.peakRSS <= b.peakRSS && a.discarded <= b.discarded
    && a.perf.events <= b.perf.events && a.perf.enabled <= b.perf.enabled
    && a.perf.minimumEnabled <= b.perf.minimumEnabled
    && (forall k | 0 <= k < 3 :: HitsKept(a, b, k))
    && s.unassociated <= t.unassociated && s.rejected <= t.rejected && s.logFailures <= t.logFailures
    && t.rejected - s.rejected <= calls && t.logFailures - s.logFailures <= calls
    && s.pending <= t.pending + calls
  }

  ghost predicate Limited(ms: seq<Meter>, i: nat)
    requires i < |ms|
  {
    ms[i].maximum <= i * 1_000_000_000 && ms[i].maximum <= 30_000_000_000 && 2 * ms[i].count <= ms[i].sum
  }

  /** What the checks on durations come to: some values explain every count, sum and
      maximum, none longer than the elapsed time or half a minute, and between any two
      rows the sum grows by two nanoseconds a call. */
  ghost predicate DurationsFit(ms: seq<Meter>) {
    && (exists xs: seq<nat> :: RunMeasures(xs, ms))
    && (forall i | 0 <= i < |ms| :: Limited(ms, i))
    && (forall i, j | 0 <= i < j < |ms| :: TwoEach(ms[i], ms[j]))
  }

  predicate TwoEach(a: Meter, b: Meter) {
    2 * (b.count - a.count) <= b.sum - a.sum
  }

  lemma {:induction false} TwoEachAccepted(ms: seq<Meter>, i: nat, j: nat)
    requires i < j < |ms| && forall k | 0 <= k < |ms| :: DurationsAt(ms, k)
    ensures TwoEach(ms[i], ms[j])
    decreases j
  {
    assert DurationsAt(ms, j);
    if i < j - 1 {
      TwoEachAccepted(ms, i, j - 1);
    }
  }

  lemma {:induction false} AcceptedDuration(ms: seq<Meter>, i: nat)
    requires i < |ms| && DurationsAt(ms, i)
    ensures RoomAt(0, ms, i) && Limited(ms, i)
  {}

  lemma {:induction false} FittingDuration(xs: seq<nat>, ms: seq<Meter>, i: nat)
    requires RunMeasures(xs, ms) && i < |ms| && Limited(ms, i) && (i > 0 ==> TwoEach(ms[i - 1], ms[i]))
    ensures DurationsAt(ms, i)
  {
    AnyValues(xs);
    MeterBounded(xs, ms, i);
    RunHasRoom(0, xs, ms, i);
  }

  lemma {:induction false} DurationChecksExact(ms: seq<Meter>)
    requires ms != []
    ensures (forall i | 0 <= i < |ms| :: DurationsAt(ms, i)) <==> DurationsFit(ms)
  {
    if forall i | 0 <= i < |ms| :: DurationsAt(ms, i) {
      forall i | 0 <= i < |ms| ensures RoomAt(0, ms, i) && Limited(ms, i) {
        AcceptedDuration(ms, i);
      }
      var xs := RealiseRun(0, ms);
      forall i, j | 0 <= i < j < |ms| ensures TwoEach(ms[i], ms[j]) {
        TwoEachAccepted(ms, i, j);
      }
    }
    if DurationsFit(ms) {
      var xs: seq<nat> :| RunMeasures(xs, ms);
      forall i | 0 <= i < |ms| ensures DurationsAt(ms, i) {
        FittingDuration(xs, ms, i);
      }
    }
  }

  /** What a row must satisfy, apart from its two meters. */
  predicate Rest(rows: seq<Row>, i: nat, cpuCount: int)
    requires i < |rows|
  {
    var row, final, t := rows[i], i == |rows| - 1, rows[i].totals;
    && HeaderOk(rows[0], row, i, final) && PerfOk(row.perf, cpuCount) && EventsOk(row, final) && ProbesOk(row)
    && Integer(t.completed, 0, 4096) && Integer(t.pending, 0, 64) && t.completed + t.pending <= 4096
    && Integer(t.unassociated, 0, 32768)
    && 0 <= t.rejected <= t.completed && 0 <= t.logFailures <= t.completed
    && (i > 0 ==> |rows[i - 1].probes| == 3 && ObserverMonotone(rows[i - 1], row)
                  && OutcomesStep(rows[i - 1].totals, t))
  }

  predicate OutcomesStep(a: Totals, b: Totals) {
    var calls := b.completed - a.completed;
    && a.unassociated <= b.unassociated
    && 0 <= b.rejected - a.rejected <= calls && 0 <= b.logFailures - a.logFailures <= calls
    && a.pending - b.pending <= calls
  }

  /** The two meters fit the source's 64-bit sums by themselves. */
  lemma {:induction false} SumFits(m: Meter)
    requires 0 <= m.count <= 4096 && 0 <= m.maximum <= 30_000_000_000 && m.sum <= m.count * m.maximum
    ensures m.sum <= U64_MAX
  {
    Scale(m.count, m.maximum, 30_000_000_000);
  }

  lemma {:induction false} RowSplits(rows: seq<Row>, i: nat, cpuCount: int)
    requires i < |rows|
    ensures RowAt(rows, i, cpuCount) <==>
            Rest(rows, i, cpuCount) && BytesAt(LogMeters(rows), i) && DurationsAt(DurationMeters(rows), i)
  {
    var t := rows[i].totals;
    if Integer(t.completed, 0, 4096) && t.duration <= t.completed * t.maximum && 0 <= t.maximum <= 30_000_000_000 {
      SumFits(Durations(t));
    }
    if Integer(t.completed, 0, 4096) && t.logBytes <= t.completed * t.maximumLog && 0 <= t.maximumLog <= 0xFFFF_FFFF {
      SumFits(Logs(t));
    }
  }

  lemma {:induction false} NextFollows(rows: seq<Row>, i: nat, cpuCount: int)
    requires 0 < i < |rows| && Rest(rows, i - 1, cpuCount) && Rest(rows, i, cpuCount)
    ensures Follows(rows[i - 1], rows[i])
  {
    var a, b := rows[i - 1], rows[i];
    assert HitsKept(a, b, 0) && HitsKept(a, b, 1) && HitsKept(a, b, 2);
  }

  lemma {:induction false} FollowsOn(a: Row, b: Row, c: Row)
    requires Follows(a, b) && Follows(b, c)
    ensures Follows(a, c)
  {
    forall k | 0 <= k < 3 ensures HitsKept(a, c, k) {
      assert HitsKept(a, b, k) && HitsKept(b, c, k);
    }
  }

  lemma {:induction false} AcceptedFollows(rows: seq<Row>, i: nat, j: nat, cpuCount: int)
    requires i < j < |rows| && forall k | 0 <= k < |rows| :: Rest(rows, k, cpuCount)
    ensures Follows(rows[i], rows[j])
    decreases j
  {
    NextFollows(rows, j, cpuCount);
    if i < j - 1 {
      AcceptedFollows(rows, i, j - 1, cpuCount);
      FollowsOn(rows[i], rows[j - 1], rows[j]);
    }
  }

  lemma {:induction false} RestOnSchedule(rows: seq<Row>, i: nat, cpuCount: int)
    requires i < |rows| && 1 <= cpuCount && Rest(rows, i, cpuCount)
    ensures OnSchedule(rows[0], rows[i], i, |rows| - 1, cpuCount)
  {
    assert cpuCount * 3 * rows[i].perf.minimumEnabled == 3 * cpuCount * rows[i].perf.minimumEnabled;
  }

  lemma {:induction false} ScheduleIsRest(rows: seq<Row>, i: nat, cpuCount: int)
    requires i < |rows| && 1 <= cpuCount && 0 <= rows[i].totals.completed
    requires OnSchedule(rows[0], rows[i], i, |rows| - 1, cpuCount)
    requires i > 0 ==> |rows[i - 1].probes| == 3 && Follows(rows[i - 1], rows[i])
    ensures Rest(rows, i, cpuCount)
  {
    assert cpuCount * 3 * rows[i].perf.minimumEnabled == 3 * cpuCount * rows[i].perf.minimumEnabled;
    if i > 0 {
      forall k | 0 <= k < 3 ensures rows[i].probes[k].hits >= rows[i - 1].probes[k].hits {
        assert HitsKept(rows[i - 1], rows[i], k);
      }
    }
  }

  /** What all rows together satisfy, apart from the meters. */
  lemma {:induction false} RestsExact(rows: seq<Row>, cpuCount: int)
    requires 1 <= cpuCount && forall i | 0 <= i < |rows| :: 0 <= rows[i].totals.completed
    ensures (forall i | 0 <= i < |rows| :: Rest(rows, i, cpuCount)) <==>
            && (forall i | 0 <= i < |rows| :: OnSchedule(rows[0], rows[i], i, |rows| - 1, cpuCount))
            && (forall i, j | 0 <= i < j < |rows| :: Follows(rows[i], rows[j]))
  {
    if forall i | 0 <= i < |rows| :: Rest(rows, i, cpuCount) {
      forall i | 0 <= i < |rows| ensures OnSchedule(rows[0], rows[i], i, |rows| - 1, cpuCount) {
        RestOnSchedule(rows, i, cpuCount);
      }
      forall i, j | 0 <= i < j < |rows| ensures Follows(rows[i], rows[j]) {
        AcceptedFollows(rows, i, j, cpuCount);
      }
    } else if (forall i | 0 <= i < |rows| :: OnSchedule(rows[0], rows[i], i, |rows| - 1, cpuCount))
      && (forall i, j | 0 <= i < j < |rows| :: Follows(rows[i], rows[j])) {
      forall i | 0 <= i < |rows| ensures Rest(rows, i, cpuCount) {
        assert i > 0 ==> OnSchedule(rows[0], rows[i - 1], i - 1, |rows| - 1, cpuCount);
        ScheduleIsRest(rows, i, cpuCount);
      }
    }
  }

  lemma {:induction false} RowsExact(rows: seq<Row>, cpuCount: int)
    requires rows != [] && 1 <= cpuCount
    ensures (forall i | 0 <= i < |rows| :: RowAt(rows, i, cpuCount)) <==>
            && (forall i | 0 <= i < |rows| :: Rest(rows, i, cpuCount))
            && (forall i | 0 <= i < |rows| :: BytesAt(LogMeters(rows), i))
            && (forall i | 0 <= i < |rows| :: DurationsAt(DurationMeters(rows), i))
  {
    forall i | 0 <= i < |rows|
      ensures RowAt(rows, i, cpuCount) <==>
              Rest(rows, i, cpuCount) && BytesAt(LogMeters(rows), i) && DurationsAt(DurationMeters(rows), i) {
      RowSplits(rows, i, cpuCount);
    }
  }

  lemma {:induction false} LimitsMatch(rows: seq<Row>)
    ensures (forall i | 0 <= i < |rows| :: LogMeters(rows)[i].maximum <= 0xFFFF_FFFF) <==>
            forall i | 0 <= i < |rows| :: rows[i].totals.maximumLog < 0x1_0000_0000
  {
    forall i | 0 <= i < |rows| ensures LogMeters(rows)[i].maximum == rows[i].totals.maximumLog {}
  }

  lemma {:induction false} BindingsMatch(rows: seq<Row>, binding: Binding)
    ensures (forall i | 0 <= i < |rows| :: BoundAt(rows, i, binding)) <==>
            forall i | 0 <= i < |rows| :: rows[i].binding == binding
  {
    forall i | 0 <= i < |rows| ensures BoundAt(rows, i, binding) <==> rows[i].binding == binding {}
  }

  lemma {:induction false} AllRowsExact(rows: seq<Row>, cpuCount: int)
    requires rows != [] && 1 <= cpuCount
    ensures (forall i | 0 <= i < |rows| :: RowAt(rows, i, cpuCount)) <==>
            && (forall i | 0 <= i < |rows| :: OnSchedule(rows[0], rows[i], i, |rows| - 1, cpuCount))
            && (forall i, j | 0 <= i < j < |rows| :: Follows(rows[i], rows[j]))
            && (exists xs: seq<nat> :: RunMeasures(xs, LogMeters(rows)))
            && (forall i | 0 <= i < |rows| :: rows[i].totals.maximumLog < 0x1_0000_0000)
            && DurationsFit(DurationMeters(rows))
  {
    RowsExact(rows, cpuCount);
    BytesExact(LogMeters(rows));
    DurationChecksExact(DurationMeters(rows));
    LimitsMatch(rows);
    if exists xs: seq<nat> :: RunMeasures(xs, LogMeters(rows)) {
      CountsNonNegative(rows);
      RestsExact(rows, cpuCount);
    }
  }

  lemma {:induction false} CountsNonNegative(rows: seq<Row>)
    requires exists xs: seq<nat> :: RunMeasures(xs, LogMeters(rows))
    ensures forall i | 0 <= i < |rows| :: 0 <= rows[i].totals.completed
  {
    var ms := LogMeters(rows);
    var xs: seq<nat> :| RunMeasures(xs, ms);
    forall i | 0 <= i < |rows| ensures 0 <= rows[i].totals.completed {
      assert MeasuresAt(xs, ms, i);
    }
  }

  /** A window is accepted if and only if its source and owner are well formed and
      the same in every row, each row is on schedule, each follows every earlier one,
      one growing sequence of log sizes explains all rows, and the durations fit. */
  lemma {:induction false} WindowExact(rows: seq<Row>, seconds: int, cpuCount: int, binding: Binding)
    ensures WindowAccepted(rows, seconds, cpuCount, binding) <==>
            && 1 <= seconds <= 1800 && 1 <= cpuCount <= 64 && |rows| == seconds + 1
            && Bound(binding) && (forall i | 0 <= i < |rows| :: rows[i].binding == binding)
            && (forall i | 0 <= i < |rows| :: OnSchedule(rows[0], rows[i], i, seconds, cpuCount))
            && (forall i, j | 0 <= i < j < |rows| :: Follows(rows[i], rows[j]))
            && (exists xs: seq<nat> :: RunMeasures(xs, LogMeters(rows)))
            && (forall i | 0 <= i < |rows| :: rows[i].totals.maximumLog < 0x1_0000_0000)
            && DurationsFit(DurationMeters(rows))
  {
    BoundExact(binding);
    BindingsMatch(rows, binding);
    if rows != [] && 1 <= cpuCount {
      AllRowsExact(rows, cpuCount);
    }
  }
}
