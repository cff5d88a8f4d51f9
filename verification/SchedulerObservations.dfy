/** Deltas of gapped scheduler counters and their summary (samples.py,
    scheduler_observations.py): nothing is claimed across a gap, and what is
    observed telescopes to last minus first over every maximal run. */
module SchedulerObservations {
  import opened Wrappers

  datatype Reason = Unsupported | Disabled | Unavailable
  datatype SourceState = Observed | Not(reason: Reason)

  /** What makes two readings comparable: the CPUs and version of the node's
      source, or the token of a task cohort. */
  datatype Identity = NodeSource(cpus: nat, version: nat) | Cohort(token: string)

  datatype Counters = Counters(runtime: int, wait: int, timeslices: int)

  datatype Source = Seen(identity: Identity, counters: Counters) | Missing(reason: Reason)

  datatype Row = Row(elapsed: int, source: Source)

  datatype Outcome = Gap | CohortChanged | CounterReset | Change(delta: Counters)

  /** The result for one interval. */
  datatype Delta = Delta(interval: nat, before: SourceState, after: SourceState, outcome: Outcome)

  function StateOf(source: Source): SourceState {
    if source.Seen? then Observed else Not(source.reason)
  }

  function Zero(): Counters {
    Counters(0, 0, 0)
  }

  function Add(a: Counters, b: Counters): Counters {
    Counters(a.runtime + b.runtime, a.wait + b.wait, a.timeslices + b.timeslices)
  }

  function Minus(a: Counters, b: Counters): Counters {
    Counters(a.runtime - b.runtime, a.wait - b.wait, a.timeslices - b.timeslices)
  }

  predicate NotBelow(a: Counters, b: Counters) {
    a.runtime >= b.runtime && a.wait >= b.wait && a.timeslices >= b.timeslices
  }

  // ------------------------------------------------------------ scheduling_deltas

  /** Each counter of the first reading, and what it gained, make the second's. */
  predicate Gains(a: Counters, delta: Counters, b: Counters) {
    && 0 <= delta.runtime && a.runtime + delta.runtime == b.runtime
    && 0 <= delta.wait && a.wait + delta.wait == b.wait
    && 0 <= delta.timeslices && a.timeslices + delta.timeslices == b.timeslices
  }

  /** The one state an interval is given, by what is wrong with it if anything is. */
  predicate Classifies(d: Delta, a: Row, b: Row) {
    && d.before == (match a.source case Seen(_, _) => Observed case Missing(reason) => Not(reason))
    && d.after == (match b.source case Seen(_, _) => Observed case Missing(reason) => Not(reason))
    && (d.outcome.Gap? <==> a.source.Missing? || b.source.Missing?)
    && (a.source.Seen? && b.source.Seen? ==>
          var x, y := a.source.counters, b.source.counters;
          && (d.outcome.CohortChanged? <==> a.source.identity != b.source.identity)
          && (d.outcome.CounterReset? <==>
                && a.source.identity == b.source.identity
                && (y.runtime < x.runtime || y.wait < x.wait || y.timeslices < x.timeslices))
          && (d.outcome.Change? ==> Gains(x, d.outcome.delta, y)))
  }

  predicate ClassifiesAt(deltas: seq<Delta>, rows: seq<Row>, i: nat) {
    i < |deltas| && i + 1 < |rows| && deltas[i].interval == i && Classifies(deltas[i], rows[i], rows[i + 1])
  }

  ghost predicate AreDeltas(deltas: seq<Delta>, rows: seq<Row>) {
    && |deltas| == (if rows == [] then 0 else |rows| - 1)
    && forall i | 0 <= i < |deltas| :: ClassifiesAt(deltas, rows, i)
  }

  /** scheduling_deltas. */
  method SchedulingDeltas(rows: seq<Row>) returns (results: seq<Delta>)
    ensures AreDeltas(results, rows)
  {
    results := [];
    if rows == [] {
      return;
    }
    for index := 0 to |rows| - 1
      invariant |results| == index
      invariant forall i | 0 <= i < index :: ClassifiesAt(results, rows, i)
    {
      ghost var earlier := results;
      var before, after := rows[index].source, rows[index + 1].source;
      var outcome;
      if StateOf(before) != Observed || StateOf(after) != Observed {
        outcome := Gap;
      } else if before.identity != after.identity {
        outcome := CohortChanged;
      } else if !NotBelow(after.counters, before.counters) {
        outcome := CounterReset;
      } else {
        outcome := Change(Minus(after.counters, before.counters));
      }
      results := results + [Delta(index, StateOf(before), StateOf(after), outcome)];
      forall i | 0 <= i < index ensures ClassifiesAt(results, rows, i) {
        assert ClassifiesAt(earlier, rows, i);
      }
    }
  }

  // --------------------------------------------------------------------- summary

  function ObservedOf(deltas: seq<Delta>): (observed: seq<Delta>)
    ensures |observed| <= |deltas|
    ensures forall d | d in observed :: d in deltas && d.outcome.Change?
  {
    if deltas == [] then [] else
      var last := deltas[|deltas| - 1];
      ObservedOf(deltas[..|deltas| - 1]) + if last.outcome.Change? then [last] else []
  }

  function Total(observed: seq<Delta>): Counters {
    if observed == [] then Zero() else
      var last := observed[|observed| - 1];
      Add(Total(observed[..|observed| - 1]), if last.outcome.Change? then last.outcome.delta else Zero())
  }

  function Nanos(rows: seq<Row>, d: Delta): int {
    if d.interval + 1 < |rows| then rows[d.interval + 1].elapsed - rows[d.interval].elapsed else 0
  }

  function Covered(rows: seq<Row>, observed: seq<Delta>): int {
    if observed == [] then 0
    else Covered(rows, observed[..|observed| - 1]) + Nanos(rows, observed[|observed| - 1])
  }

  datatype Mean = Mean(numerator: int, denominator: int)

  datatype Summary = Summary(
    sampleStates: map<SourceState, nat>, intervalStates: map<Outcome, nat>, intervals: nat, observedNanos: int,
    complete: bool, totals: Option<Counters>, mean: Option<Mean>)

  /** Counter(...): how often each value occurs, of those that do. */
  method Tally<T(==)>(values: seq<T>) returns (counts: map<T, nat>)
    ensures forall x :: x in counts <==> x in values
    ensures forall x | x in counts :: counts[x] == multiset(values)[x]
  {
    counts := map[];
    for i := 0 to |values|
      invariant forall x :: x in counts <==> x in values[..i]
      invariant forall x | x in counts :: counts[x] == multiset(values[..i])[x]
    {
      var x := values[i];
      assert values[..i + 1] == values[..i] + [x];
      assert x !in counts ==> multiset(values[..i])[x] == 0;
      counts := counts[x := (if x in counts then counts[x] else 0) + 1];
    }
    assert values[..|values|] == values;
  }

  /** The state of an interval without its counters. */
  function Name(d: Delta): Outcome {
    if d.outcome.Change? then Change(Zero()) else d.outcome
  }

  function NamesOf(deltas: seq<Delta>): (s: seq<Outcome>) ensures |s| == |deltas| {
    seq(|deltas|, i requires 0 <= i < |deltas| => Name(deltas[i]))
  }

  function StatesOf(rows: seq<Row>): (s: seq<SourceState>) ensures |s| == |rows| {
    seq(|rows|, i requires 0 <= i < |rows| => StateOf(rows[i].source))
  }

  // ------------------------------------------------------------ what it amounts to

  /** The intervals start, start + 1, ... end - 1, from sample start to sample end. */
  datatype Run = Run(start: nat, end: nat)

  /** The runs after one more interval, the one with index n. */
  function LaterRuns(runs: seq<Run>, n: nat, observed: bool): seq<Run> {
    if !observed then runs
    else if runs != [] && runs[|runs| - 1].end == n
    then runs[..|runs| - 1] + [Run(runs[|runs| - 1].start, n + 1)]
    else runs + [Run(n, n + 1)]
  }

  /** The maximal runs of observed intervals. */
  function Runs(deltas: seq<Delta>): seq<Run> {
    if deltas == [] then [] else
      var n := |deltas| - 1;
      LaterRuns(Runs(deltas[..n]), n, deltas[n].outcome.Change?)
  }

  predicate RunAt(runs: seq<Run>, k: nat, n: nat) {
    && k < |runs| && runs[k].start < runs[k].end <= n
    && (k > 0 ==> runs[k - 1].end < runs[k].start)
  }

  predicate InRun(runs: seq<Run>, i: nat) {
    exists k | 0 <= k < |runs| :: runs[k].start <= i < runs[k].end
  }

  predicate CoveredExactly(runs: seq<Run>, deltas: seq<Delta>, i: nat) {
    i < |deltas| && (InRun(runs, i) <==> deltas[i].outcome.Change?)
  }

  /** The runs are separated by other intervals and hold exactly the observed ones. */
  ghost predicate AreMaximalRuns(runs: seq<Run>, deltas: seq<Delta>) {
    && (forall k | 0 <= k < |runs| :: RunAt(runs, k, |deltas|))
    && (forall i | 0 <= i < |deltas| :: CoveredExactly(runs, deltas, i))
  }

  lemma {:induction false} RunsAreMaximal(deltas: seq<Delta>)
    ensures AreMaximalRuns(Runs(deltas), deltas)
  {
    if deltas != [] {
      var n := |deltas| - 1;
      var front := deltas[..n];
      RunsAreMaximal(front);
      RunsGrow(Runs(front), front, deltas[n]);
      assert deltas == front + [deltas[n]];
    }
  }

  lemma {:induction false} RunsGrow(runs: seq<Run>, front: seq<Delta>, last: Delta)
    requires AreMaximalRuns(runs, front)
    ensures AreMaximalRuns(LaterRuns(runs, |front|, last.outcome.Change?), front + [last])
  {
    var n := |front|;
    var later := LaterRuns(runs, n, last.outcome.Change?);
    var m := n + 1;
    forall k | 0 <= k < |later| ensures RunAt(later, k, m) {
      assert k < |runs| ==> RunAt(runs, k, n);
      assert k == |runs| > 0 ==> RunAt(runs, k - 1, n);
    }
    forall i | 0 <= i <= n ensures CoveredExactly(later, front + [last], i) {
      if i < n {
        assert CoveredExactly(runs, front, i);
        if InRun(runs, i) {
          var k :| 0 <= k < |runs| && runs[k].start <= i < runs[k].end;
          assert later[k].start <= i < later[k].end;
        }
        if InRun(later, i) {
          var k :| 0 <= k < |later| && later[k].start <= i < later[k].end;
          assert k < |runs| && runs[k].start <= i < runs[k].end;
        }
      } else {
        if last.outcome.Change? {
          assert later[|later| - 1].end == n + 1 && later[|later| - 1].start <= n by {
            assert runs != [] ==> RunAt(runs, |runs| - 1, n);
          }
        } else {
          forall k | 0 <= k < |runs| ensures !(runs[k].start <= n < runs[k].end) {
            assert RunAt(runs, k, n);
          }
        }
      }
    }
  }

  function CountersAt(rows: seq<Row>, i: nat): Counters {
    if i < |rows| && rows[i].source.Seen? then rows[i].source.counters else Zero()
  }

  function ElapsedAt(rows: seq<Row>, i: nat): int {
    if i < |rows| then rows[i].elapsed else 0
  }

  /** Last minus first counter over a run. */
  function RunChange(rows: seq<Row>, run: Run): Counters {
    Minus(CountersAt(rows, run.end), CountersAt(rows, run.start))
  }

  function RunLength(rows: seq<Row>, run: Run): int {
    ElapsedAt(rows, run.end) - ElapsedAt(rows, run.start)
  }

  function RunTotal(rows: seq<Row>, runs: seq<Run>): Counters {
    if runs == [] then Zero()
    else Add(RunTotal(rows, runs[..|runs| - 1]), RunChange(rows, runs[|runs| - 1]))
  }

  function RunNanos(rows: seq<Row>, runs: seq<Run>): int {
    if runs == [] then 0 else RunNanos(rows, runs[..|runs| - 1]) + RunLength(rows, runs[|runs| - 1])
  }

  lemma {:induction false} RunTotalSnoc(rows: seq<Row>, front: seq<Run>, last: Run)
    ensures RunTotal(rows, front + [last]) == Add(RunTotal(rows, front), RunChange(rows, last))
    ensures RunNanos(rows, front + [last]) == RunNanos(rows, front) + RunLength(rows, last)
  {
    assert (front + [last])[..|front|] == front;
  }

  /** The interval's delta is what the counters gained in it. */
  predicate GainedAt(rows: seq<Row>, d: Delta, n: nat) {
    d.outcome.Change? && RunChange(rows, Run(n, n + 1)) == d.outcome.delta
  }

  lemma {:induction false} ChangeIsGained(rows: seq<Row>, d: Delta, n: nat)
    requires n + 1 < |rows| && d.outcome.Change? && Classifies(d, rows[n], rows[n + 1])
    ensures GainedAt(rows, d, n)
  {}

  /** An observed interval adds its delta to whichever run it extends or starts. */
  lemma {:induction false} IntervalAdds(rows: seq<Row>, n: nat, d: Delta, start: nat)
    requires d.interval == n && n + 1 < |rows| && GainedAt(rows, d, n)
    ensures RunChange(rows, Run(start, n + 1)) == Add(RunChange(rows, Run(start, n)), d.outcome.delta)
    ensures RunLength(rows, Run(start, n + 1)) == RunLength(rows, Run(start, n)) + Nanos(rows, d)
    ensures RunChange(rows, Run(n, n)) == Zero() && RunLength(rows, Run(n, n)) == 0
  {
  }

  lemma {:induction false} LaterRunTotals(rows: seq<Row>, runs: seq<Run>, n: nat, d: Delta)
    requires d.interval == n && n + 1 < |rows| && GainedAt(rows, d, n)
    ensures var later := LaterRuns(runs, n, true);
            && RunTotal(rows, later) == Add(RunTotal(rows, runs), d.outcome.delta)
            && RunNanos(rows, later) == RunNanos(rows, runs) + Nanos(rows, d)
  {
    if runs != [] && runs[|runs| - 1].end == n {
      var front, last := runs[..|runs| - 1], runs[|runs| - 1];
      assert last == Run(last.start, n) && runs == front + [last];
      assert LaterRuns(runs, n, true) == front + [Run(last.start, n + 1)];
      RunTotalSnoc(rows, front, last);
      RunTotalSnoc(rows, front, Run(last.start, n + 1));
      IntervalAdds(rows, n, d, last.start);
    } else {
      IntervalAdds(rows, n, d, n);
      RunTotalSnoc(rows, runs, Run(n, n + 1));
    }
  }

  lemma {:induction false} ObservedSnoc(rows: seq<Row>, front: seq<Delta>, last: Delta)
    ensures var observed, more := ObservedOf(front), ObservedOf(front + [last]);
            if last.outcome.Change?
            then |more| == |observed| + 1 && Total(more) == Add(Total(observed), last.outcome.delta)
                 && Covered(rows, more) == Covered(rows, observed) + Nanos(rows, last)
            else more == observed
  {
    assert (front + [last])[..|front|] == front;
    var observed := ObservedOf(front);
    if last.outcome.Change? {
      assert (observed + [last])[..|observed|] == observed;
    }
  }

  lemma {:induction false} RunsSnoc(front: seq<Delta>, last: Delta)
    ensures Runs(front + [last]) == LaterRuns(Runs(front), |front|, last.outcome.Change?)
  {
    assert (front + [last])[..|front|] == front;
  }

  /** The totals are last minus first over each maximal observed run, and so is the
      time covered; no difference taken across a gap is in them. */
  lemma {:induction false} TotalsTelescope(rows: seq<Row>, deltas: seq<Delta>)
    requires |deltas| < |rows| && forall i | 0 <= i < |deltas| :: ClassifiesAt(deltas, rows, i)
    ensures Total(ObservedOf(deltas)) == RunTotal(rows, Runs(deltas))
    ensures Covered(rows, ObservedOf(deltas)) == RunNanos(rows, Runs(deltas))
  {
    if deltas != [] {
      var n := |deltas| - 1;
      var front, last := deltas[..n], deltas[n];
      forall i | 0 <= i < n ensures ClassifiesAt(front, rows, i) {
        assert ClassifiesAt(deltas, rows, i);
      }
      TotalsTelescope(rows, front);
      assert ClassifiesAt(deltas, rows, n) && deltas == front + [last];
      if last.outcome.Change? {
        ChangeIsGained(rows, last, n);
      }
      TelescopeStep(rows, front, last);
    }
  }

  lemma {:induction false} TelescopeStep(rows: seq<Row>, front: seq<Delta>, last: Delta)
    requires last.interval == |front| && |front| + 1 < |rows|
    requires last.outcome.Change? ==> GainedAt(rows, last, |front|)
    requires Total(ObservedOf(front)) == RunTotal(rows, Runs(front))
    requires Covered(rows, ObservedOf(front)) == RunNanos(rows, Runs(front))
    ensures Total(ObservedOf(front + [last])) == RunTotal(rows, Runs(front + [last]))
    ensures Covered(rows, ObservedOf(front + [last])) == RunNanos(rows, Runs(front + [last]))
  {
    ObservedSnoc(rows, front, last);
    RunsSnoc(front, last);
    if last.outcome.Change? {
      LaterRunTotals(rows, Runs(front), |front|, last);
    } else {
      assert Runs(front + [last]) == Runs(front);
    }
  }

  predicate ChangeAt(deltas: seq<Delta>, i: nat) {
    i < |deltas| && deltas[i].outcome.Change?
  }

  /** All intervals observed is one run over the whole window. */
  lemma {:induction false} CompleteIsOneRun(deltas: seq<Delta>)
    requires deltas != [] && |ObservedOf(deltas)| == |deltas|
    ensures Runs(deltas) == [Run(0, |deltas|)]
  {
    var n := |deltas| - 1;
    assert deltas[n].outcome.Change? && |ObservedOf(deltas[..n])| == n;
    if n > 0 {
      CompleteIsOneRun(deltas[..n]);
    }
  }

  /** With complete coverage the totals and the time covered are those of the window. */
  lemma {:induction false} CompleteIsWholeWindow(rows: seq<Row>, deltas: seq<Delta>)
    requires AreDeltas(deltas, rows) && deltas != [] && |ObservedOf(deltas)| == |deltas|
    ensures Total(ObservedOf(deltas)) == Minus(CountersAt(rows, |rows| - 1), CountersAt(rows, 0))
    ensures Covered(rows, ObservedOf(deltas)) == rows[|rows| - 1].elapsed - rows[0].elapsed
  {
    CompleteIsOneRun(deltas);
    TotalsTelescope(rows, deltas);
    assert [Run(0, |deltas|)][..0] == [];
  }

  predicate Advances(rows: seq<Row>, i: nat) {
    0 < i < |rows| && rows[i - 1].elapsed < rows[i].elapsed
  }

  /** What is covered falls short of the time passed, and by something if any interval is missing. */
  ghost predicate FallsShort(covered: int, passed: int, observed: nat, intervals: nat) {
    covered <= passed && (covered == passed ==> observed == intervals)
  }

  ghost predicate CoverageFallsShort(rows: seq<Row>, deltas: seq<Delta>) {
    FallsShort(Covered(rows, ObservedOf(deltas)), ElapsedAt(rows, |deltas|) - ElapsedAt(rows, 0),
               |ObservedOf(deltas)|, |deltas|)
  }

  lemma {:induction false} CoverageStep(rows: seq<Row>, front: seq<Delta>, last: Delta)
    requires CoverageFallsShort(rows, front)
    requires last.interval == |front| && Advances(rows, |front| + 1)
    ensures CoverageFallsShort(rows, front + [last])
  {
    ObservedSnoc(rows, front, last);
    assert Nanos(rows, last) == ElapsedAt(rows, |front| + 1) - ElapsedAt(rows, |front|) > 0;
  }

  lemma {:induction false} CoveredFallsShort(rows: seq<Row>, deltas: seq<Delta>)
    requires |deltas| < |rows| && forall i | 0 <= i < |deltas| :: ClassifiesAt(deltas, rows, i)
    requires forall i | 0 < i < |rows| :: Advances(rows, i)
    ensures CoverageFallsShort(rows, deltas)
  {
    if deltas != [] {
      var n := |deltas| - 1;
      var front, last := deltas[..n], deltas[n];
      forall i | 0 <= i < n ensures ClassifiesAt(front, rows, i) {
        assert ClassifiesAt(deltas, rows, i);
      }
      CoveredFallsShort(rows, front);
      assert ClassifiesAt(deltas, rows, n) && Advances(rows, n + 1);
      CoverageStep(rows, front, last);
      assert deltas == front + [last];
    }
  }

  /** The window is fully observed exactly when the time covered is its length. */
  lemma {:induction false} CompleteIffCovered(rows: seq<Row>, deltas: seq<Delta>)
    requires AreDeltas(deltas, rows) && deltas != [] && forall i | 0 < i < |rows| :: Advances(rows, i)
    ensures |ObservedOf(deltas)| == |deltas| <==>
            Covered(rows, ObservedOf(deltas)) == rows[|rows| - 1].elapsed - rows[0].elapsed
  {
    CoveredFallsShort(rows, deltas);
    assert |deltas| == |rows| - 1;
    if |ObservedOf(deltas)| == |deltas| {
      CompleteIsWholeWindow(rows, deltas);
    }
  }

  // ------------------------------------------------------- scheduler_observations

  /** Whether each reading was observed, and if not why. */
  ghost function ShownBy(rows: seq<Row>): seq<SourceState> {
    seq(|rows|, i requires 0 <= i < |rows| =>
      match rows[i].source case Missing(reason) => Not(reason) case Seen(_, _) => Observed)
  }

  /** What each interval was found to be, its counters aside. */
  ghost function FoundFor(deltas: seq<Delta>): seq<Outcome> {
    seq(|deltas|, i requires 0 <= i < |deltas| =>
      match deltas[i].outcome
      case Gap => Gap
      case CohortChanged => CohortChanged
      case CounterReset => CounterReset
      case Change(_) => Change(Counters(0, 0, 0)))
  }

  /** The report on the rows. */
  ghost predicate Summarises(s: Summary, rows: seq<Row>, deltas: seq<Delta>) {
    var runs := Runs(deltas);
    && AreDeltas(deltas, rows) && AreMaximalRuns(runs, deltas) && s.intervals == |deltas|
    && (forall x :: x in s.sampleStates <==> x in ShownBy(rows))
    && (forall x | x in s.sampleStates :: s.sampleStates[x] == multiset(ShownBy(rows))[x])
    && (forall x :: x in s.intervalStates <==> x in FoundFor(deltas))
    && (forall x | x in s.intervalStates :: s.intervalStates[x] == multiset(FoundFor(deltas))[x])
    && s.observedNanos == RunNanos(rows, runs)
    && (s.totals == if runs == [] then None else Some(RunTotal(rows, runs)))
    && (s.complete <==> rows != [] && runs == [Run(0, |rows| - 1)])
    && (s.mean == if s.totals.Some? && s.totals.value.timeslices != 0
                  then Some(Mean(s.totals.value.wait, s.totals.value.timeslices)) else None)
  }

  lemma {:induction false} NoneObservedNoRuns(deltas: seq<Delta>)
    ensures ObservedOf(deltas) == [] <==> Runs(deltas) == []
  {
    if deltas != [] {
      NoneObservedNoRuns(deltas[..|deltas| - 1]);
    }
  }

  lemma {:induction false} OneRunIsComplete(deltas: seq<Delta>)
    requires deltas != []
    ensures |ObservedOf(deltas)| == |deltas| <==> Runs(deltas) == [Run(0, |deltas|)]
  {
    if |ObservedOf(deltas)| == |deltas| {
      CompleteIsOneRun(deltas);
    }
    if Runs(deltas) == [Run(0, |deltas|)] {
      RunsAreMaximal(deltas);
      forall i | 0 <= i < |deltas| ensures ChangeAt(deltas, i) {
        assert CoveredExactly(Runs(deltas), deltas, i);
        assert Runs(deltas)[0].start <= i < Runs(deltas)[0].end;
      }
      AllObserved(deltas);
    }
  }

  lemma {:induction false} AllObserved(deltas: seq<Delta>)
    requires forall i | 0 <= i < |deltas| :: ChangeAt(deltas, i)
    ensures |ObservedOf(deltas)| == |deltas|
  {
    if deltas != [] {
      var n := |deltas| - 1;
      forall i | 0 <= i < n ensures ChangeAt(deltas[..n], i) {
        assert ChangeAt(deltas, i);
      }
      AllObserved(deltas[..n]);
      assert ChangeAt(deltas, n);
    }
  }

  /** scheduler_observations, with the intervals it summarises. */
  method Observe(rows: seq<Row>) returns (s: Summary, changes: seq<Delta>)
    ensures Summarises(s, rows, changes)
  {
    changes := SchedulingDeltas(rows);
    var states := Tally(NamesOf(changes));
    var sources := Tally(StatesOf(rows));
    assert NamesOf(changes) == FoundFor(changes) && StatesOf(rows) == ShownBy(rows);
    var observed := ObservedOf(changes);
    var totals, mean := None, None;
    if observed != [] {
      totals := Some(Total(observed));
      if totals.value.timeslices != 0 {
        mean := Some(Mean(totals.value.wait, totals.value.timeslices));
      }
    }
    RunsAreMaximal(changes);
    NoneObservedNoRuns(changes);
    if changes != [] {
      TotalsTelescope(rows, changes);
      OneRunIsComplete(changes);
    }
    s := Summary(sources, states, |changes|, Covered(rows, observed), changes != [] && |observed| == |changes|,
                 totals, mean);
  }
}
