/** The scheduler observer's aggregate (prototype/trace/qualification/scheduler/
    aggregate.go), whose snapshots are the rows that the replay validates: the
    replay never rejects the observations of an honest run. */
module SchedulerProducer {
  import opened Limits
  import opened Wrappers
  import opened Sums
  import opened Histogram
  import opened SchedulerWindow

  datatype Event =
    | Wake(time: nat, pid: nat)
    | NewTask(time: nat, pid: nat)
    | Exit(time: nat, pid: nat)
    | Switch(time: nat, prev: nat, next: nat, prevRunnable: bool)

  predicate Valid(e: Event) {
    e.time != 0 && if e.Switch? then e.prev != e.next else e.pid > 0
  }

  /** The aggregate's fields; counts.pending is filled in only by a snapshot. */
  datatype State = State(pending: map<nat, nat>, maximum: nat, last: nat, counts: Observation)

  function Empty(): Histogram {
    Histogram(Repeat(0, BUCKETS), 0, 0, 0)
  }

  function Initial(maximum: nat): State {
    State(map[], maximum, 0, Observation(Empty(), 0, 0, 0, 0, 0))
  }

  function Record(h: Histogram, wait: nat): Histogram
    requires BitLength(wait) < |h.buckets|
  {
    Histogram(Bump(h.buckets, BitLength(wait)), h.count + 1, h.sum + wait,
              if wait > h.maximum then wait else h.maximum)
  }

  function Enqueue(s: State, pid: nat, now: nat): Option<State> {
    if pid == 0 then Some(s)
    else if pid in s.pending then
      Some(s.(pending := s.pending[pid := now], counts := s.counts.(replaced := s.counts.replaced + 1)))
    else if |s.pending| >= s.maximum then None
    else Some(s.(pending := s.pending[pid := now]))
  }

  function SwitchIn(s: State, pid: nat, now: nat): Option<State> {
    if pid == 0 then Some(s)
    else if pid !in s.pending then Some(s.(counts := s.counts.(unmatched := s.counts.unmatched + 1)))
    else if s.pending[pid] > now || now - s.pending[pid] > U64_MAX - s.counts.waits.sum
            || BitLength(now - s.pending[pid]) >= |s.counts.waits.buckets| then None
    else
      Some(s.(pending := s.pending - {pid},
              counts := s.counts.(waits := Record(s.counts.waits, now - s.pending[pid]))))
  }

  function Tick(s: State, now: nat): State {
    s.(last := now, counts := s.counts.(events := s.counts.events + 1))
  }

  /** The effect of an event on the pending tasks and their counters. */
  function Apply(t: State, e: Event): Option<State> {
    match e
    case Wake(now, pid) => Enqueue(t, pid, now)
    case NewTask(now, pid) => if pid in t.pending then None else Enqueue(t, pid, now)
    case Exit(_, pid) =>
      if pid in t.pending then
        Some(t.(pending := t.pending - {pid}, counts := t.counts.(exited := t.counts.exited + 1)))
      else Some(t)
    case Switch(now, prev, next, runnable) =>
      var u := SwitchIn(t, next, now);
      if u.None? || !runnable then u else Enqueue(u.value, prev, now)
  }

  /** One event; None is the permanent failure of the source. */
  function Observe(s: State, e: Event): Option<State> {
    if !Valid(e) || e.time < s.last || s.counts.events >= LIMIT then None else Apply(Tick(s, e.time), e)
  }

  function Snapshot(s: State): Observation {
    s.counts.(pending := |s.pending|)
  }

  function Run(events: seq<Event>, maximum: nat): Option<State> {
    if events == [] then Some(Initial(maximum))
    else
      var s := Run(events[..|events| - 1], maximum);
      if s.None? then None else Observe(s.value, events[|events| - 1])
  }

  // --------------------------------------------------------- the Go aggregate

  class Aggregate {
    var pending: map<nat, nat>
    const maximum: nat
    var last: nat
    var counts: Observation
    var failed: bool

    function Value(): State
      reads this
    {
      State(pending, maximum, last, counts)
    }

    constructor (maximum: nat)
      requires 1 <= maximum <= 32768
      ensures Value() == Initial(maximum) && !failed
    {
      this.maximum := maximum;
      pending, last, counts, failed := map[], 0, Observation(Empty(), 0, 0, 0, 0, 0), false;
    }

    method EnqueueTask(pid: nat, now: nat) returns (ok: bool)
      modifies this
      ensures failed == old(failed)
      ensures ok <==> Enqueue(old(Value()), pid, now).Some?
      ensures ok ==> Value() == Enqueue(old(Value()), pid, now).value
    {
      if pid == 0 {
        return true;
      }
      if pid in pending {
        counts := counts.(replaced := counts.replaced + 1);
      } else if |pending| >= maximum {
        return false;
      }
      pending := pending[pid := now];
      return true;
    }

    method SwitchInTask(pid: nat, now: nat) returns (ok: bool)
      requires |counts.waits.buckets| == BUCKETS && 0 <= counts.waits.sum
      modifies this
      ensures failed == old(failed)
      ensures ok <==> SwitchIn(old(Value()), pid, now).Some?
      ensures ok ==> Value() == SwitchIn(old(Value()), pid, now).value
    {
      if pid == 0 {
        return true;
      }
      if pid !in pending {
        counts := counts.(unmatched := counts.unmatched + 1);
        return true;
      }
      var start := pending[pid];
      if start > now || now - start > U64_MAX - counts.waits.sum {
        return false;
      }
      var wait := now - start;
      U64Bucket(wait);
      var h := counts.waits;
      counts := counts.(waits := Histogram(
        h.buckets[BitLength(wait) := h.buckets[BitLength(wait)] + 1], h.count + 1, h.sum + wait,
        if wait > h.maximum then wait else h.maximum));
      pending := pending - {pid};
      return true;
    }

    /** The switch over the event's kind. */
    method ApplyEvent(e: Event) returns (ok: bool)
      requires |counts.waits.buckets| == BUCKETS && 0 <= counts.waits.sum
      modifies this
      ensures failed == old(failed)
      ensures ok <==> Apply(old(Value()), e).Some?
      ensures ok ==> Value() == Apply(old(Value()), e).value
    {
      match e {
        case Wake(now, pid) =>
          ok := EnqueueTask(pid, now);
        case NewTask(now, pid) =>
          if pid in pending {
            return false;
          }
          ok := EnqueueTask(pid, now);
        case Exit(_, pid) =>
          if pid in pending {
            counts := counts.(exited := counts.exited + 1);
            pending := pending - {pid};
          }
          ok := true;
        case Switch(now, prev, next, runnable) =>
          ok := SwitchInTask(next, now);
          if ok && runnable {
            ok := EnqueueTask(prev, now);
          }
      }
    }

    method ObserveEvent(e: Event) returns (ok: bool)
      requires |counts.waits.buckets| == BUCKETS && 0 <= counts.waits.sum
      modifies this
      ensures ok <==> !old(failed) && Observe(old(Value()), e).Some?
      ensures ok ==> !failed && Value() == Observe(old(Value()), e).value
      ensures !ok ==> failed
    {
      if failed {
        return false;
      }
      if !Valid(e) || e.time < last || counts.events >= LIMIT {
        failed := true;
        return false;
      }
      last := e.time;
      counts := counts.(events := counts.events + 1);
      assert Value() == Tick(old(Value()), e.time);
      ok := ApplyEvent(e);
      if !ok {
        failed := true;
      }
    }

    method TakeSnapshot() returns (r: Option<Observation>)
      ensures r == if failed then None else Some(Snapshot(Value()))
    {
      if failed {
        return None;
      }
      return Some(counts.(pending := |pending|));
    }
  }

  /** A run that has failed stays failed. */
  lemma {:induction false} RunFails(events: seq<Event>, maximum: nat, n: nat)
    requires n <= |events| && Run(events[..n], maximum).None?
    ensures Run(events, maximum).None?
    decreases |events|
  {
    if n < |events| {
      var front := events[..|events| - 1];
      assert front[..n] == events[..n];
      RunFails(front, maximum, n);
    } else {
      assert events[..n] == events;
    }
  }

  lemma {:induction false} ObserveShape(s: State, e: Event)
    requires Observe(s, e).Some? && |s.counts.waits.buckets| == BUCKETS && 0 <= s.counts.waits.sum
    ensures var t := Observe(s, e).value;
            t.maximum == s.maximum && |t.counts.waits.buckets| == BUCKETS && 0 <= t.counts.waits.sum
  {
    ObserveWaits(s, e);
  }

  lemma {:induction false} RunShape(events: seq<Event>, maximum: nat)
    requires Run(events, maximum).Some?
    ensures var s := Run(events, maximum).value;
            s.maximum == maximum && |s.counts.waits.buckets| == BUCKETS && 0 <= s.counts.waits.sum
  {
    if events != [] {
      var front := events[..|events| - 1];
      RunShape(front, maximum);
      ObserveShape(Run(front, maximum).value, events[|events| - 1]);
    }
  }

  /** Feeding a new aggregate the drained events is a run of the specification. */
  method Drain(a: Aggregate, events: seq<Event>) returns (ok: bool)
    requires a.Value() == Initial(a.maximum) && !a.failed
    modifies a
    ensures ok <==> Run(events, a.maximum).Some?
    ensures ok ==> !a.failed && a.Value() == Run(events, a.maximum).value
    ensures !ok ==> a.failed
  {
    for i := 0 to |events|
      invariant !a.failed && Run(events[..i], a.maximum) == Some(a.Value())
    {
      RunShape(events[..i], a.maximum);
      assert events[..i + 1][..i] == events[..i] && events[..i + 1][i] == events[i];
      ok := a.ObserveEvent(events[i]);
      if !ok {
        RunFails(events, a.maximum, i + 1);
        return false;
      }
    }
    assert events[..|events|] == events;
    return true;
  }

  // --------------------------------------------------- what every run maintains

  lemma {:induction false} Pow2Sum(a: nat, b: nat)
    ensures Pow2(a + b) == Pow2(a) * Pow2(b)
  {
    if a > 0 {
      Pow2Sum(a - 1, b);
    }
  }

  lemma {:induction false} Pow2Of64()
    ensures Pow2(64) == U64_MAX + 1
  {
    assert Pow2(4) == 16;
    Pow2Sum(4, 4);
    assert Pow2(8) == 0x100;
    Pow2Sum(8, 8);
    assert Pow2(16) == 0x1_0000;
    Pow2Sum(16, 16);
    assert Pow2(32) == 0x1_0000_0000;
    Pow2Sum(32, 32);
  }

  /** Every 64-bit number has one of the 65 buckets. */
  lemma {:induction false} U64Bucket(w: nat)
    requires w <= U64_MAX
    ensures BitLength(w) < BUCKETS
  {
    Pow2Of64();
    BucketExact(w, BitLength(w));
    if BitLength(w) >= BUCKETS {
      LowerMonotone(BUCKETS, BitLength(w));
    }
  }

  /** The wait, if any, that this event completes. */
  function Emitted(s: State, e: Event): seq<nat> {
    if e.Switch? && e.next != 0 && e.next in s.pending && s.pending[e.next] <= e.time
    then [e.time - s.pending[e.next]] else []
  }

  function Waits(events: seq<Event>, maximum: nat): seq<nat> {
    if events == [] then []
    else
      var before := events[..|events| - 1];
      Waits(before, maximum)
      + if Run(before, maximum).Some? then Emitted(Run(before, maximum).value, events[|events| - 1]) else []
  }

  /** The numeric half of the invariant: no waits are mentioned. */
  ghost predicate Bounded(s: State, started: nat) {
    && s.counts.waits.sum <= U64_MAX
    && |s.pending| <= s.maximum <= 32768
    && (forall p | p in s.pending :: started <= s.pending[p] <= s.last)
    && Counters(Snapshot(s)) && Covered(Snapshot(s))
  }

  ghost predicate Inv(s: State, ws: seq<nat>, started: nat) {
    Bounded(s, started) && Explains(ws, s.counts.waits) && (ws != [] ==> Max(ws) <= s.last - started)
  }

  lemma {:induction false} RecordExplains(ws: seq<nat>, h: Histogram, wait: nat)
    requires Explains(ws, h) && BitLength(wait) < BUCKETS
    ensures Explains(ws + [wait], Record(h, wait))
  {
    FitsOne(wait, ws, h.buckets);
    assert forall w | w in ws + [wait] :: w in ws || w == wait;
    SumSnoc(ws, wait);
    MaxConcat(ws, [wait]);
  }

  ghost predicate PendingSince(m: map<nat, nat>, started: nat, last: nat) {
    forall p | p in m :: started <= m[p] <= last
  }

  lemma {:induction false} EnqueueKeeps(s: State, pid: nat, now: nat, started: nat)
    requires Enqueue(s, pid, now).Some? && started <= now == s.last
    requires PendingSince(s.pending, started, now) && |s.pending| <= s.maximum
    ensures var t := Enqueue(s, pid, now).value;
            && t.last == s.last && t.maximum == s.maximum && t.counts == s.counts.(replaced := t.counts.replaced)
            && 0 <= t.counts.replaced - s.counts.replaced <= 1
            && |s.pending| <= |t.pending| <= s.maximum && |t.pending| <= |s.pending| + 1
            && PendingSince(t.pending, started, now)
  {
    if pid != 0 {
      var m := s.pending[pid := now];
      if pid in s.pending {
        assert m.Keys == s.pending.Keys;
      } else {
        assert m.Keys == s.pending.Keys + {pid};
      }
      assert |m| == |m.Keys| && |s.pending| == |s.pending.Keys|;
    }
  }

  lemma {:induction false} RemoveOne(m: map<nat, nat>, p: nat)
    requires p in m
    ensures |m - {p}| == |m| - 1
  {
    assert (m - {p}).Keys == m.Keys - {p};
    assert |m| == |m.Keys| && |m - {p}| == |(m - {p}).Keys|;
  }

  lemma {:induction false} SwitchInKeeps(s: State, pid: nat, now: nat, started: nat)
    requires SwitchIn(s, pid, now).Some? && started <= now == s.last
    requires PendingSince(s.pending, started, now) && s.counts.waits.sum <= U64_MAX
    ensures var t, completes := SwitchIn(s, pid, now).value, if pid != 0 && pid in s.pending then 1 else 0;
            && t.last == s.last && t.maximum == s.maximum
            && t.counts == s.counts.(waits := t.counts.waits, unmatched := t.counts.unmatched)
            && t.counts.unmatched == s.counts.unmatched + (if pid != 0 && pid !in s.pending then 1 else 0)
            && t.counts.waits.count == s.counts.waits.count + completes
            && t.counts.waits.sum <= U64_MAX
            && |t.pending| == |s.pending| - completes
            && PendingSince(t.pending, started, now)
  {
    if pid != 0 && pid in s.pending {
      RemoveOne(s.pending, pid);
    }
  }

  /** From a ticked state, at most one counter of each kind may have moved. */
  ghost predicate Moved(s: State, t: State, now: nat, started: nat) {
    && t.last == now && t.maximum == s.maximum && |t.pending| <= t.maximum
    && t.counts.events == s.counts.events + 1
    && 0 <= t.counts.replaced - s.counts.replaced <= 1
    && 0 <= t.counts.unmatched - s.counts.unmatched
    && 0 <= t.counts.exited - s.counts.exited <= 1
    && 0 <= t.counts.waits.count - s.counts.waits.count
    && t.counts.waits.count + t.counts.unmatched <= s.counts.waits.count + s.counts.unmatched + 1
    && t.counts.waits.sum <= U64_MAX
    && |s.pending| - |t.pending| <= t.counts.waits.count - s.counts.waits.count + t.counts.exited - s.counts.exited
    && |t.pending| <= |s.pending| + 1
    && PendingSince(t.pending, started, now)
  }

  lemma {:induction false} ObserveMoves(s: State, e: Event, started: nat)
    requires Observe(s, e).Some? && started <= e.time && s.counts.waits.sum <= U64_MAX
    requires PendingSince(s.pending, started, s.last) && |s.pending| <= s.maximum
    ensures Moved(s, Observe(s, e).value, e.time, started)
  {
    var t := Tick(s, e.time);
    assert PendingSince(t.pending, started, e.time);
    match e {
      case Wake(now, pid) => EnqueueKeeps(t, pid, now, started);
      case NewTask(now, pid) => EnqueueKeeps(t, pid, now, started);
      case Exit(_, pid) => if pid in t.pending { RemoveOne(t.pending, pid); }
      case Switch(now, prev, next, runnable) =>
        SwitchInKeeps(t, next, now, started);
        if runnable {
          EnqueueKeeps(SwitchIn(t, next, now).value, prev, now, started);
        }
    }
  }

  /** What one event does to the counters, whatever the waits are. */
  lemma {:induction false} ObserveCounts(s: State, e: Event, started: nat)
    requires Bounded(s, started) && Observe(s, e).Some? && started <= e.time
    ensures Bounded(Observe(s, e).value, started)
    ensures CoverageStep(Snapshot(s), Snapshot(Observe(s, e).value))
    ensures Observe(s, e).value.last == e.time
  {
    ObserveMoves(s, e, started);
  }

  lemma {:induction false} ObserveWaits(s: State, e: Event)
    requires Observe(s, e).Some?
    ensures var h := Observe(s, e).value.counts.waits;
            if Emitted(s, e) == [] then h == s.counts.waits
            else BitLength(Emitted(s, e)[0]) < |s.counts.waits.buckets| && h == Record(s.counts.waits, Emitted(s, e)[0])
  {}

  lemma {:induction false} ObserveKeepsInv(s: State, e: Event, ws: seq<nat>, started: nat)
    requires Inv(s, ws, started) && Observe(s, e).Some? && started <= e.time
    ensures Inv(Observe(s, e).value, ws + Emitted(s, e), started)
  {
    ObserveCounts(s, e, started);
    ObserveWaits(s, e);
    if Emitted(s, e) == [] {
      assert ws + [] == ws;
    } else {
      RecordExplains(ws, s.counts.waits, Emitted(s, e)[0]);
      MaxConcat(ws, Emitted(s, e));
    }
  }

  /** Every event of the run is at or after the start of the capture. */
  ghost predicate Since(events: seq<Event>, started: nat) {
    forall e | e in events :: started <= e.time
  }

  lemma {:induction false} SincePrefix(events: seq<Event>, started: nat, n: nat)
    requires Since(events, started) && n <= |events|
    ensures Since(events[..n], started)
  {
    assert forall e | e in events[..n] :: e in events;
  }

  lemma {:induction false} RunKeepsInv(events: seq<Event>, maximum: nat, started: nat)
    requires maximum <= 32768 && Since(events, started) && Run(events, maximum).Some?
    ensures Inv(Run(events, maximum).value, Waits(events, maximum), started)
  {
    if events != [] {
      var n := |events| - 1;
      assert events[n] in events && forall e | e in events[..n] :: e in events;
      RunKeepsInv(events[..n], maximum, started);
      ObserveKeepsInv(Run(events[..n], maximum).value, events[n], Waits(events[..n], maximum), started);
    }
  }

  lemma {:induction false} LastEvent(events: seq<Event>, maximum: nat, started: nat)
    requires maximum <= 32768 && Since(events, started) && Run(events, maximum).Some? && events != []
    ensures Run(events[..|events| - 1], maximum).Some?
    ensures CoverageStep(Snapshot(Run(events[..|events| - 1], maximum).value), Snapshot(Run(events, maximum).value))
    ensures Run(events, maximum).value.last == events[|events| - 1].time
  {
    var n := |events| - 1;
    assert events[n] in events && forall e | e in events[..n] :: e in events;
    RunKeepsInv(events[..n], maximum, started);
    ObserveCounts(Run(events[..n], maximum).value, events[n], started);
  }

  /** A prefix of a run is a run, and its waits a prefix of the run's waits. */
  lemma {:induction false} PrefixRun(events: seq<Event>, maximum: nat, started: nat, n: nat)
    requires maximum <= 32768 && Since(events, started) && Run(events, maximum).Some? && n <= |events|
    ensures Run(events[..n], maximum).Some?
    ensures Waits(events[..n], maximum) <= Waits(events, maximum)
    ensures CoverageStep(Snapshot(Run(events[..n], maximum).value), Snapshot(Run(events, maximum).value))
  {
    if n == |events| {
      assert events[..n] == events;
    } else {
      var m := |events| - 1;
      assert forall e | e in events[..m] :: e in events;
      assert events[..m][..n] == events[..n];
      LastEvent(events, maximum, started);
      PrefixRun(events[..m], maximum, started, n);
    }
  }

  // ------------------------------------- what happened, read off the events alone

  /** The event puts the task on a run queue; task 0 is never queued. */
  predicate Enqueues(e: Event, pid: nat) {
    pid != 0 && match e
      case Wake(_, p) => p == pid
      case NewTask(_, p) => p == pid
      case Exit(_, _) => false
      case Switch(_, prev, _, runnable) => runnable && prev == pid
  }

  /** The event takes the task off the queue, to run or for good. */
  predicate Dequeues(e: Event, pid: nat) {
    pid != 0 && ((e.Exit? && e.pid == pid) || (e.Switch? && e.next == pid))
  }

  ghost predicate Untouched(events: seq<Event>, k: nat, pid: nat)
    requires k < |events|
  {
    !Enqueues(events[k], pid) && !Dequeues(events[k], pid)
  }

  /** The task is queued, and event j is the last that queued it. */
  ghost predicate QueuedSince(events: seq<Event>, pid: nat, j: nat) {
    j < |events| && Enqueues(events[j], pid) && forall k | j < k < |events| :: Untouched(events, k, pid)
  }

  function LatestEnqueue(events: seq<Event>, pid: nat): (r: Option<nat>)
    ensures r.Some? ==> r.value < |events|
  {
    if events == [] then None
    else
      var n := |events| - 1;
      if Enqueues(events[n], pid) then Some(n)
      else if Dequeues(events[n], pid) then None
      else LatestEnqueue(events[..n], pid)
  }

  lemma {:induction false} LatestIsQueued(events: seq<Event>, pid: nat, j: nat)
    requires forall e | e in events :: Valid(e)
    ensures LatestEnqueue(events, pid) == Some(j) <==> QueuedSince(events, pid, j)
  {
    if events != [] {
      var n := |events| - 1;
      assert Valid(events[n]) && forall e | e in events[..n] :: Valid(e);
      LatestIsQueued(events[..n], pid, j);
      if QueuedSince(events, pid, j) && j < n {
        assert Untouched(events, n, pid);
        forall k | j < k < n ensures Untouched(events[..n], k, pid) {
          assert Untouched(events, k, pid);
        }
      }
      if QueuedSince(events[..n], pid, j) && Untouched(events, n, pid) {
        forall k | j < k < |events| ensures Untouched(events, k, pid) {
          assert k < n ==> Untouched(events[..n], k, pid);
        }
      }
    }
  }

  /** What one event does to any one task's place among the pending. */
  lemma {:induction false} ObservePending(s: State, e: Event, pid: nat)
    requires Observe(s, e).Some?
    ensures var p := Observe(s, e).value.pending;
            if Enqueues(e, pid) then pid in p && p[pid] == e.time
            else if Dequeues(e, pid) then pid !in p
            else (pid in p <==> pid in s.pending) && (pid in p ==> p[pid] == s.pending[pid])
  {}

  /** A task is pending exactly while it is queued, since the event that last queued it. */
  lemma {:induction false} PendingIsQueued(events: seq<Event>, maximum: nat, pid: nat)
    requires Run(events, maximum).Some?
    ensures var p, j := Run(events, maximum).value.pending, LatestEnqueue(events, pid);
            (pid in p <==> j.Some?) && (pid in p ==> p[pid] == events[j.value].time)
  {
    if events != [] {
      var n := |events| - 1;
      PendingIsQueued(events[..n], maximum, pid);
      ObservePending(Run(events[..n], maximum).value, events[n], pid);
    }
  }

  lemma {:induction false} RunIsValid(events: seq<Event>, maximum: nat)
    requires Run(events, maximum).Some?
    ensures forall e | e in events :: Valid(e)
  {
    if events != [] {
      RunIsValid(events[..|events| - 1], maximum);
      assert events == events[..|events| - 1] + [events[|events| - 1]];
    }
  }

  /** A task is pending with a start time if and only if the event that last queued
      it, and after which it neither ran nor ended, has that time. */
  lemma {:induction false} PendingExact(events: seq<Event>, maximum: nat, pid: nat, start: nat)
    requires Run(events, maximum).Some?
    ensures var p := Run(events, maximum).value.pending;
            pid in p && p[pid] == start <==> exists j: nat :: QueuedSince(events, pid, j) && events[j].time == start
  {
    RunIsValid(events, maximum);
    PendingIsQueued(events, maximum, pid);
    var latest := LatestEnqueue(events, pid);
    if latest.Some? {
      LatestIsQueued(events, pid, latest.value);
    }
    if exists j: nat :: QueuedSince(events, pid, j) && events[j].time == start {
      var j: nat :| QueuedSince(events, pid, j) && events[j].time == start;
      LatestIsQueued(events, pid, j);
    }
  }

  /** The kinds of thing an event can turn out to be, given those before it. */
  datatype Effect = Completes | Unmatched | Replaces | Ends

  predicate Has(front: seq<Event>, e: Event, effect: Effect) {
    match effect
    case Completes => e.Switch? && e.next != 0 && LatestEnqueue(front, e.next).Some?
    case Unmatched => e.Switch? && e.next != 0 && LatestEnqueue(front, e.next).None?
    case Replaces =>
      if e.Wake? then LatestEnqueue(front, e.pid).Some?
      else e.Switch? && e.prevRunnable && e.prev != 0 && LatestEnqueue(front, e.prev).Some?
    case Ends => e.Exit? && LatestEnqueue(front, e.pid).Some?
  }

  function Occurrences(events: seq<Event>, effect: Effect): nat {
    if events == [] then 0
    else
      var n := |events| - 1;
      Occurrences(events[..n], effect) + if Has(events[..n], events[n], effect) then 1 else 0
  }

  /** The time from the task's last enqueue to each switch to it while queued. */
  function QueueWaits(events: seq<Event>): seq<int> {
    if events == [] then []
    else
      var front, e := events[..|events| - 1], events[|events| - 1];
      QueueWaits(front) + CompletedBy(front, e)
  }

  function CompletedBy(front: seq<Event>, e: Event): seq<int> {
    if Has(front, e, Completes) then [e.time - front[LatestEnqueue(front, e.next).value].time] else []
  }

  lemma {:induction false} CompletedFromPending(front: seq<Event>, maximum: nat, e: Event)
    requires Run(front, maximum).Some?
    ensures var p := Run(front, maximum).value.pending;
            CompletedBy(front, e) == if e.Switch? && e.next != 0 && e.next in p then [e.time - p[e.next]] else []
  {
    if e.Switch? {
      PendingIsQueued(front, maximum, e.next);
    }
  }

  lemma {:induction false} SwitchCompletes(s: State, e: Event)
    requires Observe(s, e).Some?
    ensures Emitted(s, e) ==
            if e.Switch? && e.next != 0 && e.next in s.pending then [e.time - s.pending[e.next]] else []
  {}

  /** The waits that a run records are those that its events show. */
  lemma {:induction false} WaitsAreQueueTimes(events: seq<Event>, maximum: nat)
    requires Run(events, maximum).Some?
    ensures Waits(events, maximum) == QueueWaits(events)
  {
    if events != [] {
      var front, e := events[..|events| - 1], events[|events| - 1];
      WaitsAreQueueTimes(front, maximum);
      CompletedFromPending(front, maximum, e);
      SwitchCompletes(Run(front, maximum).value, e);
      assert Emitted(Run(front, maximum).value, e) == CompletedBy(front, e);
    }
  }

  /** What one event adds to each counter. */
  lemma {:induction false} CountersMove(events: seq<Event>, maximum: nat)
    requires events != [] && Run(events, maximum).Some?
    ensures var n := |events| - 1;
            var s, t := Run(events[..n], maximum).value.counts, Run(events, maximum).value.counts;
            && t.events == s.events + 1
            && t.unmatched == s.unmatched + (if Has(events[..n], events[n], Unmatched) then 1 else 0)
            && t.replaced == s.replaced + (if Has(events[..n], events[n], Replaces) then 1 else 0)
            && t.exited == s.exited + (if Has(events[..n], events[n], Ends) then 1 else 0)
  {
    var front, e := events[..|events| - 1], events[|events| - 1];
    if e.Switch? {
      PendingIsQueued(front, maximum, e.next);
      PendingIsQueued(front, maximum, e.prev);
    } else {
      PendingIsQueued(front, maximum, e.pid);
    }
  }

  /** Every counter of a snapshot is what its name says of the events. */
  lemma {:induction false} CountersExact(events: seq<Event>, maximum: nat)
    requires Run(events, maximum).Some?
    ensures var o := Run(events, maximum).value.counts;
            && o.events == |events| && o.unmatched == Occurrences(events, Unmatched)
            && o.replaced == Occurrences(events, Replaces) && o.exited == Occurrences(events, Ends)
  {
    if events != [] {
      CountersExact(events[..|events| - 1], maximum);
      CountersMove(events, maximum);
    }
  }

  /** The histogram of a run is that of the waits its events show. */
  lemma {:induction false} HistogramExact(events: seq<Event>, maximum: nat)
    requires maximum <= 32768 && Run(events, maximum).Some?
    ensures Waits(events, maximum) == QueueWaits(events)
    ensures Explains(Waits(events, maximum), Run(events, maximum).value.counts.waits)
  {
    RunKeepsInv(events, maximum, 0);
    WaitsAreQueueTimes(events, maximum);
  }

  /** A snapshot shows the events, their waits, what they were, and how many tasks are
      queued after them. */
  lemma {:induction false} SnapshotExact(events: seq<Event>, maximum: nat, queued: set<nat>)
    requires maximum <= 32768 && Run(events, maximum).Some?
    requires forall pid: nat :: pid in queued <==> exists j: nat :: QueuedSince(events, pid, j)
    ensures var o := Snapshot(Run(events, maximum).value);
            && o.pending == |queued| && o.events == |events| && o.unmatched == Occurrences(events, Unmatched)
            && o.replaced == Occurrences(events, Replaces) && o.exited == Occurrences(events, Ends)
            && Waits(events, maximum) == QueueWaits(events) && Explains(Waits(events, maximum), o.waits)
  {
    CountersExact(events, maximum);
    HistogramExact(events, maximum);
    var pending := Run(events, maximum).value.pending;
    forall pid: nat ensures pid in pending.Keys <==> pid in queued {
      if pid in pending {
        PendingExact(events, maximum, pid, pending[pid]);
      }
      if pid in queued {
        var j: nat :| QueuedSince(events, pid, j);
        PendingExact(events, maximum, pid, events[j].time);
      }
    }
    assert pending.Keys == queued && |pending| == |pending.Keys|;
  }

  /** A task that the event enqueues is already queued, or there is room for one more
      beside the tasks that stay pending. */
  predicate Room(front: seq<Event>, e: Event, pending: nat, maximum: nat) {
    match e
    case Wake(_, pid) => LatestEnqueue(front, pid).Some? || pending < maximum
    case NewTask(_, pid) => LatestEnqueue(front, pid).None? && pending < maximum
    case Exit(_, _) => true
    case Switch(_, prev, next, runnable) =>
      runnable && prev != 0 && LatestEnqueue(front, prev).None? ==>
        pending < maximum + if Has(front, e, Completes) then 1 else 0
  }

  predicate Timely(front: seq<Event>, e: Event) {
    1 <= e.time && (front != [] ==> front[|front| - 1].time <= e.time)
  }

  predicate NamesTasks(e: Event) {
    if e.Switch? then e.prev < e.next || e.next < e.prev else 1 <= e.pid
  }

  lemma {:induction false} LastIsLatest(events: seq<Event>, maximum: nat)
    requires Run(events, maximum).Some?
    ensures Run(events, maximum).value.last == if events == [] then 0 else events[|events| - 1].time
  {
    if events != [] {
      var s, e := Run(events[..|events| - 1], maximum).value, events[|events| - 1];
      assert Tick(s, e.time).last == e.time;
    }
  }

  /** A switch-in fails exactly when the sum would no longer be a 64-bit number. */
  lemma {:induction false} SwitchInAccepted(s: State, pid: nat, now: nat)
    requires 0 <= s.counts.waits.sum <= U64_MAX && |s.counts.waits.buckets| == BUCKETS
    requires pid in s.pending ==> s.pending[pid] <= now
    ensures SwitchIn(s, pid, now).Some? <==>
            (pid != 0 && pid in s.pending ==> s.counts.waits.sum + now - s.pending[pid] <= U64_MAX)
    ensures SwitchIn(s, pid, now).Some? ==>
            |SwitchIn(s, pid, now).value.pending| == |s.pending| - if pid != 0 && pid in s.pending then 1 else 0
  {
    if pid != 0 && pid in s.pending {
      RemoveOne(s.pending, pid);
      if now - s.pending[pid] <= U64_MAX {
        U64Bucket(now - s.pending[pid]);
      }
    }
  }

  /** What a run has come to, in terms of its events. */
  lemma {:induction false} RunSoFar(events: seq<Event>, maximum: nat)
    requires maximum <= 32768 && Run(events, maximum).Some?
    ensures var s := Run(events, maximum).value;
            && s.maximum == maximum && s.counts.events == |events| && |s.counts.waits.buckets| == BUCKETS
            && 0 <= s.counts.waits.sum == Sum(QueueWaits(events)) <= U64_MAX
            && s.last == (if events == [] then 0 else events[|events| - 1].time)
            && forall p | p in s.pending :: s.pending[p] <= s.last
  {
    RunShape(events, maximum);
    RunKeepsInv(events, maximum, 0);
    CountersExact(events, maximum);
    LastIsLatest(events, maximum);
    HistogramExact(events, maximum);
  }

  lemma {:induction false} EnqueueAccepted(s: State, pid: nat, now: nat)
    ensures Enqueue(s, pid, now).Some? <==> pid == 0 || pid in s.pending || |s.pending| < s.maximum
  {}

  /** A run goes on with an event if and only if it names tasks, comes in time and
      within the count of events, enqueues no new task a second time, finds room,
      and leaves the sum of all waits a 64-bit number. */
  lemma {:induction false} NextEventAccepted(events: seq<Event>, maximum: nat)
    requires events != [] && maximum <= 32768 && Run(events[..|events| - 1], maximum).Some?
    ensures var front, e := events[..|events| - 1], events[|events| - 1];
            Run(events, maximum).Some? <==>
            && NamesTasks(e) && Timely(front, e) && |front| < LIMIT
            && Room(front, e, |Run(front, maximum).value.pending|, maximum)
            && Sum(QueueWaits(events)) <= U64_MAX
  {
    var front, e := events[..|events| - 1], events[|events| - 1];
    RunSoFar(front, maximum);
    SumConcat(QueueWaits(front), CompletedBy(front, e));
    CompletedFromPending(front, maximum, e);
    RoomFromPending(front, maximum, e);
    ObserveAccepted(Run(front, maximum).value, e);
  }

  /** Room, in terms of a state's pending tasks. */
  predicate HasRoom(s: State, e: Event) {
    match e
    case Wake(_, pid) => pid in s.pending || |s.pending| < s.maximum
    case NewTask(_, pid) => pid !in s.pending && |s.pending| < s.maximum
    case Exit(_, _) => true
    case Switch(_, prev, next, runnable) =>
      runnable && prev != 0 && prev !in s.pending ==>
        |s.pending| < s.maximum + if next != 0 && next in s.pending then 1 else 0
  }

  lemma {:induction false} RoomFromPending(front: seq<Event>, maximum: nat, e: Event)
    requires maximum <= 32768 && Run(front, maximum).Some?
    ensures var s := Run(front, maximum).value; HasRoom(s, e) <==> Room(front, e, |s.pending|, maximum)
  {
    RunSoFar(front, maximum);
    if e.Switch? {
      PendingIsQueued(front, maximum, e.next);
      PendingIsQueued(front, maximum, e.prev);
    } else {
      PendingIsQueued(front, maximum, e.pid);
    }
  }

  lemma {:induction false} ObserveAccepted(s: State, e: Event)
    requires 0 <= s.counts.waits.sum <= U64_MAX && |s.counts.waits.buckets| == BUCKETS
    requires forall p | p in s.pending :: s.pending[p] <= s.last
    ensures Observe(s, e).Some? <==>
            && e.time != 0 && NamesTasks(e) && s.last <= e.time && s.counts.events < LIMIT && HasRoom(s, e)
            && (e.Switch? && e.next != 0 && e.next in s.pending ==>
                  s.counts.waits.sum + e.time - s.pending[e.next] <= U64_MAX)
  {
    if e.Switch? && e.prev != e.next && s.last <= e.time {
      SwitchNextAccepted(Tick(s, e.time), e);
    }
  }

  lemma {:induction false} SwitchNextAccepted(t: State, e: Event)
    requires e.Switch? && e.prev != e.next
    requires 0 <= t.counts.waits.sum <= U64_MAX && |t.counts.waits.buckets| == BUCKETS
    requires e.next in t.pending ==> t.pending[e.next] <= e.time
    ensures Apply(t, e).Some? <==>
            && (e.next != 0 && e.next in t.pending ==> t.counts.waits.sum + e.time - t.pending[e.next] <= U64_MAX)
            && (e.prevRunnable && e.prev != 0 && e.prev !in t.pending ==>
                  |t.pending| < t.maximum + if e.next != 0 && e.next in t.pending then 1 else 0)
  {
    SwitchInAccepted(t, e.next, e.time);
    var u := SwitchIn(t, e.next, e.time);
    if u.Some? {
      EnqueueAccepted(u.value, e.prev, e.time);
    }
  }

  /** Snapshots of one run at successive one-second cutoffs pass every check
      that the replay makes on an observation and between two observations. */
  lemma {:induction false} HonestRunAccepted(events: seq<Event>, maximum: nat, started: nat, cuts: seq<nat>)
    requires 1 <= maximum <= 32768 && Since(events, started) && Run(events, maximum).Some?
    requires forall i | 0 <= i < |cuts| :: cuts[i] <= |events|
    requires forall i, j | 0 <= i <= j < |cuts| :: cuts[i] <= cuts[j]
    requires forall i | 0 <= i < |cuts| :: forall e | e in events[..cuts[i]] :: e.time <= started + i * SECOND
    ensures forall i | 0 <= i < |cuts| ::
              && Run(events[..cuts[i]], maximum).Some?
              && ObservationAccepted(Snapshot(Run(events[..cuts[i]], maximum).value), i)
    ensures forall i, j | 0 <= i <= j < |cuts| ::
              && Run(events[..cuts[i]], maximum).Some? && Run(events[..cuts[j]], maximum).Some?
              && ObservationStep(Snapshot(Run(events[..cuts[i]], maximum).value),
                                 Snapshot(Run(events[..cuts[j]], maximum).value))
  {
    forall i | 0 <= i < |cuts|
      ensures Run(events[..cuts[i]], maximum).Some?
      ensures ObservationAccepted(Snapshot(Run(events[..cuts[i]], maximum).value), i)
    {
      HonestRow(events, maximum, started, cuts[i], i);
    }
    forall i, j | 0 <= i <= j < |cuts|
      ensures Run(events[..cuts[i]], maximum).Some? && Run(events[..cuts[j]], maximum).Some?
      ensures ObservationStep(Snapshot(Run(events[..cuts[i]], maximum).value),
                              Snapshot(Run(events[..cuts[j]], maximum).value))
    {
      HonestStep(events, maximum, started, cuts[i], cuts[j]);
    }
  }

  lemma {:induction false} HonestRow(events: seq<Event>, maximum: nat, started: nat, n: nat, index: nat)
    requires maximum <= 32768 && Since(events, started) && Run(events, maximum).Some? && n <= |events|
    requires forall e | e in events[..n] :: e.time <= started + index * SECOND
    ensures Run(events[..n], maximum).Some?
    ensures ObservationAccepted(Snapshot(Run(events[..n], maximum).value), index)
  {
    PrefixRun(events, maximum, started, n);
    assert forall e | e in events[..n] :: e in events;
    RunKeepsInv(events[..n], maximum, started);
    var s, ws := Run(events[..n], maximum).value, Waits(events[..n], maximum);
    if n > 0 {
      LastEvent(events[..n], maximum, started);
      assert events[..n][n - 1] in events[..n];
    }
    RealisableIsAccepted(ws, s.counts.waits, index * SECOND);
  }

  lemma {:induction false} RunExplained(events: seq<Event>, maximum: nat, started: nat)
    requires maximum <= 32768 && Since(events, started) && Run(events, maximum).Some?
    ensures Explains(Waits(events, maximum), Run(events, maximum).value.counts.waits)
  {
    RunKeepsInv(events, maximum, started);
  }

  lemma {:induction false} HonestStep(events: seq<Event>, maximum: nat, started: nat, m: nat, n: nat)
    requires maximum <= 32768 && Since(events, started) && Run(events, maximum).Some? && m <= n <= |events|
    ensures Run(events[..m], maximum).Some? && Run(events[..n], maximum).Some?
    ensures ObservationStep(Snapshot(Run(events[..m], maximum).value), Snapshot(Run(events[..n], maximum).value))
  {
    SincePrefix(events, started, n);
    PrefixRun(events, maximum, started, n);
    assert events[..n][..m] == events[..m];
    StepOfRun(events[..n], maximum, started, m);
  }

  /** The whole of a run follows acceptably on each of its prefixes. */
  lemma {:induction false} StepOfRun(events: seq<Event>, maximum: nat, started: nat, m: nat)
    requires maximum <= 32768 && Since(events, started) && Run(events, maximum).Some? && m <= |events|
    ensures Run(events[..m], maximum).Some?
    ensures ObservationStep(Snapshot(Run(events[..m], maximum).value), Snapshot(Run(events, maximum).value))
  {
    PrefixRun(events, maximum, started, m);
    SincePrefix(events, started, m);
    var before, after := Run(events[..m], maximum).value.counts.waits, Run(events, maximum).value.counts.waits;
    assert StepOk(before, after) by {
      RunExplained(events[..m], maximum, started);
      RunExplained(events, maximum, started);
      LongerRunSteps(Waits(events[..m], maximum), before, Waits(events, maximum), after);
    }
  }

  lemma {:induction false} LongerRunSteps(ws: seq<nat>, a: Histogram, all: seq<nat>, b: Histogram)
    requires ws <= all && Explains(ws, a) && Explains(all, b)
    ensures StepOk(a, b)
  {
    assert all == ws + all[|ws|..];
    RunMakesStep(ws, a, all[|ws|..], b);
  }
}
