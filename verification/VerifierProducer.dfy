/** The verifier observer's aggregate (prototype/trace/qualification/verifier/
    aggregate.go): what every run of enter, log and return records keeps, and why
    the replay never rejects the totals of an honest run. */
module VerifierProducer {
  import opened Limits
  import opened Sets
  import opened Wrappers
  import opened Sums
  import opened VerifierWindow

  type u32 = x: nat | x <= 0xFFFF_FFFF

  const MAX_CALLS: nat := 4096
  const MAX_EVENTS: nat := 32768
  const MAX_CONCURRENT: nat := 64
  const MAX_DURATION: nat := 30_000_000_000

  datatype Kind = Enter | Log | Return
  datatype Event = Event(kind: Kind, time: nat, tid: nat, result: int, logSize: u32)
  datatype LogInfo = LogInfo(result: int, size: u32)
  datatype Call = Call(start: nat, last: nat, log: Option<LogInfo>)

  /** totals.pending is filled in only by a snapshot. */
  datatype State = State(pending: map<nat, Call>, last: nat, events: nat, totals: Totals)

  function Initial(): State {
    State(map[], 0, 0, Totals(0, 0, 0, 0, 0, 0, 0, 0, 0))
  }

  predicate Admissible(s: State, e: Event) {
    && e.time != 0 && s.last <= e.time && 0 < e.tid <= 0x7FFF_FFFF && -4095 <= e.result <= 0
    && s.events < MAX_EVENTS
    && (e.tid in s.pending ==>
          s.pending[e.tid].last < e.time && e.time - s.pending[e.tid].start <= MAX_DURATION)
  }

  function Finish(t: Totals, call: Call, e: Event): Totals
    requires call.log.Some? && call.start <= e.time
  {
    var duration := e.time - call.start;
    Totals(t.completed + 1,
           if e.result != 0 then t.rejected + 1 else t.rejected,
           if call.log.value.result != 0 then t.logFailures + 1 else t.logFailures,
           t.duration + duration, if t.maximum < duration then duration else t.maximum,
           t.logBytes + call.log.value.size,
           if t.maximumLog < call.log.value.size then call.log.value.size else t.maximumLog,
           t.pending, t.unassociated)
  }

  /** The effect of an admissible record. */
  function Apply(s: State, e: Event): Option<State> {
    match e.kind
    case Enter =>
      if e.tid in s.pending || e.result != 0 || e.logSize != 0 || |s.pending| >= MAX_CONCURRENT
         || s.totals.completed + |s.pending| >= MAX_CALLS then None
      else Some(s.(pending := s.pending[e.tid := Call(e.time, e.time, None)]))
    case Log =>
      if e.tid !in s.pending then Some(s.(totals := s.totals.(unassociated := s.totals.unassociated + 1)))
      else if s.pending[e.tid].log.Some? then None
      else
        var call := Call(s.pending[e.tid].start, e.time, Some(LogInfo(e.result, e.logSize)));
        Some(s.(pending := s.pending[e.tid := call]))
    case Return =>
      if e.tid !in s.pending || s.pending[e.tid].log.None? || e.logSize != 0 || e.time < s.pending[e.tid].start
      then None
      else Some(s.(pending := s.pending - {e.tid}, totals := Finish(s.totals, s.pending[e.tid], e)))
  }

  /** One record; None is the permanent failure of the source. */
  function Observe(s: State, e: Event): Option<State> {
    if !Admissible(s, e) then None else Apply(s.(last := e.time, events := s.events + 1), e)
  }

  function Snapshot(s: State): Totals {
    s.totals.(pending := |s.pending|)
  }

  function Run(events: seq<Event>): Option<State> {
    if events == [] then Some(Initial())
    else
      var s := Run(events[..|events| - 1]);
      if s.None? then None else Observe(s.value, events[|events| - 1])
  }

  // --------------------------------------------------------- the Go aggregate

  class Aggregate {
    var pending: map<nat, Call>
    var last: nat
    var events: nat
    var totals: Totals
    var failed: bool
    var closed: bool

    function Value(): State
      reads this
    {
      State(pending, last, events, totals)
    }

    constructor ()
      ensures Value() == Initial() && !failed && !closed
    {
      pending, last, events, failed, closed := map[], 0, 0, false, false;
      totals := Totals(0, 0, 0, 0, 0, 0, 0, 0, 0);
    }

    /** The switch over the record's kind. */
    method ApplyEvent(e: Event) returns (ok: bool)
      modifies this
      ensures failed == old(failed) && closed == old(closed)
      ensures ok <==> Apply(old(Value()), e).Some?
      ensures ok ==> Value() == Apply(old(Value()), e).value
    {
      match e.kind {
        case Enter =>
          if e.tid in pending || e.result != 0 || e.logSize != 0 || |pending| >= MAX_CONCURRENT
             || totals.completed + |pending| >= MAX_CALLS {
            return false;
          }
          pending := pending[e.tid := Call(e.time, e.time, None)];
        case Log =>
          if e.tid !in pending {
            totals := totals.(unassociated := totals.unassociated + 1);
            return true;
          }
          var current := pending[e.tid];
          if current.log.Some? {
            return false;
          }
          pending := pending[e.tid := Call(current.start, e.time, Some(LogInfo(e.result, e.logSize)))];
        case Return =>
          if e.tid !in pending || pending[e.tid].log.None? || e.logSize != 0 || e.time < pending[e.tid].start {
            return false;
          }
          var current := pending[e.tid];
          var duration, size := e.time - current.start, current.log.value.size;
          totals := totals.(
            completed := totals.completed + 1, duration := totals.duration + duration,
            maximum := if totals.maximum < duration then duration else totals.maximum,
            logBytes := totals.logBytes + size,
            maximumLog := if totals.maximumLog < size then size else totals.maximumLog);
          if e.result != 0 {
            totals := totals.(rejected := totals.rejected + 1);
          }
          if current.log.value.result != 0 {
            totals := totals.(logFailures := totals.logFailures + 1);
          }
          pending := pending - {e.tid};
      }
      return true;
    }

    method ObserveEvent(e: Event) returns (ok: bool)
      modifies this
      ensures ok <==> !old(failed) && !old(closed) && Observe(old(Value()), e).Some?
      ensures ok ==> !failed && Value() == Observe(old(Value()), e).value
      ensures !ok ==> failed
      ensures closed == old(closed)
    {
      if failed || closed || e.time == 0 || e.time < last || e.tid == 0 || e.tid > 0x7FFF_FFFF
         || e.result > 0 || e.result < -4095 || events >= MAX_EVENTS {
        failed := true;
        return false;
      }
      ghost var before := Value();
      if e.tid in pending && (e.time <= pending[e.tid].last || e.time - pending[e.tid].start > MAX_DURATION) {
        events, last, failed := events + 1, e.time, true;
        return false;
      }
      events, last := events + 1, e.time;
      assert Value() == before.(last := e.time, events := before.events + 1);
      ok := ApplyEvent(e);
      if !ok {
        failed := true;
      }
    }

    method TakeSnapshot() returns (r: Option<Totals>)
      ensures r == if failed then None else Some(Snapshot(Value()))
    {
      if failed {
        return None;
      }
      return Some(totals.(pending := |pending|));
    }

    /** No more records: a capture with a call still pending has failed. */
    method FinishCapture() returns (r: Option<Totals>)
      modifies this
      ensures closed && Value() == old(Value())
      ensures r.Some? <==> !old(failed) && old(pending) == map[]
      ensures r.Some? ==> r.value == old(Snapshot(Value())) && r.value.pending == 0
    {
      closed := true;
      if |pending| != 0 {
        failed := true;
      }
      r := TakeSnapshot();
    }
  }

  /** A run that has failed stays failed. */
  lemma {:induction false} RunFails(events: seq<Event>, n: nat)
    requires n <= |events| && Run(events[..n]).None?
    ensures Run(events).None?
    decreases |events|
  {
    if n < |events| {
      var front := events[..|events| - 1];
      assert front[..n] == events[..n];
      RunFails(front, n);
    } else {
      assert events[..n] == events;
    }
  }

  /** Feeding a new aggregate the drained records is a run of the specification. */
  method Drain(a: Aggregate, events: seq<Event>) returns (ok: bool)
    requires a.Value() == Initial() && !a.failed && !a.closed
    modifies a
    ensures ok <==> Run(events).Some?
    ensures ok ==> !a.failed && !a.closed && a.Value() == Run(events).value
    ensures !ok ==> a.failed
  {
    for i := 0 to |events|
      invariant !a.failed && !a.closed && Run(events[..i]) == Some(a.Value())
    {
      assert events[..i + 1][..i] == events[..i] && events[..i + 1][i] == events[i];
      ok := a.ObserveEvent(events[i]);
      if !ok {
        RunFails(events, i + 1);
        return false;
      }
    }
    assert events[..|events|] == events;
    return true;
  }

  // --------------------------------------------------- what every run maintains

  /** The calls whose log has been seen but not their return. */
  function Logged(m: map<nat, Call>): set<nat> {
    set t | t in m && m[t].log.Some?
  }

  /** Records: three for each completed call, one for each unassociated log, and
      one or two for each call still pending. */
  ghost predicate Conserved(s: State) {
    s.events == 3 * s.totals.completed + s.totals.unassociated + |s.pending| + |Logged(s.pending)|
  }

  ghost predicate CallOk(call: Call, started: nat, now: nat) {
    started <= call.start <= call.last <= now && (call.log.Some? ==> call.start < call.last)
  }

  ghost predicate Bounded(s: State, started: nat) {
    && Conserved(s)
    && |s.pending| <= MAX_CONCURRENT && s.totals.completed + |s.pending| <= MAX_CALLS && s.events <= MAX_EVENTS
    && 0 <= s.totals.rejected <= s.totals.completed && 0 <= s.totals.logFailures <= s.totals.completed
    && 0 <= s.totals.unassociated
    && forall t | t in s.pending :: CallOk(s.pending[t], started, s.last)
  }

  /** The duration of the call that this record completes, and its log size. */
  function CompletedDuration(s: State, e: Event): seq<nat>
    requires Observe(s, e).Some?
  {
    if e.kind.Return? then [e.time - s.pending[e.tid].start] else []
  }

  function CompletedLog(s: State, e: Event): seq<nat>
    requires Observe(s, e).Some?
  {
    if e.kind.Return? then [s.pending[e.tid].log.value.size] else []
  }

  function AllDurations(events: seq<Event>): seq<nat>
    requires Run(events).Some?
  {
    if events == [] then []
    else
      var before := events[..|events| - 1];
      AllDurations(before) + CompletedDuration(Run(before).value, events[|events| - 1])
  }

  function AllLogs(events: seq<Event>): seq<nat>
    requires Run(events).Some?
  {
    if events == [] then []
    else
      var before := events[..|events| - 1];
      AllLogs(before) + CompletedLog(Run(before).value, events[|events| - 1])
  }

  ghost predicate Inv(s: State, durations: seq<nat>, logs: seq<nat>, started: nat) {
    && Bounded(s, started)
    && Measures(durations, Durations(s.totals)) && Measures(logs, Logs(s.totals))
    && AtLeast(durations, 2)
    && Max(durations) <= MAX_DURATION && Max(logs) <= 0xFFFF_FFFF
    && (durations != [] ==> started <= s.last && Max(durations) <= s.last - started)
  }

  lemma {:induction false} PutSizes(m: map<nat, Call>, tid: nat, call: Call)
    ensures |m[tid := call]| == |m| + if tid in m then 0 else 1
    ensures |Logged(m[tid := call])| ==
            |Logged(m)| - (if tid in Logged(m) then 1 else 0) + (if call.log.Some? then 1 else 0)
  {
    var n := m[tid := call];
    assert n.Keys == m.Keys + {tid};
    assert |n| == |n.Keys| && |m| == |m.Keys|;
    PutLogged(m, n, tid, call);
  }

  lemma {:induction false} LoggedAfterPut(m: map<nat, Call>, n: map<nat, Call>, tid: nat, call: Call)
    requires n == m[tid := call]
    ensures Logged(n) == Logged(m) - {tid} + if call.log.Some? then {tid} else {}
  {
    forall t ensures t in Logged(n) <==> t in Logged(m) - {tid} + if call.log.Some? then {tid} else {} {
      assert t != tid ==> (t in n <==> t in m);
    }
  }

  lemma {:induction false} PutLogged(m: map<nat, Call>, n: map<nat, Call>, tid: nat, call: Call)
    requires n == m[tid := call]
    ensures |Logged(n)| == |Logged(m)| - (if tid in Logged(m) then 1 else 0) + (if call.log.Some? then 1 else 0)
  {
    LoggedAfterPut(m, n, tid, call);
    var others := Logged(m) - {tid};
    assert |others| == |Logged(m)| - if tid in Logged(m) then 1 else 0;
  }

  lemma {:induction false} DropSizes(m: map<nat, Call>, tid: nat)
    requires tid in m
    ensures |m - {tid}| == |m| - 1
    ensures |Logged(m - {tid})| == |Logged(m)| - (if tid in Logged(m) then 1 else 0)
  {
    assert (m - {tid}).Keys == m.Keys - {tid};
    assert |m| == |m.Keys| && |m - {tid}| == |(m - {tid}).Keys|;
    assert Logged(m - {tid}) == Logged(m) - {tid};
  }

  /** What one record does to the counters, whatever the values measured. */
  lemma {:induction false} ObserveCounts(s: State, e: Event, started: nat)
    requires Bounded(s, started) && Observe(s, e).Some? && started <= e.time
    ensures Bounded(Observe(s, e).value, started) && Observe(s, e).value.last == e.time
    ensures var t := Observe(s, e).value;
            && s.totals.unassociated <= t.totals.unassociated
            && t.totals.completed - s.totals.completed == (if e.kind.Return? then 1 else 0)
            && 0 <= t.totals.rejected - s.totals.rejected <= t.totals.completed - s.totals.completed
            && 0 <= t.totals.logFailures - s.totals.logFailures <= t.totals.completed - s.totals.completed
            && |s.pending| - |t.pending| <= t.totals.completed - s.totals.completed
  {
    var t := Observe(s, e).value;
    match e.kind {
      case Enter => PutSizes(s.pending, e.tid, Call(e.time, e.time, None));
      case Log =>
        if e.tid in s.pending {
          PutSizes(s.pending, e.tid, t.pending[e.tid]);
        }
      case Return => DropSizes(s.pending, e.tid);
    }
    forall u | u in t.pending ensures CallOk(t.pending[u], started, t.last) {
      assert u in s.pending ==> CallOk(s.pending[u], started, s.last);
    }
  }

  lemma {:induction false} MeasuresOneMore(xs: seq<nat>, m: Meter, x: nat)
    requires Measures(xs, m)
    ensures Measures(xs + [x], Meter(m.count + 1, m.sum + x, if m.maximum < x then x else m.maximum))
  {
    SumSnoc(xs, x);
    MaxConcat(xs, [x]);
  }

  lemma {:induction false} ObserveKeepsInv(s: State, e: Event, durations: seq<nat>, logs: seq<nat>, started: nat)
    requires Inv(s, durations, logs, started) && Observe(s, e).Some? && started <= e.time
    ensures Inv(Observe(s, e).value, durations + CompletedDuration(s, e), logs + CompletedLog(s, e), started)
  {
    ObserveCounts(s, e, started);
    if e.kind.Return? {
      assert CallOk(s.pending[e.tid], started, s.last);
      MeasuresOneMore(durations, Durations(s.totals), e.time - s.pending[e.tid].start);
      MeasuresOneMore(logs, Logs(s.totals), s.pending[e.tid].log.value.size);
    } else {
      assert durations + [] == durations && logs + [] == logs;
    }
  }

  ghost predicate Since(events: seq<Event>, started: nat) {
    forall i | 0 <= i < |events| :: started <= events[i].time
  }

  lemma {:induction false} RunKeepsInv(events: seq<Event>, started: nat)
    requires Since(events, started) && Run(events).Some?
    ensures Inv(Run(events).value, AllDurations(events), AllLogs(events), started)
    ensures events != [] ==> Run(events).value.last == events[|events| - 1].time
  {
    if events != [] {
      var before := events[..|events| - 1];
      RunKeepsInv(before, started);
      ObserveKeepsInv(Run(before).value, events[|events| - 1], AllDurations(before), AllLogs(before), started);
      ObserveCounts(Run(before).value, events[|events| - 1], started);
    }
  }

  /** How the counters of a run may differ from those of its prefix. */
  ghost predicate Later(s: State, t: State) {
    var calls := t.totals.completed - s.totals.completed;
    && s.totals.unassociated <= t.totals.unassociated
    && 0 <= t.totals.rejected - s.totals.rejected <= calls
    && 0 <= t.totals.logFailures - s.totals.logFailures <= calls
    && |s.pending| - |t.pending| <= calls
  }

  lemma {:induction false} PrefixRun(events: seq<Event>, started: nat, n: nat)
    requires Since(events, started) && Run(events).Some? && n <= |events|
    ensures Run(events[..n]).Some? && Later(Run(events[..n]).value, Run(events).value)
    ensures AllDurations(events[..n]) <= AllDurations(events) && AllLogs(events[..n]) <= AllLogs(events)
  {
    if n == |events| {
      assert events[..n] == events;
    } else {
      var before := events[..|events| - 1];
      assert before[..n] == events[..n];
      PrefixRun(before, started, n);
      RunKeepsInv(before, started);
      ObserveCounts(Run(before).value, events[|events| - 1], started);
    }
  }

  /** The event accounting of every run: no fewer records than the counters and
      pending calls explain, and exactly as many once nothing is pending. */
  lemma {:induction false} EventsConserved(events: seq<Event>, started: nat)
    requires Since(events, started) && Run(events).Some?
    ensures var t := Snapshot(Run(events).value);
            && |events| >= t.completed * 3 + t.unassociated + t.pending
            && |events| <= t.completed * 3 + t.unassociated + 2 * t.pending
            && (t.pending == 0 ==> |events| == t.completed * 3 + t.unassociated)
  {
    RunKeepsInv(events, started);
    RunEvents(events);
    var s := Run(events).value;
    LoggedSize(s.pending);
  }

  lemma {:induction false} RunEvents(events: seq<Event>)
    requires Run(events).Some?
    ensures Run(events).value.events == |events|
  {
    if events != [] {
      RunEvents(events[..|events| - 1]);
    }
  }

  // ------------------------------------- what happened, read off the records alone

  /** A call of this thread was entered by record j and has not returned. */
  ghost predicate EnteredBy(events: seq<Event>, tid: nat, j: nat) {
    && j < |events| && events[j].tid == tid && events[j].kind == Enter
    && forall k | j < k < |events| :: !(events[k].tid == tid && events[k].kind in {Enter, Return})
  }

  /** Record k is the last log of this thread, which neither entered nor left since. */
  ghost predicate LoggedBy(events: seq<Event>, tid: nat, k: nat) {
    && k < |events| && events[k].tid == tid && events[k].kind == Log
    && forall m | k < m < |events| :: events[m].tid != tid
  }

  function LatestEnter(events: seq<Event>, tid: nat): (r: Option<nat>)
    ensures r.Some? ==> r.value < |events|
  {
    if events == [] then None
    else
      var n := |events| - 1;
      if events[n].tid != tid || events[n].kind == Log then LatestEnter(events[..n], tid)
      else if events[n].kind == Enter then Some(n) else None
  }

  function LatestLog(events: seq<Event>, tid: nat): (r: Option<nat>)
    ensures r.Some? ==> r.value < |events|
  {
    if events == [] then None
    else
      var n := |events| - 1;
      if events[n].tid != tid then LatestLog(events[..n], tid)
      else if events[n].kind == Log then Some(n) else None
  }

  lemma {:induction false} LatestEnterIs(events: seq<Event>, tid: nat, j: nat)
    ensures LatestEnter(events, tid) == Some(j) <==> EnteredBy(events, tid, j)
  {
    if events != [] {
      LatestEnterIs(events[..|events| - 1], tid, j);
    }
  }

  lemma {:induction false} LatestLogIs(events: seq<Event>, tid: nat, k: nat)
    ensures LatestLog(events, tid) == Some(k) <==> LoggedBy(events, tid, k)
  {
    if events != [] {
      LatestLogIs(events[..|events| - 1], tid, k);
    }
  }

  /** The call that a thread is in, by its records. */
  function OpenCall(events: seq<Event>, tid: nat): Option<Call> {
    var j, k := LatestEnter(events, tid), LatestLog(events, tid);
    if j.None? then None
    else if k.None? then Some(Call(events[j.value].time, events[j.value].time, None))
    else
      var log := events[k.value];
      Some(Call(events[j.value].time, log.time, Some(LogInfo(log.result, log.logSize))))
  }

  /** What one record does to any one thread's pending call. */
  lemma {:induction false} ObservePending(s: State, e: Event, tid: nat)
    requires Observe(s, e).Some?
    ensures var p := Observe(s, e).value.pending;
            if tid != e.tid then (tid in p <==> tid in s.pending) && (tid in p ==> p[tid] == s.pending[tid])
            else if e.kind.Enter? then tid in p && p[tid] == Call(e.time, e.time, None)
            else if e.kind.Return? then tid !in p
            else (tid in p <==> tid in s.pending)
                 && (tid in p ==> p[tid] == Call(s.pending[tid].start, e.time, Some(LogInfo(e.result, e.logSize))))
  {}

  /** The pending calls of a run are those that its records leave open. */
  lemma {:induction false} PendingIsOpen(events: seq<Event>, tid: nat)
    requires Run(events).Some?
    ensures var p := Run(events).value.pending;
            OpenCall(events, tid) == if tid in p then Some(p[tid]) else None
  {
    if events != [] {
      var n := |events| - 1;
      PendingIsOpen(events[..n], tid);
      ObservePending(Run(events[..n]).value, events[n], tid);
    }
  }

  /** A call is pending since a time if and only if that is when its thread entered,
      and it has not returned; with a log if and only if one was recorded since. */
  lemma {:induction false} PendingExact(events: seq<Event>, tid: nat, start: nat, info: LogInfo)
    requires Run(events).Some?
    ensures var p := Run(events).value.pending;
            && (tid in p && p[tid].start == start <==>
                  exists j: nat :: EnteredBy(events, tid, j) && events[j].time == start)
            && (tid in p && p[tid].log == Some(info) <==>
                  && (exists j: nat :: EnteredBy(events, tid, j))
                  && exists k: nat :: LoggedBy(events, tid, k)
                       && LogInfo(events[k].result, events[k].logSize) == info)
  {
    PendingIsOpen(events, tid);
    forall j: nat ensures LatestEnter(events, tid) == Some(j) <==> EnteredBy(events, tid, j) {
      LatestEnterIs(events, tid, j);
    }
    forall k: nat ensures LatestLog(events, tid) == Some(k) <==> LoggedBy(events, tid, k) {
      LatestLogIs(events, tid, k);
    }
    var j, k := LatestEnter(events, tid), LatestLog(events, tid);
    assert j.Some? ==> EnteredBy(events, tid, j.value);
    assert k.Some? ==> LoggedBy(events, tid, k.value);
  }

  datatype Effect = Completes | Rejected | LogFailed | Unassociated

  /** What the record is, given those before it. */
  predicate Has(front: seq<Event>, e: Event, effect: Effect) {
    match effect
    case Completes => e.kind.Return?
    case Rejected => e.kind.Return? && e.result != 0
    case LogFailed =>
      e.kind.Return? && LatestLog(front, e.tid).Some? && front[LatestLog(front, e.tid).value].result != 0
    case Unassociated => e.kind.Log? && LatestEnter(front, e.tid).None?
  }

  function Occurrences(events: seq<Event>, effect: Effect): nat {
    if events == [] then 0
    else
      var n := |events| - 1;
      Occurrences(events[..n], effect) + if Has(events[..n], events[n], effect) then 1 else 0
  }

  /** From its entry to its return, the call that this record ends. */
  function TimeOf(front: seq<Event>, e: Event): seq<int> {
    var j := LatestEnter(front, e.tid);
    if e.kind.Return? && j.Some? then [e.time - front[j.value].time] else []
  }

  /** The log size recorded within it. */
  function SizeOf(front: seq<Event>, e: Event): seq<int> {
    var k := LatestLog(front, e.tid);
    if e.kind.Return? && k.Some? then [front[k.value].logSize] else []
  }

  function CallTimes(events: seq<Event>): seq<int> {
    if events == [] then []
    else CallTimes(events[..|events| - 1]) + TimeOf(events[..|events| - 1], events[|events| - 1])
  }

  function CallLogs(events: seq<Event>): seq<int> {
    if events == [] then []
    else CallLogs(events[..|events| - 1]) + SizeOf(events[..|events| - 1], events[|events| - 1])
  }

  lemma {:induction false} ReturnsAreOpen(events: seq<Event>)
    requires events != [] && Run(events).Some? && events[|events| - 1].kind.Return?
    ensures var front, e := events[..|events| - 1], events[|events| - 1];
            var p := Run(front).value.pending;
            && e.tid in p && p[e.tid].log.Some? && LatestEnter(front, e.tid).Some? && LatestLog(front, e.tid).Some?
            && p[e.tid].start == front[LatestEnter(front, e.tid).value].time
            && p[e.tid].log.value.size == front[LatestLog(front, e.tid).value].logSize
            && p[e.tid].log.value.result == front[LatestLog(front, e.tid).value].result
  {
    PendingIsOpen(events[..|events| - 1], events[|events| - 1].tid);
  }

  /** The durations and log sizes that a run measures are those its records show. */
  lemma {:induction false} ValuesExact(events: seq<Event>)
    requires Run(events).Some?
    ensures AllDurations(events) == CallTimes(events) && AllLogs(events) == CallLogs(events)
  {
    if events != [] {
      ValuesExact(events[..|events| - 1]);
      OneCompleted(events);
    }
  }

  lemma {:induction false} OneCompleted(events: seq<Event>)
    requires events != [] && Run(events).Some?
    ensures var front, e := events[..|events| - 1], events[|events| - 1];
            && CompletedDuration(Run(front).value, e) == TimeOf(front, e)
            && CompletedLog(Run(front).value, e) == SizeOf(front, e)
  {
    if events[|events| - 1].kind.Return? {
      ReturnsAreOpen(events);
    }
  }

  lemma {:induction false} CountersMove(events: seq<Event>)
    requires events != [] && Run(events).Some?
    ensures var n := |events| - 1;
            var s, t := Run(events[..n]).value.totals, Run(events).value.totals;
            && t.completed == s.completed + (if Has(events[..n], events[n], Completes) then 1 else 0)
            && t.rejected == s.rejected + (if Has(events[..n], events[n], Rejected) then 1 else 0)
            && t.logFailures == s.logFailures + (if Has(events[..n], events[n], LogFailed) then 1 else 0)
            && t.unassociated == s.unassociated + (if Has(events[..n], events[n], Unassociated) then 1 else 0)
  {
    var n := |events| - 1;
    PendingIsOpen(events[..n], events[n].tid);
    if events[n].kind.Return? {
      ReturnsAreOpen(events);
    }
  }

  /** Every total of a run is what its name says of the records. */
  lemma {:induction false} TotalsExact(events: seq<Event>)
    requires Run(events).Some?
    ensures var t := Run(events).value.totals;
            && t.completed == Occurrences(events, Completes) && t.rejected == Occurrences(events, Rejected)
            && t.logFailures == Occurrences(events, LogFailed) && t.unassociated == Occurrences(events, Unassociated)
            && t.duration == Sum(CallTimes(events)) && t.logBytes == Sum(CallLogs(events))
    ensures var d := Run(events).value.totals.maximum;
            && (forall x | x in CallTimes(events) :: x <= d)
            && if CallTimes(events) == [] then d == 0 else d in CallTimes(events)
    ensures var b := Run(events).value.totals.maximumLog;
            && (forall x | x in CallLogs(events) :: x <= b)
            && if CallLogs(events) == [] then b == 0 else b in CallLogs(events)
  {
    RunKeepsInv(events, 0);
    ValuesExact(events);
    MaxIsGreatest(AllDurations(events));
    MaxIsGreatest(AllLogs(events));
    CountsExact(events);
  }

  lemma {:induction false} CountsExact(events: seq<Event>)
    requires Run(events).Some?
    ensures var t := Run(events).value.totals;
            && t.completed == Occurrences(events, Completes) && t.rejected == Occurrences(events, Rejected)
            && t.logFailures == Occurrences(events, LogFailed) && t.unassociated == Occurrences(events, Unassociated)
  {
    if events != [] {
      CountsExact(events[..|events| - 1]);
      CountersMove(events);
    }
  }

  /** A snapshot shows these totals, and how many threads are in a call. */
  lemma {:induction false} SnapshotExact(events: seq<Event>, inside: set<nat>)
    requires Run(events).Some?
    requires forall tid: nat :: tid in inside <==> exists j: nat :: EnteredBy(events, tid, j)
    ensures var t := Snapshot(Run(events).value);
            && t.pending == |inside| && t.(pending := 0) == Run(events).value.totals.(pending := 0)
  {
    var pending := Run(events).value.pending;
    forall tid: nat ensures tid in pending.Keys <==> tid in inside {
      PendingIsOpen(events, tid);
      forall j: nat ensures LatestEnter(events, tid) == Some(j) <==> EnteredBy(events, tid, j) {
        LatestEnterIs(events, tid, j);
      }
      if LatestEnter(events, tid).Some? {
        assert EnteredBy(events, tid, LatestEnter(events, tid).value);
      }
    }
    assert pending.Keys == inside && |pending| == |pending.Keys|;
  }

  /** The record may come next in its thread's call. */
  predicate InOrder(front: seq<Event>, e: Event) {
    var j, k := LatestEnter(front, e.tid), LatestLog(front, e.tid);
    && (j.Some? ==>
          && front[j.value].time < e.time <= front[j.value].time + 30_000_000_000
          && (k.Some? ==> front[k.value].time < e.time))
    && match e.kind
       case Enter => j.None? && e.result == 0 && e.logSize == 0
       case Log => j.Some? ==> k.None?
       case Return => j.Some? && k.Some? && e.logSize == 0
  }

  /** A run goes on with a record if and only if it comes in time and within the
      count of records, names a thread and a result, comes in order within its
      thread's call, and opens no call beyond 64 at once and 4096 in all. */
  lemma {:induction false} NextRecordAccepted(events: seq<Event>)
    requires events != [] && Run(events[..|events| - 1]).Some?
    ensures var front, e := events[..|events| - 1], events[|events| - 1];
            var pending := |Run(front).value.pending|;
            Run(events).Some? <==>
            && 1 <= e.time && (front != [] ==> front[|front| - 1].time <= e.time) && |front| < 32768
            && 1 <= e.tid < 0x8000_0000 && -4095 <= e.result <= 0 && InOrder(front, e)
            && (e.kind.Enter? ==> pending < 64 && Occurrences(front, Completes) + pending < 4096)
  {
    var front, e := events[..|events| - 1], events[|events| - 1];
    RunKeepsInv(front, 0);
    RunEvents(front);
    CountsExact(front);
    LastIsLatest(front);
    OrderFromPending(front, e);
    var s := Run(front).value;
    assert e.tid in s.pending ==> CallOk(s.pending[e.tid], 0, s.last);
    ObserveAccepted(s, e);
  }

  /** The same order, in terms of the thread's pending call. */
  predicate Continues(call: Option<Call>, e: Event) {
    && (call.Some? ==> call.value.last < e.time <= call.value.start + 30_000_000_000)
    && match e.kind
       case Enter => call.None? && e.result == 0 && e.logSize == 0
       case Log => call.Some? ==> call.value.log.None?
       case Return => call.Some? && call.value.log.Some? && e.logSize == 0
  }

  lemma {:induction false} OrderFromPending(front: seq<Event>, e: Event)
    requires Run(front).Some?
    ensures InOrder(front, e) <==> Continues(OpenCall(front, e.tid), e)
    ensures var p := Run(front).value.pending;
            OpenCall(front, e.tid) == if e.tid in p then Some(p[e.tid]) else None
  {
    PendingIsOpen(front, e.tid);
    RunKeepsInv(front, 0);
    var p := Run(front).value.pending;
    assert e.tid in p ==> CallOk(p[e.tid], 0, Run(front).value.last);
  }

  lemma {:induction false} ObserveAccepted(s: State, e: Event)
    requires e.tid in s.pending ==> s.pending[e.tid].start <= s.pending[e.tid].last
    ensures Observe(s, e).Some? <==>
            && 1 <= e.time && s.last <= e.time && s.events < 32768
            && 1 <= e.tid < 0x8000_0000 && -4095 <= e.result <= 0
            && Continues(if e.tid in s.pending then Some(s.pending[e.tid]) else None, e)
            && (e.kind.Enter? ==> |s.pending| < 64 && s.totals.completed + |s.pending| < 4096)
  {}

  lemma {:induction false} LastIsLatest(events: seq<Event>)
    requires Run(events).Some?
    ensures Run(events).value.last == if events == [] then 0 else events[|events| - 1].time
  {}

  lemma {:induction false} LoggedSize(m: map<nat, Call>)
    ensures |Logged(m)| <= |m|
  {
    assert Logged(m) <= m.Keys;
    SubsetSize(Logged(m), m.Keys);
  }

  /** A meter of honest values passes the checks on one row. */
  lemma {:induction false} HonestMeter(xs: seq<nat>, m: Meter, floor: nat, bound: nat)
    requires Measures(xs, m) && AtLeast(xs, floor) && Max(xs) <= bound && |xs| <= MAX_CALLS
    ensures RowChecks(m, bound) && floor * m.count <= m.sum <= bound * 4096
  {
    SumRoom(floor, xs);
    MaxAtMostSum(xs);
    Scale(m.count, m.maximum, bound);
    Scale(bound, m.count, 4096);
  }

  lemma {:induction false} MetersOfRun(events: seq<Event>, started: nat)
    requires Since(events, started) && Run(events).Some?
    ensures Measures(AllDurations(events), Durations(Run(events).value.totals))
    ensures Measures(AllLogs(events), Logs(Run(events).value.totals))
    ensures AtLeast(AllDurations(events), 2)
    ensures Max(AllDurations(events)) <= MAX_DURATION && Max(AllLogs(events)) <= 0xFFFF_FFFF
    ensures events != [] ==> Max(AllDurations(events)) <= events[|events| - 1].time - started
    ensures events == [] ==> Max(AllDurations(events)) == 0
  {
    RunKeepsInv(events, started);
  }

  lemma {:induction false} CountersOfRun(events: seq<Event>, started: nat)
    requires Since(events, started) && Run(events).Some?
    ensures var t := Snapshot(Run(events).value);
            && 0 <= t.completed && 0 <= t.pending <= 64 && t.completed + t.pending <= 4096
            && 0 <= t.rejected <= t.completed && 0 <= t.logFailures <= t.completed
            && 0 <= t.unassociated <= 32768
  {
    RunKeepsInv(events, started);
  }

  lemma {:induction false} HonestTotals(events: seq<Event>, started: nat, index: nat)
    requires Since(events, started) && Run(events).Some?
    requires forall i | 0 <= i < |events| :: events[i].time <= started + index * 1_000_000_000
    ensures TotalsOk(Snapshot(Run(events).value), index * 1_000_000_000)
  {
    MetersOfRun(events, started);
    CountersOfRun(events, started);
    TotalsFromValues(Snapshot(Run(events).value), AllDurations(events), AllLogs(events), index * 1_000_000_000);
  }

  lemma {:induction false} TotalsFromValues(t: Totals, durations: seq<nat>, logs: seq<nat>, elapsed: nat)
    requires Measures(durations, Durations(t)) && Measures(logs, Logs(t)) && AtLeast(durations, 2)
    requires Max(durations) <= MAX_DURATION && Max(durations) <= elapsed && Max(logs) <= 0xFFFF_FFFF
    requires 0 <= t.pending <= 64 && t.completed + t.pending <= 4096
    requires 0 <= t.rejected <= t.completed && 0 <= t.logFailures <= t.completed && 0 <= t.unassociated <= 32768
    ensures TotalsOk(t, elapsed)
  {
    var limit: nat := if elapsed < 30_000_000_000 then elapsed else 30_000_000_000;
    assert limit * 4096 <= U64_MAX;
    AnyValues(logs);
    HonestMeter(durations, Durations(t), 2, limit);
    HonestMeter(logs, Logs(t), 0, 0xFFFF_FFFF);
  }

  lemma {:induction false} LaterMeter(xs: seq<nat>, a: Meter, all: seq<nat>, b: Meter, floor: nat)
    requires Measures(xs, a) && Measures(all, b) && xs <= all && AtLeast(all, floor)
    ensures Room(floor, a, b)
  {
    assert all == xs + all[|xs|..];
    forall i | 0 <= i < |all[|xs|..]| ensures floor <= all[|xs|..][i] {
      assert all[|xs|..][i] == all[|xs| + i];
    }
    StepHasRoom(floor, xs, a, all[|xs|..], b);
  }

  lemma {:induction false} HonestInterval(events: seq<Event>, started: nat, n: nat)
    requires Since(events, started) && Run(events).Some? && n <= |events|
    ensures Run(events[..n]).Some?
    ensures IntervalOk(Snapshot(Run(events[..n]).value), Snapshot(Run(events).value))
  {
    PrefixRun(events, started, n);
    MetersOfRun(events, started);
    MetersOfRun(events[..n], started);
    IntervalFromValues(Run(events[..n]).value, AllDurations(events[..n]), AllLogs(events[..n]),
                       Run(events).value, AllDurations(events), AllLogs(events));
  }

  lemma {:induction false} IntervalFromValues(
    s: State, ds: seq<nat>, ls: seq<nat>, t: State, durations: seq<nat>, logs: seq<nat>)
    requires Measures(ds, Durations(s.totals)) && Measures(ls, Logs(s.totals))
    requires Measures(durations, Durations(t.totals)) && Measures(logs, Logs(t.totals)) && AtLeast(durations, 2)
    requires ds <= durations && ls <= logs && Later(s, t)
    ensures IntervalOk(Snapshot(s), Snapshot(t))
  {
    AnyValues(logs);
    LaterMeter(ds, Durations(s.totals), durations, Durations(t.totals), 2);
    LaterMeter(ls, Logs(s.totals), logs, Logs(t.totals), 0);
  }

  /** After n records nothing is pending. */
  ghost predicate Drained(events: seq<Event>, n: nat)
    requires n <= |events|
  {
    Run(events[..n]).Some? && Snapshot(Run(events[..n]).value).pending == 0
  }

  ghost predicate RowAccepted(events: seq<Event>, n: nat, index: nat, discarded: nat, perf: int, final: bool)
    requires n <= |events|
  {
    && Run(events[..n]).Some?
    && TotalsOk(Snapshot(Run(events[..n]).value), index * 1_000_000_000)
    && RecordsOk(Snapshot(Run(events[..n]).value), discarded, perf, final)
  }

  lemma {:induction false} HonestRow(
    events: seq<Event>, started: nat, discarded: nat, n: nat, index: nat, perf: int)
    requires Since(events, started) && Run(events).Some? && n <= |events| && n + discarded <= perf
    requires forall k | 0 <= k < n :: events[k].time <= started + index * 1_000_000_000
    ensures RowAccepted(events, n, index, discarded, perf, false)
    ensures RowAccepted(events, n, index, discarded, perf, true) <==>
            Drained(events, n) && perf == n + discarded
  {
    PrefixRun(events, started, n);
    EventsConserved(events[..n], started);
    HonestTotals(events[..n], started, index);
  }

  ghost predicate StepAccepted(events: seq<Event>, m: nat, n: nat)
    requires m <= n <= |events|
  {
    && Run(events[..m]).Some? && Run(events[..n]).Some?
    && IntervalOk(Snapshot(Run(events[..m]).value), Snapshot(Run(events[..n]).value))
  }

  lemma {:induction false} HonestStep(events: seq<Event>, started: nat, m: nat, n: nat)
    requires Since(events, started) && Run(events).Some? && m <= n <= |events|
    ensures StepAccepted(events, m, n)
  {
    PrefixRun(events, started, n);
    assert events[..n][..m] == events[..m];
    HonestInterval(events[..n], started, m);
  }

  /** Snapshots of one honest run at successive one-second cutoffs pass every
      check the replay makes on a row's totals, on its perf records and between
      two rows; perf may have counted records that are not yet observed. The last
      row passes its own check too exactly when nothing is pending and every perf
      record has been observed or discarded. */
  lemma {:induction false} HonestRunAccepted(
    events: seq<Event>, started: nat, discarded: seq<nat>, cuts: seq<nat>, perf: seq<int>)
    requires Since(events, started) && Run(events).Some? && |perf| == |discarded| == |cuts|
    requires forall i | 0 <= i < |cuts| :: cuts[i] <= |events| && cuts[i] + discarded[i] <= perf[i]
    requires forall i, j | 0 <= i <= j < |cuts| :: cuts[i] <= cuts[j]
    requires forall i, k | 0 <= i < |cuts| && 0 <= k < cuts[i] :: events[k].time <= started + i * 1_000_000_000
    ensures forall i | 0 <= i < |cuts| :: RowAccepted(events, cuts[i], i, discarded[i], perf[i], false)
    ensures forall i, j | 0 <= i <= j < |cuts| :: StepAccepted(events, cuts[i], cuts[j])
    ensures cuts != [] ==>
              var last := |cuts| - 1;
              RowAccepted(events, cuts[last], last, discarded[last], perf[last], true) <==>
              Drained(events, cuts[last]) && perf[last] == cuts[last] + discarded[last]
  {
    forall i | 0 <= i < |cuts| ensures RowAccepted(events, cuts[i], i, discarded[i], perf[i], false) {
      HonestRow(events, started, discarded[i], cuts[i], i, perf[i]);
    }
    forall i, j | 0 <= i <= j < |cuts| ensures StepAccepted(events, cuts[i], cuts[j]) {
      HonestStep(events, started, cuts[i], cuts[j]);
    }
    if cuts != [] {
      var last := |cuts| - 1;
      HonestRow(events, started, discarded[last], cuts[last], last, perf[last]);
    }
  }
}
