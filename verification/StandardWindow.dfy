/** Validation of every standard-metrics poll (standard_window.py): each completed
    scan is recovered once and each ingestion request is accounted for once. */
module StandardWindow {
  import opened Limits
  import opened Wrappers
  import opened Sums
  import opened ScanHistory
  import Activity

  /** The number of collector outcomes; outcomes 0 and 1 are accepted and duplicate. */
  const RESULTS: nat := 15

  datatype Agent = Agent(
    scanSuccess: int, scanFailure: int, postSuccess: int, postFailure: int,
    completedSeconds: int, lastDuration: int, found: int, mapped: int, unmapped: int,
    infrastructure: int, cachePods: int)
  datatype Collector = Collector(duration: int, results: seq<int>)
  datatype Row = Row(
    schema: int, index: int, elapsed: int, read: int, clock: Activity.Clock, agent: Agent, collector: Collector,
    cpuUsec: int, peakRSS: int, history: Option<seq<Entry>>)

  datatype Ingestion = Ingestion(pollIndex: int, newRequests: int, latestDuration: int, missing: int)
  datatype Report = Report(scans: seq<Scan>, ingestions: seq<Ingestion>, missing: int)

  function Begin(row: Row): int {
    row.clock.wall - row.read - row.clock.uncertainty
  }

  function End(row: Row): int {
    row.clock.wall + row.clock.uncertainty
  }

  function ToPoll(row: Row): Poll {
    Poll(row.index, row.agent.scanSuccess, row.agent.scanFailure, row.agent.completedSeconds,
         row.agent.lastDuration, if row.history.Some? then row.history.value else [], Begin(row), End(row))
  }

  function ToPolls(rows: seq<Row>): (polls: seq<Poll>)
    ensures |polls| == |rows|
  {
    seq(|rows|, i requires 0 <= i < |rows| => ToPoll(rows[i]))
  }

  function Requests(row: Row): int {
    Sum(row.collector.results)
  }

  /** The read began no earlier and ended no later than this, whatever the clock's error. */
  ghost function Earliest(row: Row): int {
    row.clock.wall - (row.clock.uncertainty + row.read)
  }

  ghost function Latest(row: Row): int {
    row.clock.uncertainty + row.clock.wall
  }

  /** What one row shows of the scans. */
  ghost predicate IsPoll(p: Poll, row: Row) {
    && p.index == row.index && p.success == row.agent.scanSuccess && p.failure == row.agent.scanFailure
    && p.completedSeconds == row.agent.completedSeconds && p.lastDuration == row.agent.lastDuration
    && Some(p.history) == row.history && p.begin == Earliest(row) && p.end == Latest(row)
  }

  ghost predicate PollsOf(polls: seq<Poll>, rows: seq<Row>) {
    |polls| == |rows| && forall i | 0 <= i < |rows| :: IsPoll(polls[i], rows[i])
  }

  lemma {:induction false} PollsExact(polls: seq<Poll>, rows: seq<Row>)
    requires forall i | 0 <= i < |rows| :: rows[i].history.Some?
    ensures PollsOf(polls, rows) <==> polls == ToPolls(rows)
  {
    if PollsOf(polls, rows) {
      forall i | 0 <= i < |rows| ensures polls[i] == ToPolls(rows)[i] {
        assert IsPoll(polls[i], rows[i]);
      }
    }
  }

  predicate AgentOk(a: Agent) {
    && 0 <= a.scanSuccess <= U53_MAX && 0 <= a.scanFailure <= U53_MAX
    && 0 <= a.postSuccess <= U53_MAX && 0 <= a.postFailure <= U53_MAX
    && 0 <= a.found <= U53_MAX && 0 <= a.mapped <= U53_MAX && 0 <= a.unmapped <= U53_MAX
    && 0 <= a.infrastructure <= U53_MAX && 0 <= a.cachePods <= U53_MAX
    && 1 <= a.completedSeconds <= U53_MAX && 1 <= a.lastDuration <= 1_800_000_000_000
  }

  predicate CollectorOk(c: Collector) {
    && 1 <= c.duration <= 1_800_000_000_000
    && |c.results| == RESULTS && (forall i | 0 <= i < |c.results| :: 0 <= c.results[i] <= U53_MAX)
    && 0 < Sum(c.results) <= U53_MAX
  }

  /** The requires on one row, apart from its history. */
  predicate RowOk(first: Row, row: Row, index: int) {
    && (row.history.Some? <==> first.schema == 2)
    && row.schema == first.schema && row.index == index
    && 0 <= row.elapsed <= U64_MAX && 1 <= row.read <= 100_000_000
    && 0 <= row.cpuUsec <= U64_MAX && 1 <= row.peakRSS <= U64_MAX
    && Activity.ClockOk(row.clock) && AgentOk(row.agent) && CollectorOk(row.collector)
    && Abs(row.elapsed - index * 1_000_000_000) <= 100_000_000
    && Abs(Begin(row) - Begin(first) - row.elapsed) <= 105_000_000
    && Abs((row.clock.monotonic - row.read) - (first.clock.monotonic - first.read) - row.elapsed) <= 105_000_000
    && row.agent.completedSeconds * 1_000_000_000 <= End(row)
    && (index == 0 ==> row.elapsed == 0)
  }

  predicate SameScan(a: Agent, b: Agent) {
    b.(postSuccess := a.postSuccess, postFailure := a.postFailure) == a
  }

  /** The requires between two rows, apart from the recovery of scans. */
  predicate StepOk(prior: Row, row: Row)
    requires CollectorOk(prior.collector) && CollectorOk(row.collector)
  {
    var a, b := prior.agent, row.agent;
    && 900_000_000 <= row.elapsed - prior.elapsed <= 1_100_000_000
    && Begin(row) > End(prior) && row.cpuUsec >= prior.cpuUsec
    && b.scanSuccess >= a.scanSuccess && b.postSuccess >= a.postSuccess
    && b.scanFailure == a.scanFailure && b.postFailure == a.postFailure
    && (b.scanSuccess == a.scanSuccess ==> SameScan(a, b))
    && (forall i | 0 <= i < RESULTS :: row.collector.results[i] >= prior.collector.results[i])
    && (forall i | 2 <= i < RESULTS :: row.collector.results[i] == prior.collector.results[i])
    && (Requests(row) == Requests(prior) ==> row.collector.duration == prior.collector.duration)
  }

  // ------------------------------------------------------------ schema 1: gauges

  /** Every require of legacy_scans. */
  predicate LegacyOk(prior: Row, row: Row) {
    var count := row.agent.scanSuccess - prior.agent.scanSuccess;
    && count <= 1
    && (count != 0 ==>
          && row.agent.completedSeconds * 1_000_000_000 + 1_000_000_000 > Begin(prior)
          && row.agent.completedSeconds * 1_000_000_000 >= row.agent.lastDuration)
  }

  function LegacyScans(prior: Row, row: Row): seq<Scan> {
    if row.agent.scanSuccess == prior.agent.scanSuccess then []
    else
      var lower := row.agent.completedSeconds * 1_000_000_000;
      [Scan(row.index, row.agent.lastDuration, lower - row.agent.lastDuration, lower + 1_000_000_000)]
  }

  function Legacy(rows: seq<Row>, n: nat): seq<Scan>
    requires n <= |rows|
  {
    if n <= 1 then [] else Legacy(rows, n - 1) + LegacyScans(rows[n - 2], rows[n - 1])
  }

  /** A scan that completed in the reported second lies in the reported interval,
      whatever the fraction of that second was. */
  lemma {:induction false} LegacyEncloses(prior: Row, row: Row, completed: int)
    requires LegacyOk(prior, row) && row.agent.scanSuccess != prior.agent.scanSuccess
    requires completed / 1_000_000_000 == row.agent.completedSeconds
    ensures var s := LegacyScans(prior, row)[0];
            s.earliestStart <= completed - row.agent.lastDuration && completed < s.latestEnd && s.earliestStart >= 0
  {}

  // ---------------------------------------------------------------- the window

  ghost predicate RowAt(rows: seq<Row>, i: nat)
    requires i < |rows|
  {
    RowOk(rows[0], rows[i], i) && (rows[0].schema == 2 ==> HistoryValid(ToPoll(rows[i])))
  }

  ghost predicate StepAtRow(rows: seq<Row>, i: nat)
    requires 0 < i < |rows| && RowAt(rows, i - 1) && RowAt(rows, i)
  {
    && StepOk(rows[i - 1], rows[i])
    && if rows[0].schema == 2 then Recoverable(ToPoll(rows[i - 1]), ToPoll(rows[i]))
       else LegacyOk(rows[i - 1], rows[i])
  }

  ghost predicate RowsAccepted(rows: seq<Row>, n: nat)
    requires n <= |rows|
  {
    && (forall i | 0 <= i < n :: RowAt(rows, i))
    && (forall i | 0 < i < n :: StepAtRow(rows, i))
  }

  ghost predicate WindowAccepted(rows: seq<Row>, seconds: int) {
    && 1 <= seconds <= 1800 && |rows| == seconds + 1 && rows[0].schema in {1, 2}
    && RowsAccepted(rows, |rows|) && rows[|rows| - 1].elapsed >= seconds * 1_000_000_000
  }

  function Scans(rows: seq<Row>, n: nat): seq<Scan>
    requires n <= |rows|
  {
    if rows == [] then [] else if rows[0].schema == 2 then Recovered(ToPolls(rows), n) else Legacy(rows, n)
  }

  /** The requests of one poll interval, when there were any. */
  function IngestionOf(prior: Row, row: Row): seq<Ingestion> {
    var count := Requests(row) - Requests(prior);
    if count == 0 then [] else [Ingestion(row.index, count, row.collector.duration, count - 1)]
  }

  function Ingestions(rows: seq<Row>, n: nat): seq<Ingestion>
    requires n <= |rows|
  {
    if n <= 1 then [] else Ingestions(rows, n - 1) + IngestionOf(rows[n - 2], rows[n - 1])
  }

  function TotalNew(ingestions: seq<Ingestion>): int {
    if ingestions == [] then 0
    else TotalNew(ingestions[..|ingestions| - 1]) + ingestions[|ingestions| - 1].newRequests
  }

  function TotalMissing(ingestions: seq<Ingestion>): int {
    if ingestions == [] then 0
    else TotalMissing(ingestions[..|ingestions| - 1]) + ingestions[|ingestions| - 1].missing
  }

  lemma {:induction false} TotalsSnoc(front: seq<Ingestion>, last: Ingestion)
    ensures TotalNew(front + [last]) == TotalNew(front) + last.newRequests
    ensures TotalMissing(front + [last]) == TotalMissing(front) + last.missing
  {
    assert (front + [last])[..|front|] == front;
  }

  lemma {:induction false} IngestionAdds(front: seq<Ingestion>, prior: Row, row: Row)
    ensures var all := front + IngestionOf(prior, row);
            && TotalNew(all) == TotalNew(front) + Requests(row) - Requests(prior)
            && TotalMissing(all) - TotalMissing(front)
               == TotalNew(all) - TotalNew(front) - (|all| - |front|)
  {
    var more := IngestionOf(prior, row);
    if more == [] {
      assert front + more == front;
    } else {
      assert more == [more[0]];
      TotalsSnoc(front, more[0]);
    }
  }

  /** Every request of the window is counted in exactly one interval, and each
      interval knows the duration of exactly one of its requests. */
  lemma {:induction false} RequestsConserved(rows: seq<Row>, n: nat)
    requires 0 < n <= |rows|
    ensures TotalNew(Ingestions(rows, n)) == Requests(rows[n - 1]) - Requests(rows[0])
    ensures TotalMissing(Ingestions(rows, n)) == TotalNew(Ingestions(rows, n)) - |Ingestions(rows, n)|
  {
    if n > 1 {
      RequestsConserved(rows, n - 1);
      IngestionAdds(Ingestions(rows, n - 1), rows[n - 2], rows[n - 1]);
    }
  }

  lemma {:induction false} LegacyCount(rows: seq<Row>, n: nat)
    requires 0 < n <= |rows| && RowsAccepted(rows, n) && rows[0].schema != 2
    ensures |Legacy(rows, n)| == rows[n - 1].agent.scanSuccess - rows[0].agent.scanSuccess
  {
    if n > 1 {
      LegacyCount(rows, n - 1);
      assert StepAtRow(rows, n - 1);
    }
  }

  lemma {:induction false} WindowHistories(rows: seq<Row>)
    requires rows != [] && RowsAccepted(rows, |rows|) && rows[0].schema == 2
    ensures HistoriesAccepted(ToPolls(rows))
  {
    forall i | 0 <= i < |rows| ensures ValidAt(ToPolls(rows), i) {
      assert RowAt(rows, i);
    }
    forall i | 0 < i < |rows| ensures StepAt(ToPolls(rows), i) {
      assert StepAtRow(rows, i);
      RowStepAccepted(rows, i);
    }
  }

  lemma {:induction false} AcceptedHistories(rows: seq<Row>)
    requires rows != [] && RowsAccepted(rows, |rows|) && rows[0].schema == 2
    ensures forall i | 0 <= i < |rows| :: rows[i].history.Some?
  {
    forall i | 0 <= i < |rows| ensures rows[i].history.Some? {
      assert RowAt(rows, i);
    }
  }

  lemma {:induction false} PairAccepted(a: Row, b: Row)
    requires a.agent.scanSuccess <= b.agent.scanSuccess && a.agent.scanFailure == b.agent.scanFailure
    requires Recoverable(ToPoll(a), ToPoll(b))
    ensures StepAccepted(ToPoll(a), ToPoll(b))
  {}

  lemma {:induction false} RowStepAccepted(rows: seq<Row>, i: nat)
    requires 0 < i < |rows| && RowAt(rows, i - 1) && RowAt(rows, i) && StepAtRow(rows, i) && rows[0].schema == 2
    ensures StepAt(ToPolls(rows), i)
  {
    var a, b := rows[i - 1], rows[i];
    assert a.agent.scanSuccess <= b.agent.scanSuccess && a.agent.scanFailure == b.agent.scanFailure by {
      assert StepOk(a, b);
    }
    PairAccepted(a, b);
    assert ToPolls(rows)[i - 1] == ToPoll(a) && ToPolls(rows)[i] == ToPoll(b);
  }

  lemma {:induction false} WindowLog(rows: seq<Row>) returns (log: seq<Entry>)
    requires rows != [] && RowsAccepted(rows, |rows|) && rows[0].schema == 2
    ensures HistoriesAccepted(ToPolls(rows)) && Honest(log, ToPolls(rows)) && Shows(log, ToPolls(rows))
  {
    WindowHistories(rows);
    HistoriesExact(ToPolls(rows));
    log :| Honest(log, ToPolls(rows));
    HonestShows(log, ToPolls(rows));
  }

  /** In an accepted schema-2 window the scans are the log's: some log explains
      all polls, and of any log that the polls show the scans are exactly the
      entries between the first and the last total. */
  lemma {:induction false} ScansAreTheLog(rows: seq<Row>)
    requires rows != [] && RowsAccepted(rows, |rows|) && rows[0].schema == 2
    ensures exists log: seq<Entry> :: Honest(log, ToPolls(rows))
    ensures forall log: seq<Entry> | Shows(log, ToPolls(rows)) :: ScansOf(Scans(rows, |rows|), log, ToPolls(rows))
  {
    var honest := WindowLog(rows);
    forall log: seq<Entry> | Shows(log, ToPolls(rows)) ensures ScansOf(Scans(rows, |rows|), log, ToPolls(rows)) {
      RecoveredIsLog(ToPolls(rows), log);
    }
  }

  lemma {:induction false} ScansStep(rows: seq<Row>, index: nat)
    requires 0 < index < |rows|
    ensures Scans(rows, index + 1) == Scans(rows, index) +
            if rows[0].schema == 2
            then ToScans(rows[index].index, NewEntries(ToPoll(rows[index - 1]), ToPoll(rows[index])))
            else LegacyScans(rows[index - 1], rows[index])
  {
    assert ToPolls(rows)[index] == ToPoll(rows[index]) && ToPolls(rows)[index - 1] == ToPoll(rows[index - 1]);
  }

  /** The recovery of scans between two rows, in either schema. */
  method RecoverScans(schema: int, prior: Row, row: Row) returns (r: Option<seq<Scan>>)
    requires schema == 2 ==> HistoryValid(ToPoll(prior)) && HistoryValid(ToPoll(row))
    ensures schema == 2 ==> (r.Some? <==> Recoverable(ToPoll(prior), ToPoll(row)))
    ensures schema != 2 ==> (r.Some? <==> LegacyOk(prior, row))
    ensures r.Some? ==> r.value == if schema == 2 then ToScans(row.index, NewEntries(ToPoll(prior), ToPoll(row)))
                                   else LegacyScans(prior, row)
  {
    if schema == 2 {
      r := HistoryScans(ToPoll(prior), ToPoll(row));
    } else {
      r := RecoverLegacy(prior, row);
    }
  }

  /** The part of the source's loop that compares a row with the one before. */
  method CheckStep(rows: seq<Row>, index: nat) returns (r: Option<seq<Scan>>)
    requires 0 < index < |rows| && RowAt(rows, index - 1) && RowAt(rows, index)
    ensures r.Some? <==> StepAtRow(rows, index)
    ensures r.Some? ==> Scans(rows, index + 1) == Scans(rows, index) + r.value
  {
    if !StepOk(rows[index - 1], rows[index]) {
      return None;
    }
    ScansStep(rows, index);
    r := RecoverScans(rows[0].schema, rows[index - 1], rows[index]);
  }

  method RecoverLegacy(prior: Row, row: Row) returns (r: Option<seq<Scan>>)
    ensures r.Some? <==> LegacyOk(prior, row)
    ensures r.Some? ==> r.value == LegacyScans(prior, row)
  {
    var count := row.agent.scanSuccess - prior.agent.scanSuccess;
    if count > 1 {
      return None;
    }
    if count == 0 {
      return Some([]);
    }
    var lower := row.agent.completedSeconds * 1_000_000_000;
    var upper := lower + 1_000_000_000;
    if upper <= Begin(prior) || lower < row.agent.lastDuration {
      return None;
    }
    r := Some([Scan(row.index, row.agent.lastDuration, lower - row.agent.lastDuration, upper)]);
  }

  method CheckRow(rows: seq<Row>, index: nat) returns (ok: bool)
    requires index < |rows|
    ensures ok <==> RowAt(rows, index)
  {
    if !RowOk(rows[0], rows[index], index) {
      return false;
    }
    if rows[0].schema != 2 {
      return true;
    }
    ok := ValidateHistory(ToPoll(rows[index]));
  }

  method Ingest(prior: Row, row: Row) returns (ingested: seq<Ingestion>)
    ensures ingested == IngestionOf(prior, row)
  {
    var count := Requests(row) - Requests(prior);
    return if count != 0 then [Ingestion(row.index, count, row.collector.duration, count - 1)] else [];
  }

  /** The body of the source's loop, and what it appends. */
  method ValidateRow(rows: seq<Row>, index: nat) returns (ok: bool, more: seq<Scan>, ingested: seq<Ingestion>)
    requires index < |rows| && (index > 0 ==> RowAt(rows, index - 1))
    ensures ok <==> RowAt(rows, index) && (index > 0 ==> StepAtRow(rows, index))
    ensures ok && index > 0 ==> Scans(rows, index + 1) == Scans(rows, index) + more
    ensures ok && index > 0 ==> Ingestions(rows, index + 1) == Ingestions(rows, index) + ingested
    ensures index == 0 ==> more == [] && ingested == []
  {
    more, ingested := [], [];
    ok := CheckRow(rows, index);
    if !ok || index == 0 {
      return;
    }
    var step := CheckStep(rows, index);
    if step.None? {
      return false, [], [];
    }
    more := step.value;
    ingested := Ingest(rows[index - 1], rows[index]);
  }

  /** The source's loop over the rows. */
  method ValidateRows(rows: seq<Row>) returns (ok: bool, scans: seq<Scan>, ingestions: seq<Ingestion>)
    ensures ok <==> RowsAccepted(rows, |rows|)
    ensures ok ==> scans == Scans(rows, |rows|) && ingestions == Ingestions(rows, |rows|)
  {
    scans, ingestions := [], [];
    for index := 0 to |rows|
      invariant RowsAccepted(rows, index)
      invariant scans == Scans(rows, index) && ingestions == Ingestions(rows, index)
    {
      var more, ingested;
      ok, more, ingested := ValidateRow(rows, index);
      if !ok {
        return;
      }
      scans, ingestions := scans + more, ingestions + ingested;
    }
    ok := true;
  }

  method SumMissing(ingestions: seq<Ingestion>) returns (missing: int)
    ensures missing == TotalMissing(ingestions)
  {
    missing := 0;
    for i := 0 to |ingestions|
      invariant missing == TotalMissing(ingestions[..i])
    {
      assert ingestions[..i + 1][..i] == ingestions[..i];
      missing := missing + ingestions[i].missing;
    }
    assert ingestions[..|ingestions|] == ingestions;
  }

  lemma {:induction false} RecoveredScanCount(rows: seq<Row>)
    requires rows != [] && HistoriesAccepted(ToPolls(rows))
    ensures |Recovered(ToPolls(rows), |rows|)| == rows[|rows| - 1].agent.scanSuccess - rows[0].agent.scanSuccess
  {
    var polls := ToPolls(rows);
    RecoveredCount(polls);
    assert polls[0].success == rows[0].agent.scanSuccess;
    assert polls[|polls| - 1].success == rows[|rows| - 1].agent.scanSuccess;
  }

  /** In either schema, as many scans are recovered as the counter advanced. */
  lemma {:induction false} ScanCount(rows: seq<Row>)
    requires rows != [] && RowsAccepted(rows, |rows|)
    ensures |Scans(rows, |rows|)| == rows[|rows| - 1].agent.scanSuccess - rows[0].agent.scanSuccess
  {
    if rows[0].schema == 2 {
      WindowHistories(rows);
      RecoveredScanCount(rows);
    } else {
      LegacyCount(rows, |rows|);
    }
  }

  /** The scan of a row whose counter advanced: wherever in the reported second it
      completed, it ran within the interval, which is no longer than that requires. */
  ghost predicate LegacyScanAt(scans: seq<Scan>, rows: seq<Row>, i: nat)
    requires 0 < i < |rows|
  {
    var a, k := rows[i].agent, rows[i].agent.scanSuccess - rows[0].agent.scanSuccess - 1;
    && 0 <= k < |scans| && scans[k].pollIndex == i && scans[k].duration == a.lastDuration
    && scans[k].latestEnd - scans[k].earliestStart == a.lastDuration + 1_000_000_000
    && forall completed | completed / 1_000_000_000 == a.completedSeconds ::
         scans[k].earliestStart <= completed - a.lastDuration && completed < scans[k].latestEnd
  }

  ghost predicate LegacyScansAre(scans: seq<Scan>, rows: seq<Row>, n: nat)
    requires n <= |rows|
  {
    forall i | 0 < i < n && rows[i].agent.scanSuccess != rows[i - 1].agent.scanSuccess :: LegacyScanAt(scans, rows, i)
  }

  lemma {:induction false} LegacyLonger(scans: seq<Scan>, more: seq<Scan>, rows: seq<Row>, n: nat)
    requires n <= |rows| && LegacyScansAre(scans, rows, n)
    ensures LegacyScansAre(scans + more, rows, n)
  {
    forall i | 0 < i < n && rows[i].agent.scanSuccess != rows[i - 1].agent.scanSuccess
      ensures LegacyScanAt(scans + more, rows, i)
    {
      assert LegacyScanAt(scans, rows, i);
    }
  }

  /** Every advance of the counter is one scan, in order, at the row that shows it. */
  lemma {:induction false} LegacyEnclosed(rows: seq<Row>, n: nat)
    requires 0 < n <= |rows| && RowsAccepted(rows, n) && rows[0].schema != 2
    ensures LegacyScansAre(Legacy(rows, n), rows, n)
  {
    if n > 1 {
      LegacyEnclosed(rows, n - 1);
      LegacyCount(rows, n - 1);
      LegacyLonger(Legacy(rows, n - 1), LegacyScans(rows[n - 2], rows[n - 1]), rows, n - 1);
      assert StepAtRow(rows, n - 1) && RowAt(rows, n - 1);
      LegacyNext(Legacy(rows, n - 1), rows, n - 1);
    }
  }

  lemma {:induction false} LegacyNext(scans: seq<Scan>, rows: seq<Row>, i: nat)
    requires 0 < i < |rows| && rows[i].index == i && LegacyOk(rows[i - 1], rows[i])
    requires rows[i - 1].agent.scanSuccess <= rows[i].agent.scanSuccess
    requires |scans| == rows[i - 1].agent.scanSuccess - rows[0].agent.scanSuccess
    ensures rows[i].agent.scanSuccess != rows[i - 1].agent.scanSuccess ==>
              LegacyScanAt(scans + LegacyScans(rows[i - 1], rows[i]), rows, i)
  {}

  /** The report of the requests that one poll interval added. */
  predicate Ingests(g: Ingestion, rows: seq<Row>, i: int) {
    && 0 < i < |rows| && g.pollIndex == i && g.newRequests != 0
    && Sum(rows[i].collector.results) == Sum(rows[i - 1].collector.results) + g.newRequests
    && g.latestDuration == rows[i].collector.duration && g.missing + 1 == g.newRequests
  }

  ghost predicate IngestedAt(ingestions: seq<Ingestion>, i: nat) {
    exists k | 0 <= k < |ingestions| :: ingestions[k].pollIndex == i
  }

  predicate IngestsAt(ingestions: seq<Ingestion>, rows: seq<Row>, k: nat) {
    && k < |ingestions| && Ingests(ingestions[k], rows, ingestions[k].pollIndex)
    && (k > 0 ==> ingestions[k - 1].pollIndex < ingestions[k].pollIndex)
  }

  /** One report for each interval with new requests, in order, and no other. */
  ghost predicate IngestionsAre(ingestions: seq<Ingestion>, rows: seq<Row>, n: nat)
    requires n <= |rows|
  {
    && (forall k | 0 <= k < |ingestions| :: IngestsAt(ingestions, rows, k) && ingestions[k].pollIndex < n)
    && (forall i | 0 < i < n && Requests(rows[i]) != Requests(rows[i - 1]) :: IngestedAt(ingestions, i))
  }

  lemma {:induction false} IngestedOnce(rows: seq<Row>, n: nat)
    requires 0 < n <= |rows| && RowsAccepted(rows, n)
    ensures IngestionsAre(Ingestions(rows, n), rows, n)
  {
    if n > 1 {
      IngestedOnce(rows, n - 1);
      assert RowAt(rows, n - 1);
      IngestedMore(Ingestions(rows, n - 1), rows, n - 1);
    }
  }

  lemma {:induction false} IngestedMore(front: seq<Ingestion>, rows: seq<Row>, i: nat)
    requires 0 < i < |rows| && IngestionsAre(front, rows, i) && rows[i].index == i
    ensures IngestionsAre(front + IngestionOf(rows[i - 1], rows[i]), rows, i + 1)
  {
    var more := IngestionOf(rows[i - 1], rows[i]);
    if more == [] {
      assert front + more == front;
    } else {
      assert more == [more[0]] && Ingests(more[0], rows, i);
      IngestedNext(front, more[0], rows, i);
    }
  }

  lemma {:induction false} IngestedNext(front: seq<Ingestion>, g: Ingestion, rows: seq<Row>, i: nat)
    requires 0 < i < |rows| && IngestionsAre(front, rows, i) && Ingests(g, rows, i)
    ensures IngestionsAre(front + [g], rows, i + 1)
  {
    var all := front + [g];
    forall k | 0 <= k < |all| ensures IngestsAt(all, rows, k) && all[k].pollIndex < i + 1 {
      assert k < |front| ==> IngestsAt(front, rows, k);
    }
    forall j | 0 < j < i + 1 && Requests(rows[j]) != Requests(rows[j - 1]) ensures IngestedAt(all, j) {
      if j < i {
        assert IngestedAt(front, j);
        var k :| 0 <= k < |front| && front[k].pollIndex == j;
        assert all[k].pollIndex == j;
      } else {
        assert all[|front|].pollIndex == j;
      }
    }
  }

  /** What is reported of accepted rows: each scan once, when it ran and as many as
      the counter advanced, every request in one ingestion, and all but one duration
      of each missing. */
  ghost predicate Reported(report: Report, rows: seq<Row>)
    requires rows != []
  {
    var last := rows[|rows| - 1];
    && (if rows[0].schema == 2
        then forall log: seq<Entry>, polls | PollsOf(polls, rows) && Shows(log, polls) ::
               ScansOf(report.scans, log, polls)
        else LegacyScansAre(report.scans, rows, |rows|))
    && IngestionsAre(report.ingestions, rows, |rows|)
    && |report.scans| == last.agent.scanSuccess - rows[0].agent.scanSuccess
    && TotalNew(report.ingestions) == Requests(last) - Requests(rows[0])
    && report.missing == TotalNew(report.ingestions) - |report.ingestions|
  }

  method CloseReport(rows: seq<Row>, scans: seq<Scan>, ingestions: seq<Ingestion>) returns (report: Report)
    requires rows != [] && RowsAccepted(rows, |rows|)
    requires scans == Scans(rows, |rows|) && ingestions == Ingestions(rows, |rows|)
    ensures Reported(report, rows)
  {
    var missing := SumMissing(ingestions);
    ScanCount(rows);
    RequestsConserved(rows, |rows|);
    IngestedOnce(rows, |rows|);
    if rows[0].schema == 2 {
      ScansAreTheLog(rows);
      forall log: seq<Entry>, polls | PollsOf(polls, rows) && Shows(log, polls) ensures ScansOf(scans, log, polls) {
        AcceptedHistories(rows);
        PollsExact(polls, rows);
      }
    } else {
      LegacyEnclosed(rows, |rows|);
    }
    report := Report(scans, ingestions, missing);
  }

  /** standard_window: accepted exactly when every row and every step is. */
  method Validate(rows: seq<Row>, seconds: int) returns (r: Option<Report>)
    ensures r.Some? <==> WindowAccepted(rows, seconds)
    ensures r.Some? ==> Reported(r.value, rows)
  {
    if !(1 <= seconds <= 1800) || |rows| != seconds + 1 || rows[0].schema !in {1, 2} {
      return None;
    }
    var ok, scans, ingestions := ValidateRows(rows);
    if !ok || rows[|rows| - 1].elapsed < seconds * 1_000_000_000 {
      return None;
    }
    var report := CloseReport(rows, scans, ingestions);
    r := Some(report);
  }

  // ------------------------------------------- what accepted rows have in common

  /** One row by itself: on time on all three clocks, with numbers that can be
      counters, and no scan reported that ends after the read. */
  ghost predicate Polled(first: Row, row: Row, i: nat) {
    var a, c := row.agent, row.clock;
    && row.schema == first.schema && row.index == i && (row.schema == 2 <==> row.history.Some?)
    && 0 <= row.elapsed <= U64_MAX && i * 1_000_000_000 - 100_000_000 <= row.elapsed <= i * 1_000_000_000 + 100_000_000
    && (i == 0 ==> row.elapsed == 0) && 1 <= row.read <= 100_000_000
    && 1 <= c.wall <= I64_MAX && 1 <= c.monotonic <= I64_MAX && 0 <= c.uncertainty <= 5_000_000
    && -105_000_000 <= Earliest(row) - Earliest(first) - row.elapsed <= 105_000_000
    && -105_000_000 <= (c.monotonic - row.read) - (first.clock.monotonic - first.read) - row.elapsed <= 105_000_000
    && 0 <= row.cpuUsec <= U64_MAX && 1 <= row.peakRSS <= U64_MAX
    && 1 <= a.completedSeconds <= U53_MAX && a.completedSeconds * 1_000_000_000 <= Latest(row)
    && 1 <= a.lastDuration <= 1_800_000_000_000
    && 0 <= a.scanSuccess <= U53_MAX && 0 <= a.scanFailure <= U53_MAX
    && 0 <= a.postSuccess <= U53_MAX && 0 <= a.postFailure <= U53_MAX
    && 0 <= a.found <= U53_MAX && 0 <= a.mapped <= U53_MAX && 0 <= a.unmapped <= U53_MAX
    && 0 <= a.infrastructure <= U53_MAX && 0 <= a.cachePods <= U53_MAX
    && |row.collector.results| == RESULTS && (forall k | 0 <= k < RESULTS :: 0 <= row.collector.results[k])
    && 1 <= Sum(row.collector.results) <= U53_MAX && 1 <= row.collector.duration <= 1_800_000_000_000
  }

  predicate ResultKept(a: Collector, b: Collector, i: nat)
    requires |a.results| == |b.results| == RESULTS && i < RESULTS
  {
    if i < 2 then a.results[i] <= b.results[i] else a.results[i] == b.results[i]
  }

  /** A row against any earlier one: read later, a second apart for each step between
      them, nothing reset, no failure or rejected request, and no gauge changed
      unless its counter advanced. */
  ghost predicate Follows(a: Row, b: Row, steps: nat) {
    && steps * 900_000_000 <= b.elapsed - a.elapsed <= steps * 1_100_000_000
    && Latest(a) < Earliest(b) && a.cpuUsec <= b.cpuUsec
    && a.agent.scanSuccess <= b.agent.scanSuccess && a.agent.postSuccess <= b.agent.postSuccess
    && a.agent.scanFailure == b.agent.scanFailure && a.agent.postFailure == b.agent.postFailure
    && (a.agent.scanSuccess == b.agent.scanSuccess ==>
          && a.agent.completedSeconds == b.agent.completedSeconds && a.agent.lastDuration == b.agent.lastDuration
          && a.agent.found == b.agent.found && a.agent.mapped == b.agent.mapped
          && a.agent.unmapped == b.agent.unmapped && a.agent.infrastructure == b.agent.infrastructure
          && a.agent.cachePods == b.agent.cachePods)
    && |a.collector.results| == |b.collector.results| == RESULTS
    && (forall i | 0 <= i < RESULTS :: ResultKept(a.collector, b.collector, i))
    && (a.collector.results == b.collector.results ==> a.collector.duration == b.collector.duration)
  }

  /** With whole seconds only: one scan at most, which can have completed after the
      earlier read began, and cannot have started before the epoch. */
  ghost predicate Plausible(prior: Row, row: Row) {
    var a := row.agent;
    && a.scanSuccess <= prior.agent.scanSuccess + 1
    && (a.scanSuccess != prior.agent.scanSuccess ==>
          && (exists completed :: completed / 1_000_000_000 == a.completedSeconds && Earliest(prior) <= completed)
          && (forall completed | completed / 1_000_000_000 == a.completedSeconds :: a.lastDuration <= completed))
  }

  lemma {:induction false} LegacyIsPlausible(prior: Row, row: Row)
    requires prior.agent.scanSuccess <= row.agent.scanSuccess
    ensures LegacyOk(prior, row) <==> Plausible(prior, row)
  {
    var seconds := row.agent.completedSeconds;
    assert (seconds * 1_000_000_000) / 1_000_000_000 == seconds;
    assert (seconds * 1_000_000_000 + 999_999_999) / 1_000_000_000 == seconds;
  }

  lemma {:induction false} SameSum(xs: seq<int>, ys: seq<int>)
    requires |xs| == |ys| && forall i | 0 <= i < |xs| :: xs[i] <= ys[i]
    ensures Sum(xs) <= Sum(ys)
    ensures Sum(xs) == Sum(ys) ==> xs == ys
  {
    if xs != [] {
      SameSum(xs[1..], ys[1..]);
      assert xs == [xs[0]] + xs[1..] && ys == [ys[0]] + ys[1..];
    }
  }

  lemma {:induction false} StepFollows(a: Row, b: Row)
    requires |a.collector.results| == |b.collector.results| == RESULTS
    requires CollectorOk(a.collector) && CollectorOk(b.collector)
    ensures StepOk(a, b) <==> Follows(a, b, 1)
  {
    var xs, ys := a.collector.results, b.collector.results;
    assert (forall i | 0 <= i < RESULTS :: ResultKept(a.collector, b.collector, i)) <==>
           (forall i | 0 <= i < RESULTS :: ys[i] >= xs[i]) && (forall i | 2 <= i < RESULTS :: ys[i] == xs[i]) by {
      forall i | 0 <= i < RESULTS && ResultKept(a.collector, b.collector, i)
        ensures ys[i] >= xs[i] && (i >= 2 ==> ys[i] == xs[i]) {}
    }
    if forall i | 0 <= i < RESULTS :: ys[i] >= xs[i] {
      SameSum(xs, ys);
    }
  }

  lemma {:induction false} FollowsOn(a: Row, b: Row, c: Row, m: nat, n: nat)
    requires Follows(a, b, m) && Follows(b, c, n) && Latest(b) >= Earliest(b)
    ensures Follows(a, c, m + n)
  {
    forall i | 0 <= i < RESULTS ensures ResultKept(a.collector, c.collector, i) {
      assert ResultKept(a.collector, b.collector, i) && ResultKept(b.collector, c.collector, i);
    }
    if a.collector.results == c.collector.results {
      forall i | 0 <= i < RESULTS ensures a.collector.results[i] == b.collector.results[i] {
        assert ResultKept(a.collector, b.collector, i) && ResultKept(b.collector, c.collector, i);
      }
    }
  }

  lemma {:induction false} LocalExact(first: Row, row: Row, i: nat)
    ensures RowOk(first, row, i) <==> Polled(first, row, i)
  {
    var results := row.collector.results;
    if |results| == RESULTS && forall k | 0 <= k < RESULTS :: 0 <= results[k] {
      ElementsBelowSum(results);
    }
  }

  /** No element of non-negative numbers exceeds their sum. */
  lemma {:induction false} ElementsBelowSum(xs: seq<int>)
    requires forall i | 0 <= i < |xs| :: 0 <= xs[i]
    ensures 0 <= Sum(xs) && forall i | 0 <= i < |xs| :: xs[i] <= Sum(xs)
  {
    if xs != [] {
      ElementsBelowSum(xs[1..]);
    }
  }

  lemma {:induction false} NextFollows(rows: seq<Row>, i: nat)
    requires 0 < i < |rows| && RowsAccepted(rows, |rows|)
    ensures Follows(rows[i - 1], rows[i], 1) && Earliest(rows[i - 1]) <= Latest(rows[i - 1])
  {
    assert RowAt(rows, i - 1) && RowAt(rows, i) && StepAtRow(rows, i);
    StepFollows(rows[i - 1], rows[i]);
  }

  /** In an accepted window every row follows every earlier one. */
  lemma {:induction false} AcceptedFollows(rows: seq<Row>, i: nat, j: nat)
    requires i < j < |rows| && RowsAccepted(rows, |rows|)
    ensures Follows(rows[i], rows[j], j - i)
    decreases j
  {
    NextFollows(rows, j);
    if i < j - 1 {
      AcceptedFollows(rows, i, j - 1);
      FollowsOn(rows[i], rows[j - 1], rows[j], j - 1 - i, 1);
    }
  }

  /** What explains the scans of all rows: one log, or with whole seconds only,
      a plausible scan wherever the counter advanced. */
  ghost predicate ScansExplained(rows: seq<Row>)
    requires rows != []
  {
    if rows[0].schema == 2 then exists log: seq<Entry>, polls :: PollsOf(polls, rows) && Honest(log, polls)
    else forall i | 0 < i < |rows| :: Plausible(rows[i - 1], rows[i])
  }

  /** Rows are accepted if and only if each is sound by itself, each follows every
      earlier one, and their scans can be explained. */
  lemma {:induction false} RowsExact(rows: seq<Row>)
    requires rows != []
    ensures RowsAccepted(rows, |rows|) <==>
            && (forall i | 0 <= i < |rows| :: Polled(rows[0], rows[i], i))
            && (forall i, j | 0 <= i < j < |rows| :: Follows(rows[i], rows[j], j - i))
            && ScansExplained(rows)
  {
    if RowsAccepted(rows, |rows|) {
      forall i | 0 <= i < |rows| ensures Polled(rows[0], rows[i], i) {
        assert RowAt(rows, i);
        LocalExact(rows[0], rows[i], i);
      }
      forall i, j | 0 <= i < j < |rows| ensures Follows(rows[i], rows[j], j - i) {
        AcceptedFollows(rows, i, j);
      }
      AcceptedExplained(rows);
    } else if (forall i | 0 <= i < |rows| :: Polled(rows[0], rows[i], i))
      && (forall i, j | 0 <= i < j < |rows| :: Follows(rows[i], rows[j], j - i)) && ScansExplained(rows) {
      forall i | 0 <= i < |rows| ensures RowAt(rows, i) {
        LocalExact(rows[0], rows[i], i);
        if rows[0].schema == 2 {
          ExplainedHistories(rows, i);
        }
      }
      forall i | 0 < i < |rows| ensures StepAtRow(rows, i) {
        assert RowAt(rows, i - 1) && RowAt(rows, i) && Follows(rows[i - 1], rows[i], i - (i - 1));
        StepFollows(rows[i - 1], rows[i]);
        if rows[0].schema == 2 {
          ExplainedHistories(rows, i);
        } else {
          LegacyIsPlausible(rows[i - 1], rows[i]);
        }
      }
    }
  }

  lemma {:induction false} AcceptedExplained(rows: seq<Row>)
    requires rows != [] && RowsAccepted(rows, |rows|)
    ensures ScansExplained(rows)
  {
    if rows[0].schema == 2 {
      var log := WindowLog(rows);
      AcceptedHistories(rows);
      PollsExact(ToPolls(rows), rows);
    } else {
      forall i | 0 < i < |rows| ensures Plausible(rows[i - 1], rows[i]) {
        assert StepAtRow(rows, i);
        LegacyIsPlausible(rows[i - 1], rows[i]);
      }
    }
  }

  lemma {:induction false} ExplainedHistories(rows: seq<Row>, i: nat)
    requires i < |rows| && rows[0].schema == 2 && ScansExplained(rows)
    requires forall k | 0 <= k < |rows| :: rows[k].history.Some?
    ensures HistoryValid(ToPoll(rows[i]))
    ensures i > 0 ==> Recoverable(ToPoll(rows[i - 1]), ToPoll(rows[i]))
  {
    var log: seq<Entry>, polls :| PollsOf(polls, rows) && Honest(log, polls);
    PollsExact(polls, rows);
    HonestAccepted(log, polls, i);
  }

  lemma {:induction false} HonestAccepted(log: seq<Entry>, polls: seq<Poll>, i: nat)
    requires i < |polls| && Honest(log, polls)
    ensures HistoryValid(polls[i])
    ensures i > 0 ==> Recoverable(polls[i - 1], polls[i])
  {
    HistoriesExact(polls);
    assert ValidAt(polls, i);
    assert i > 0 ==> StepAt(polls, i);
  }

  /** The window as a whole. */
  lemma {:induction false} WindowExact(rows: seq<Row>, seconds: int)
    ensures WindowAccepted(rows, seconds) <==>
            && 1 <= seconds <= 1800 && |rows| == seconds + 1 && rows[0].schema in {1, 2}
            && seconds * 1_000_000_000 <= rows[seconds].elapsed
            && (forall i | 0 <= i < |rows| :: Polled(rows[0], rows[i], i))
            && (forall i, j | 0 <= i < j < |rows| :: Follows(rows[i], rows[j], j - i))
            && ScansExplained(rows)
  {
    if rows != [] {
      RowsExact(rows);
    }
  }
}
