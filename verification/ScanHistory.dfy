/** Recovery of every new scan from a bounded history (scan_history.py). A poll
    shows only the last 32 entries of the producer's log; the checks accept a
    window exactly when one append-only log explains all of its polls. */
module ScanHistory {
  import opened Limits
  import opened Wrappers

  const RING: nat := 32

  /** The recorded result; Other is any text but the two the source knows. */
  datatype Outcome = Success | Failure | Other

  datatype Entry = Entry(sequence: int, completed: int, duration: int, result: Outcome)
  datatype Scan = Scan(pollIndex: int, duration: int, earliestStart: int, latestEnd: int)

  /** The part of one poll that concerns scans: the two counters, the two gauges
      of the latest scan, the retained history, and the wall-clock bounds of the read. */
  datatype Poll = Poll(
    index: int, success: int, failure: int, completedSeconds: int, lastDuration: int,
    history: seq<Entry>, begin: int, end: int)

  function Total(p: Poll): int {
    p.success + p.failure
  }

  function Kept(total: int): int {
    if total < RING then total else RING
  }

  /** How many of the first n entries have this result. */
  function Tally(log: seq<Entry>, n: nat, result: Outcome): nat
    requires n <= |log|
  {
    if n == 0 then 0 else Tally(log, n - 1, result) + if log[n - 1].result == result then 1 else 0
  }

  /** Completion times never decrease along the first n entries. */
  predicate Chronological(log: seq<Entry>, n: nat)
    requires n <= |log|
  {
    n < 2 || (Chronological(log, n - 1) && log[n - 2].completed <= log[n - 1].completed)
  }

  predicate WellFormed(e: Entry) {
    && 1 <= e.completed <= I64_MAX && 1 <= e.duration <= 1_800_000_000_000
    && !e.result.Other? && e.duration <= e.completed
  }

  /** The gauges describe the latest entry. */
  predicate Latest(p: Poll, e: Entry) {
    e.duration == p.lastDuration && e.completed / 1_000_000_000 == p.completedSeconds
  }

  predicate EntryOk(e: Entry, sequence: int, end: int) {
    && WellFormed(e) && e.completed <= end
    && 1 <= e.sequence <= U53_MAX && e.sequence == sequence
  }

  predicate EntryAt(p: Poll, i: nat)
    requires i < |p.history|
  {
    EntryOk(p.history[i], Total(p) - |p.history| + i + 1, p.end)
  }

  ghost predicate EntriesOk(p: Poll, n: nat)
    requires n <= |p.history|
  {
    forall i | 0 <= i < n :: EntryAt(p, i)
  }

  /** Every require of validate_history. */
  ghost predicate HistoryValid(p: Poll) {
    && 1 <= Total(p) <= U53_MAX && |p.history| == Kept(Total(p))
    && EntriesOk(p, |p.history|) && Chronological(p.history, |p.history|)
    && Tally(p.history, |p.history|, Success) <= p.success
    && Tally(p.history, |p.history|, Failure) <= p.failure
    && Latest(p, p.history[|p.history| - 1])
  }

  lemma {:induction false} ChronologicalPrefix(log: seq<Entry>, m: nat, n: nat)
    requires m <= n <= |log| && Chronological(log, n)
    ensures Chronological(log, m)
    decreases n
  {
    if m < n && n >= 2 {
      ChronologicalPrefix(log, m, n - 1);
    }
  }

  lemma {:induction false} ChronologicalPairs(log: seq<Entry>, n: nat)
    requires n <= |log|
    ensures Chronological(log, n) <==> forall i, j | 0 <= i <= j < n :: log[i].completed <= log[j].completed
  {
    if n >= 2 {
      ChronologicalPairs(log, n - 1);
      if Chronological(log, n) {
        assert log[n - 2].completed <= log[n - 1].completed;
      }
    }
  }

  method ValidateHistory(p: Poll) returns (ok: bool)
    ensures ok <==> HistoryValid(p)
  {
    var total := p.success + p.failure;
    if !(1 <= total <= U53_MAX) || |p.history| != Kept(total) {
      return false;
    }
    var completed, success, failure := 0, 0, 0;
    for index := 0 to |p.history|
      invariant EntriesOk(p, index) && Chronological(p.history, index)
      invariant completed == if index == 0 then 0 else p.history[index - 1].completed
      invariant success == Tally(p.history, index, Success) && failure == Tally(p.history, index, Failure)
    {
      var entry := p.history[index];
      if !EntryAt(p, index) {
        return false;
      }
      if entry.completed < completed {
        if Chronological(p.history, |p.history|) {
          ChronologicalPrefix(p.history, index + 1, |p.history|);
        }
        return false;
      }
      completed := entry.completed;
      if entry.result == Success {
        success := success + 1;
      } else {
        failure := failure + 1;
      }
    }
    if success > p.success || failure > p.failure {
      return false;
    }
    return Latest(p, p.history[|p.history| - 1]);
  }

  // ------------------------------------------------------------ recovery per poll

  /** Python's dictionary from sequence number to entry; a later entry wins. */
  function BySequence(history: seq<Entry>, n: nat): map<int, Entry>
    requires n <= |history|
  {
    if n == 0 then map[] else BySequence(history, n - 1)[history[n - 1].sequence := history[n - 1]]
  }

  ghost predicate Consecutive(history: seq<Entry>, base: int) {
    forall i | 0 <= i < |history| :: history[i].sequence == base + i
  }

  lemma {:induction false} BySequenceIs(history: seq<Entry>, base: int, n: nat)
    requires Consecutive(history, base) && n <= |history|
    ensures forall s :: s in BySequence(history, n) <==> base <= s < base + n
    ensures forall s | base <= s < base + n :: BySequence(history, n)[s] == history[s - base]
  {
    if n > 0 {
      BySequenceIs(history, base, n - 1);
    }
  }

  lemma {:induction false} ValidIsConsecutive(p: Poll)
    requires EntriesOk(p, |p.history|)
    ensures Consecutive(p.history, Total(p) - |p.history| + 1)
  {
    forall i | 0 <= i < |p.history| ensures p.history[i].sequence == Total(p) - |p.history| + 1 + i {
      assert EntryAt(p, i);
    }
  }

  predicate Same(e: Entry, f: Entry) {
    e.sequence == f.sequence ==> e == f
  }

  /** Entries retained by both polls are the same. */
  ghost predicate Agree(a: seq<Entry>, b: seq<Entry>) {
    forall i, j | 0 <= i < |a| && 0 <= j < |b| :: Same(a[i], b[j])
  }

  /** The entries of this poll that the previous poll had not reached. */
  function NewEntries(prior: Poll, p: Poll): seq<Entry> {
    var n := Total(p) - Total(prior);
    if 0 <= n <= |p.history| then p.history[|p.history| - n..] else []
  }

  /** Every require of history_scans, between two valid polls. */
  ghost predicate Recoverable(prior: Poll, p: Poll) {
    && Agree(prior.history, p.history)
    && Total(p) - Total(prior) <= RING
    && forall e | e in NewEntries(prior, p) :: e.result == Success && e.completed > prior.begin
  }

  function ToScan(index: int, e: Entry): Scan {
    Scan(index, e.duration, e.completed - e.duration, e.completed)
  }

  /** The scan lasted from this start to this end and was first shown by this poll. */
  predicate RanFrom(s: Scan, pollIndex: int, started: int, completed: int) {
    && s.pollIndex == pollIndex && s.earliestStart == started && s.latestEnd == completed
    && s.duration == completed - started
  }

  /** Whenever the entry's scan really started, given how long it lasted, the
      recovered scan says so. */
  ghost predicate ScanOf(s: Scan, pollIndex: int, e: Entry) {
    forall started | e.completed - started == e.duration :: RanFrom(s, pollIndex, started, e.completed)
  }

  ghost predicate ScanAt(scans: seq<Scan>, pollIndex: int, entries: seq<Entry>, i: nat) {
    i < |scans| && i < |entries| && ScanOf(scans[i], pollIndex, entries[i])
  }

  function ToScans(index: int, entries: seq<Entry>): (scans: seq<Scan>)
    ensures |scans| == |entries|
    ensures forall i | 0 <= i < |entries| :: ScanAt(scans, index, entries, i)
  {
    seq(|entries|, i requires 0 <= i < |entries| => ToScan(index, entries[i]))
  }

  ghost predicate SameValues(previous: map<int, Entry>, current: map<int, Entry>) {
    forall s | s in current && s in previous :: current[s] == previous[s]
  }

  lemma {:induction false} AgreeByMaps(a: seq<Entry>, low: int, b: seq<Entry>, base: int)
    requires Consecutive(a, low) && Consecutive(b, base)
    ensures Agree(a, b) <==> SameValues(BySequence(a, |a|), BySequence(b, |b|))
  {
    var previous, current := BySequence(a, |a|), BySequence(b, |b|);
    BySequenceIs(a, low, |a|);
    BySequenceIs(b, base, |b|);
    if Agree(a, b) {
      forall s | s in current && s in previous ensures current[s] == previous[s] {
        assert Same(a[s - low], b[s - base]);
      }
    }
    if SameValues(previous, current) {
      forall i, j | 0 <= i < |a| && 0 <= j < |b| ensures Same(a[i], b[j]) {
        if a[i].sequence == b[j].sequence {
          var s := a[i].sequence;
          assert s in previous && s in current && previous[s] == a[s - low] && current[s] == b[s - base];
        }
      }
    }
  }

  /** The dictionary holds these entries under successive numbers. */
  ghost predicate Holds(entries: map<int, Entry>, first: int, added: seq<Entry>) {
    forall i | 0 <= i < |added| :: HoldsAt(entries, first + i, added[i])
  }

  ghost predicate HoldsAt(entries: map<int, Entry>, sequence: int, e: Entry) {
    sequence in entries && entries[sequence] == e
  }

  lemma {:induction false} NewByNumber(prior: Poll, p: Poll)
    requires Consecutive(p.history, Total(p) - |p.history| + 1) && |p.history| == Kept(Total(p))
    requires 0 <= Total(prior) && 0 <= Total(p) <= Total(prior) + RING
    ensures |NewEntries(prior, p)| == if Total(prior) <= Total(p) then Total(p) - Total(prior) else 0
    ensures Holds(BySequence(p.history, |p.history|), Total(prior) + 1, NewEntries(prior, p))
  {
    BySequenceIs(p.history, Total(p) - |p.history| + 1, |p.history|);
  }

  method HistoryScans(prior: Poll, p: Poll) returns (r: Option<seq<Scan>>)
    requires HistoryValid(prior) && HistoryValid(p)
    ensures r.Some? <==> Recoverable(prior, p)
    ensures r.Some? ==> r.value == ToScans(p.index, NewEntries(prior, p))
    ensures r.Some? ==> |r.value| == if Total(prior) <= Total(p) then Total(p) - Total(prior) else 0
    ensures r.Some? ==> forall i | 0 <= i < |r.value| :: ScanAt(r.value, p.index, NewEntries(prior, p), i)
  {
    var previous := BySequence(prior.history, |prior.history|);
    var current := BySequence(p.history, |p.history|);
    ghost var base := Total(p) - |p.history| + 1;
    ValidIsConsecutive(prior);
    ValidIsConsecutive(p);
    AgreeByMaps(prior.history, Total(prior) - |prior.history| + 1, p.history, base);
    if !(forall s | s in current.Keys && s in previous.Keys :: current[s] == previous[s]) {
      assert !SameValues(previous, current);
      return None;
    }
    var first, last := Total(prior) + 1, Total(p);
    if last - first + 1 > RING {
      return None;
    }
    NewByNumber(prior, p);
    ghost var added := NewEntries(prior, p);
    AllPresent(current, first, last, added);
    if exists s | first <= s <= last :: s !in current {
      return None;
    }
    r := CollectScans(p.index, prior.begin, current, first, last, added);
  }

  lemma {:induction false} AllPresent(current: map<int, Entry>, first: int, last: int, added: seq<Entry>)
    requires |added| == if first <= last then last - first + 1 else 0
    requires Holds(current, first, added)
    ensures forall s | first <= s <= last :: s in current
  {
    forall s | first <= s <= last ensures s in current {
      assert HoldsAt(current, first + (s - first), added[s - first]);
    }
  }

  /** The final loop of history_scans. */
  method CollectScans(index: int, priorBegin: int, current: map<int, Entry>, first: int, last: int,
                      ghost added: seq<Entry>)
    returns (r: Option<seq<Scan>>)
    requires |added| == if first <= last then last - first + 1 else 0
    requires Holds(current, first, added)
    ensures r.Some? <==> forall e | e in added :: e.result == Success && e.completed > priorBegin
    ensures r.Some? ==> r.value == ToScans(index, added)
    ensures r.Some? ==> forall i | 0 <= i < |added| :: ScanAt(r.value, index, added, i)
  {
    var result: seq<Scan> := [];
    var sequence := first;
    while sequence <= last
      invariant |result| == sequence - first <= |added|
      invariant forall i | 0 <= i < |result| :: added[i].result == Success && added[i].completed > priorBegin
      invariant forall i | 0 <= i < |result| :: result[i] == ToScan(index, added[i])
    {
      assert HoldsAt(current, first + |result|, added[|result|]);
      var entry := current[sequence];
      if entry.result != Success || entry.completed <= priorBegin {
        assert entry in added;
        return None;
      }
      result := result + [Scan(index, entry.duration, entry.completed - entry.duration, entry.completed)];
      sequence := sequence + 1;
    }
    return Some(result);
  }

  // ------------------------------------------------------- the producer's log

  /** The poll shows the last entries of the log as it stood at this total. */
  ghost predicate RingView(log: seq<Entry>, p: Poll) {
    && 1 <= Total(p) <= |log| && |p.history| == (if Total(p) <= 32 then Total(p) else 32)
    && forall i | 0 <= i < |p.history| :: ViewAt(log, p, i)
  }

  ghost predicate ViewAt(log: seq<Entry>, p: Poll, i: nat)
    requires i < |p.history| <= Total(p) <= |log|
  {
    p.history[i] == log[Total(p) - |p.history| + i]
  }

  /** The gauges show how long the scan lasted, and the second in which it completed. */
  predicate GaugesOf(p: Poll, e: Entry) {
    && p.lastDuration == e.duration
    && p.completedSeconds * 1_000_000_000 <= e.completed < (p.completedSeconds + 1) * 1_000_000_000
  }

  /** The poll reports exactly the log's first total entries. */
  ghost predicate Reports(log: seq<Entry>, p: Poll) {
    && RingView(log, p)
    && Tally(log, Total(p), Success) == p.success && Tally(log, Total(p), Failure) == p.failure
    && GaugesOf(p, log[Total(p) - 1])
    && (forall i, j | 0 <= i <= j < |p.history| :: p.history[i].completed <= p.history[j].completed)
    && forall i | 0 <= i < |p.history| :: p.history[i].completed <= p.end
  }

  /** A scan of at most half an hour, from some time after the epoch to a later one. */
  predicate Scanned(e: Entry) {
    && 0 <= e.completed - e.duration < e.completed <= I64_MAX && e.duration <= 1_800_000_000_000
    && (e.result == Success || e.result == Failure)
  }

  ghost predicate Numbered(log: seq<Entry>) {
    && |log| <= U53_MAX
    && forall i | 0 <= i < |log| :: Scanned(log[i]) && log[i].sequence == i + 1
  }

  /** Between two polls at most 32 scans completed, all of them successfully and
      after the earlier read began. */
  ghost predicate Progress(log: seq<Entry>, prior: Poll, p: Poll) {
    && 0 <= Total(prior) <= Total(p) <= Total(prior) + 32 && Total(p) <= |log|
    && forall j | Total(prior) <= j < Total(p) :: log[j].result == Success && log[j].completed > prior.begin
  }

  ghost predicate ProgressAt(log: seq<Entry>, polls: seq<Poll>, i: nat)
    requires 0 < i < |polls|
  {
    Progress(log, polls[i - 1], polls[i])
  }

  /** One append-only log that explains every poll. */
  ghost predicate ReportsAt(log: seq<Entry>, polls: seq<Poll>, i: nat) {
    i < |polls| && Reports(log, polls[i])
  }

  ghost predicate Honest(log: seq<Entry>, polls: seq<Poll>) {
    && polls != [] && Numbered(log) && |log| == Total(polls[|polls| - 1])
    && (forall i | 0 <= i < |polls| :: ReportsAt(log, polls, i))
    && (forall i | 0 < i < |polls| :: ProgressAt(log, polls, i))
  }

  /** The source's counter requires between polls, with those of history_scans. */
  ghost predicate StepAccepted(prior: Poll, p: Poll) {
    prior.success <= p.success && prior.failure == p.failure && Recoverable(prior, p)
  }

  ghost predicate StepAt(polls: seq<Poll>, i: nat)
    requires 0 < i < |polls|
  {
    StepAccepted(polls[i - 1], polls[i])
  }

  ghost predicate ValidAt(polls: seq<Poll>, i: nat) {
    i < |polls| && HistoryValid(polls[i])
  }

  ghost predicate HistoriesAccepted(polls: seq<Poll>) {
    && polls != []
    && (forall i | 0 <= i < |polls| :: ValidAt(polls, i))
    && (forall i | 0 < i < |polls| :: StepAt(polls, i))
  }

  // ------------------------------------------------------------ counting results

  /** The count depends only on the entries counted. */
  lemma {:induction false} TallySame(a: seq<Entry>, b: seq<Entry>, shift: nat, n: nat, result: Outcome)
    requires n <= |a| && shift + n <= |b|
    requires forall i | 0 <= i < n :: a[i] == b[shift + i]
    ensures Tally(a, n, result) == Tally(b, shift + n, result) - Tally(b, shift, result)
  {
    if n > 0 {
      TallySame(a, b, shift, n - 1, result);
      assert a[n - 1] == b[shift + (n - 1)];
    }
  }

  lemma {:induction false} TallyPrefix(log: seq<Entry>, more: seq<Entry>, n: nat, result: Outcome)
    requires n <= |log|
    ensures Tally(log + more, n, result) == Tally(log, n, result)
  {
    if n > 0 {
      TallyPrefix(log, more, n - 1, result);
    }
  }

  /** Well-formed entries are successes or failures and nothing else. */
  lemma {:induction false} TallyAll(log: seq<Entry>, n: nat)
    requires n <= |log| && forall i | 0 <= i < n :: !log[i].result.Other?
    ensures Tally(log, n, Success) + Tally(log, n, Failure) == n
  {
    if n > 0 {
      TallyAll(log, n - 1);
    }
  }

  lemma {:induction false} TallySuccesses(log: seq<Entry>, m: nat, n: nat)
    requires m <= n <= |log| && forall i | m <= i < n :: log[i].result == Success
    ensures Tally(log, n, Success) == Tally(log, m, Success) + n - m
    ensures Tally(log, n, Failure) == Tally(log, m, Failure)
    decreases n
  {
    if m < n {
      TallySuccesses(log, m, n - 1);
    }
  }

  // --------------------------------------------------- accepted polls have a log

  function Fillers(success: nat, failure: nat): (log: seq<Entry>)
    ensures |log| == success + failure
  {
    seq(success + failure, i requires 0 <= i < success + failure =>
      Entry(i + 1, 1, 1, if i < success then Success else Failure))
  }

  lemma {:induction false} FillersTally(log: seq<Entry>, success: nat, failure: nat, n: nat)
    requires n <= success + failure <= |log|
    requires forall i | 0 <= i < success + failure :: log[i] == Fillers(success, failure)[i]
    ensures Tally(log, n, Success) == if n < success then n else success
    ensures Tally(log, n, Failure) == if n < success then 0 else n - success
  {
    if n > 0 {
      FillersTally(log, success, failure, n - 1);
    }
  }

  lemma {:induction false} TallySuffix(front: seq<Entry>, back: seq<Entry>, n: nat, result: Outcome)
    requires n <= |back|
    ensures Tally(front + back, |front| + n, result) == Tally(front + back, |front|, result) + Tally(back, n, result)
  {
    if n > 0 {
      TallySuffix(front, back, n - 1, result);
      assert (front + back)[|front| + n - 1] == back[n - 1];
    }
  }

  lemma {:induction false} FirstLog(p: Poll) returns (log: seq<Entry>)
    requires HistoryValid(p)
    ensures Numbered(log) && |log| == Total(p) && Reports(log, p)
  {
    ChronologicalPairs(p.history, |p.history|);
    var k := |p.history|;
    ValidEntries(p);
    TallyAll(p.history, k);
    var s, f := p.success - Tally(p.history, k, Success), p.failure - Tally(p.history, k, Failure);
    var front := Fillers(s, f);
    log := front + p.history;
    assert Numbered(front);
    NumberedConcat(front, p.history);
    FirstTally(p, s, f);
    assert forall i | 0 <= i < k :: ViewAt(log, p, i);
    assert ViewAt(log, p, k - 1);
  }

  lemma {:induction false} FirstTally(p: Poll, success: nat, failure: nat)
    ensures var log := Fillers(success, failure) + p.history;
            && Tally(log, |log|, Success) == success + Tally(p.history, |p.history|, Success)
            && Tally(log, |log|, Failure) == failure + Tally(p.history, |p.history|, Failure)
  {
    var front := Fillers(success, failure);
    FillersTally(front + p.history, success, failure, success + failure);
    TallySuffix(front, p.history, |p.history|, Success);
    TallySuffix(front, p.history, |p.history|, Failure);
  }

  lemma {:induction false} ValidEntries(p: Poll)
    requires EntriesOk(p, |p.history|)
    ensures forall i | 0 <= i < |p.history| ::
              && WellFormed(p.history[i]) && p.history[i].completed <= p.end
              && p.history[i].sequence == Total(p) - |p.history| + i + 1
  {
    forall i | 0 <= i < |p.history|
      ensures WellFormed(p.history[i]) && p.history[i].completed <= p.end
              && p.history[i].sequence == Total(p) - |p.history| + i + 1
    {
      assert EntryAt(p, i);
    }
  }

  lemma {:induction false} NewEntriesAt(prior: Poll, p: Poll)
    requires |p.history| == Kept(Total(p)) && 0 <= Total(prior) <= Total(p) <= Total(prior) + RING
    ensures var more := NewEntries(prior, p);
            && |more| == Total(p) - Total(prior)
            && forall i | 0 <= i < |more| :: more[i] == p.history[|p.history| - |more| + i] && more[i] in more
  {}

  /** One of the new entries of an accepted step. */
  ghost predicate NewAt(prior: Poll, p: Poll, more: seq<Entry>, i: nat) {
    && i < |more| <= |p.history| && more[i] == p.history[|p.history| - |more| + i]
    && more[i].result == Success && more[i].completed > prior.begin
    && WellFormed(more[i]) && more[i].sequence == Total(prior) + i + 1
  }

  /** What the new entries of an accepted step are. */
  lemma {:induction false} NewEntriesAre(prior: Poll, p: Poll)
    requires |p.history| == Kept(Total(p)) && EntriesOk(p, |p.history|) && Recoverable(prior, p)
    requires 0 <= Total(prior) <= Total(p)
    ensures |NewEntries(prior, p)| == Total(p) - Total(prior)
    ensures forall i | 0 <= i < |NewEntries(prior, p)| :: NewAt(prior, p, NewEntries(prior, p), i)
  {
    NewEntriesAt(prior, p);
    ValidEntries(p);
  }

  /** The view of the grown log agrees with what the poll shows. */
  lemma {:induction false} GrownView(log: seq<Entry>, prior: Poll, p: Poll, more: seq<Entry>)
    requires RingView(log, prior) && |log| == Total(prior) && Total(p) == |log| + |more|
    requires |more| <= RING && |p.history| == Kept(Total(p)) && Agree(prior.history, p.history)
    requires Consecutive(prior.history, Total(prior) - |prior.history| + 1)
    requires Consecutive(p.history, Total(p) - |p.history| + 1)
    requires forall i | 0 <= i < |more| :: more[i] == p.history[|p.history| - |more| + i]
    ensures RingView(log + more, p)
  {
    var n, k := Total(p), |p.history|;
    forall i | 0 <= i < k ensures ViewAt(log + more, p, i) {
      var at := n - k + i;
      if at < |log| {
        var j := at - (|log| - |prior.history|);
        assert Same(prior.history[j], p.history[i]) && ViewAt(log, prior, j);
      } else {
        assert more[at - |log|] == p.history[k - |more| + (at - |log|)];
      }
    }
  }

  lemma {:induction false} NumberedConcat(log: seq<Entry>, more: seq<Entry>)
    requires Numbered(log) && |log| + |more| <= U53_MAX
    requires forall i | 0 <= i < |more| :: WellFormed(more[i]) && more[i].sequence == |log| + i + 1
    ensures Numbered(log + more)
  {
    var all := log + more;
    forall i | 0 <= i < |all| ensures WellFormed(all[i]) && all[i].sequence == i + 1 {
      if i >= |log| {
        assert all[i] == more[i - |log|];
      }
    }
  }

  lemma {:induction false} GrownReports(log: seq<Entry>, more: seq<Entry>, prior: Poll, p: Poll)
    requires |log| == Total(prior) && Reports(log, prior) && prior.failure == p.failure
    requires HistoryValid(p) && RingView(log + more, p) && |log + more| == Total(p)
    requires forall i | 0 <= i < |more| :: more[i].result == Success
    ensures Reports(log + more, p)
  {
    ChronologicalPairs(p.history, |p.history|);
    var all := log + more;
    TallyPrefix(log, more, |log|, Success);
    TallyPrefix(log, more, |log|, Failure);
    TallySuccesses(all, |log|, |all|);
    assert ViewAt(all, p, |p.history| - 1);
    forall i | 0 <= i < |p.history| ensures p.history[i].completed <= p.end {
      assert EntryAt(p, i);
    }
  }

  /** A log that explains the polls so far grows by the new entries. */
  lemma {:induction false} GrowLog(log: seq<Entry>, prior: Poll, p: Poll) returns (more: seq<Entry>)
    requires Numbered(log) && |log| == Total(prior) && Reports(log, prior) && HistoryValid(prior)
    requires HistoryValid(p) && StepAccepted(prior, p)
    ensures Numbered(log + more) && |log + more| == Total(p)
    ensures Reports(log + more, p) && Progress(log + more, prior, p)
  {
    more := NewEntries(prior, p);
    NewEntriesAre(prior, p);
    forall i | 0 <= i < |more|
      ensures more[i] == p.history[|p.history| - |more| + i] && WellFormed(more[i]) && more[i].sequence == |log| + i + 1
      ensures more[i].result == Success && more[i].completed > prior.begin
    {
      assert NewAt(prior, p, more, i);
    }
    assert Numbered(log + more) by {
      NumberedConcat(log, more);
    }
    assert RingView(log + more, p) by {
      ValidIsConsecutive(prior);
      ValidIsConsecutive(p);
      GrownView(log, prior, p, more);
    }
    assert Reports(log + more, p) by {
      GrownReports(log, more, prior, p);
    }
    assert Progress(log + more, prior, p) by {
      GrownProgress(log, more, prior, p);
    }
  }

  lemma {:induction false} GrownProgress(log: seq<Entry>, more: seq<Entry>, prior: Poll, p: Poll)
    requires |log| == Total(prior) && |log| + |more| == Total(p) && |more| <= RING
    requires forall i | 0 <= i < |more| :: more[i].result == Success && more[i].completed > prior.begin
    ensures Progress(log + more, prior, p)
  {
    var all := log + more;
    forall j | Total(prior) <= j < Total(p) ensures all[j].result == Success && all[j].completed > prior.begin {
      assert all[j] == more[j - |log|];
    }
  }

  lemma {:induction false} ReportsExtended(log: seq<Entry>, more: seq<Entry>, p: Poll)
    requires Reports(log, p)
    ensures Reports(log + more, p)
  {
    TallyPrefix(log, more, Total(p), Success);
    TallyPrefix(log, more, Total(p), Failure);
    forall i | 0 <= i < |p.history| ensures ViewAt(log + more, p, i) {
      assert ViewAt(log, p, i);
    }
  }

  lemma {:induction false} HonestExtended(log: seq<Entry>, more: seq<Entry>, polls: seq<Poll>)
    requires |polls| > 1 && Honest(log, polls[..|polls| - 1]) && Numbered(log + more)
    requires |log + more| == Total(polls[|polls| - 1]) && Reports(log + more, polls[|polls| - 1])
    requires ProgressAt(log + more, polls, |polls| - 1)
    ensures Honest(log + more, polls)
  {
    var n, before := |polls| - 1, polls[..|polls| - 1];
    forall i | 0 <= i < |polls| ensures ReportsAt(log + more, polls, i) {
      if i < n {
        assert ReportsAt(log, before, i);
        ReportsExtended(log, more, before[i]);
      }
    }
    forall i | 0 < i < |polls| ensures ProgressAt(log + more, polls, i) {
      if i < n {
        assert ProgressAt(log, before, i);
      }
    }
  }

  lemma {:induction false} AcceptedPrefix(polls: seq<Poll>)
    requires HistoriesAccepted(polls) && |polls| > 1
    ensures HistoriesAccepted(polls[..|polls| - 1])
  {
    var shown := polls[..|polls| - 1];
    forall i | 0 <= i < |shown| ensures ValidAt(shown, i) {
      assert ValidAt(polls, i);
    }
    forall i | 0 < i < |shown| ensures StepAt(shown, i) {
      assert StepAt(polls, i);
    }
  }

  lemma {:induction false} LastStep(log: seq<Entry>, polls: seq<Poll>) returns (prior: Poll, p: Poll)
    requires HistoriesAccepted(polls) && |polls| > 1 && Honest(log, polls[..|polls| - 1])
    ensures prior == polls[|polls| - 2] && p == polls[|polls| - 1]
    ensures Numbered(log) && |log| == Total(prior) && Reports(log, prior)
    ensures HistoryValid(prior) && HistoryValid(p) && StepAccepted(prior, p)
  {
    prior, p := polls[|polls| - 2], polls[|polls| - 1];
    var shown := polls[..|polls| - 1];
    assert shown[|shown| - 1] == prior && StepAt(polls, |polls| - 1);
    assert ReportsAt(log, shown, |shown| - 1) && ValidAt(polls, |polls| - 2) && ValidAt(polls, |polls| - 1);
  }

  lemma {:induction false} BuildLog(polls: seq<Poll>) returns (log: seq<Entry>)
    requires HistoriesAccepted(polls)
    ensures Honest(log, polls)
  {
    var n := |polls| - 1;
    if n == 0 {
      assert ValidAt(polls, 0);
      log := FirstLog(polls[0]);
    } else {
      AcceptedPrefix(polls);
      var before := BuildLog(polls[..n]);
      var prior, p := LastStep(before, polls);
      var more := GrowLog(before, prior, p);
      log := before + more;
      HonestExtended(before, more, polls);
    }
  }

  // ------------------------------------------------- a log makes accepted polls

  lemma {:induction false} ReportsEntries(log: seq<Entry>, p: Poll, i: nat)
    requires Numbered(log) && Reports(log, p) && i < |p.history|
    ensures EntryAt(p, i) && p.history[i] == log[Total(p) - |p.history| + i]
  {
    assert ViewAt(log, p, i);
  }

  lemma {:induction false} ReportsTallies(log: seq<Entry>, p: Poll)
    requires Reports(log, p)
    ensures Tally(p.history, |p.history|, Success) <= p.success && Tally(p.history, |p.history|, Failure) <= p.failure
  {
    var n, k := Total(p), |p.history|;
    forall i | 0 <= i < k ensures p.history[i] == log[n - k + i] {
      assert ViewAt(log, p, i);
    }
    TallySame(p.history, log, n - k, k, Success);
    TallySame(p.history, log, n - k, k, Failure);
  }

  lemma {:induction false} ReportsValid(log: seq<Entry>, p: Poll)
    requires Numbered(log) && Reports(log, p)
    ensures HistoryValid(p)
  {
    ChronologicalPairs(p.history, |p.history|);
    ReportsTallies(log, p);
    forall i | 0 <= i < |p.history| ensures EntryAt(p, i) {
      ReportsEntries(log, p, i);
    }
    ReportsEntries(log, p, |p.history| - 1);
  }

  /** The entries a poll adds are the log's entries between the two totals. */
  lemma {:induction false} RingNew(log: seq<Entry>, prior: Poll, p: Poll)
    requires RingView(log, p) && 0 <= Total(prior) <= Total(p) <= Total(prior) + RING
    ensures NewEntries(prior, p) == log[Total(prior)..Total(p)]
  {
    var more := NewEntries(prior, p);
    var skip := |p.history| - |more|;
    forall i | 0 <= i < |more| ensures more[i] == log[Total(prior) + i] {
      assert ViewAt(log, p, skip + i);
    }
  }

  lemma {:induction false} ProgressAccepted(log: seq<Entry>, prior: Poll, p: Poll)
    requires Numbered(log) && Reports(log, prior) && Reports(log, p) && Progress(log, prior, p)
    ensures StepAccepted(prior, p)
  {
    TallySuccesses(log, Total(prior), Total(p));
    ViewsAgree(log, prior, p);
    ProgressRecoverable(log, prior, p);
  }

  /** Two views of one numbered log cannot disagree. */
  lemma {:induction false} ViewsAgree(log: seq<Entry>, prior: Poll, p: Poll)
    requires Numbered(log) && RingView(log, prior) && RingView(log, p)
    ensures Agree(prior.history, p.history)
  {
    forall i, j | 0 <= i < |prior.history| && 0 <= j < |p.history| ensures Same(prior.history[i], p.history[j]) {
      assert ViewAt(log, prior, i) && ViewAt(log, p, j);
    }
  }

  lemma {:induction false} ProgressRecoverable(log: seq<Entry>, prior: Poll, p: Poll)
    requires RingView(log, p) && Progress(log, prior, p)
    ensures forall e | e in NewEntries(prior, p) :: e.result == Success && e.completed > prior.begin
  {
    RingNew(log, prior, p);
    forall e | e in NewEntries(prior, p) ensures e.result == Success && e.completed > prior.begin {
      var i :| 0 <= i < Total(p) - Total(prior) && log[Total(prior)..Total(p)][i] == e;
      assert log[Total(prior) + i] == e;
    }
  }

  /** The history checks accept a window of polls exactly when one append-only
      log of scans explains all of them: every view, both counters and both
      gauges, with no scan overwritten between two polls. */
  lemma {:induction false} HistoriesExact(polls: seq<Poll>)
    ensures HistoriesAccepted(polls) <==> exists log: seq<Entry> :: Honest(log, polls)
  {
    if HistoriesAccepted(polls) {
      var log := BuildLog(polls);
    }
    if exists log: seq<Entry> :: Honest(log, polls) {
      var log: seq<Entry> :| Honest(log, polls);
      forall i | 0 <= i < |polls| ensures ValidAt(polls, i) {
        assert ReportsAt(log, polls, i);
        ReportsValid(log, polls[i]);
      }
      forall i | 0 < i < |polls| ensures StepAt(polls, i) {
        assert ReportsAt(log, polls, i - 1) && ReportsAt(log, polls, i) && ProgressAt(log, polls, i);
        ProgressAccepted(log, polls[i - 1], polls[i]);
      }
    }
  }

  // ------------------------------------------------------- recovery of the log

  /** What the window's loop collects from its first n polls. */
  function Recovered(polls: seq<Poll>, n: nat): seq<Scan>
    requires n <= |polls|
  {
    if n <= 1 then []
    else Recovered(polls, n - 1) + ToScans(polls[n - 1].index, NewEntries(polls[n - 2], polls[n - 1]))
  }

  /** The scans that poll i contributes are the log's entries completed since
      the poll before, in order, with the times at which they really ran. */
  ghost predicate Piece(scans: seq<Scan>, log: seq<Entry>, polls: seq<Poll>, i: nat)
    requires 0 < i < |polls|
  {
    var a, b, c := Total(polls[0]), Total(polls[i - 1]), Total(polls[i]);
    && 0 <= a <= b <= c <= |log| && c - a <= |scans|
    && forall j | b <= j < c :: ScanOf(scans[j - a], polls[i].index, log[j])
  }

  /** What poll i adds is the log between the two totals. */
  ghost predicate Linked(polls: seq<Poll>, log: seq<Entry>, i: nat)
    requires 0 < i < |polls|
  {
    var b, c := Total(polls[i - 1]), Total(polls[i]);
    && 0 <= b <= c <= |log| && NewEntries(polls[i - 1], polls[i]) == log[b..c]
    && c - b == polls[i].success - polls[i - 1].success
  }

  lemma {:induction false} RecoveredLength(polls: seq<Poll>, log: seq<Entry>, n: nat)
    requires 0 < n <= |polls| && forall i | 0 < i < n :: Linked(polls, log, i)
    ensures |Recovered(polls, n)| == Total(polls[n - 1]) - Total(polls[0]) == polls[n - 1].success - polls[0].success
  {
    if n > 1 {
      RecoveredLength(polls, log, n - 1);
      assert Linked(polls, log, n - 1);
    }
  }

  lemma {:induction false} RecoveredPieces(polls: seq<Poll>, log: seq<Entry>, n: nat)
    requires 0 < n <= |polls| && forall i | 0 < i < n :: Linked(polls, log, i)
    requires 0 <= Total(polls[0])
    ensures forall i | 0 < i < n :: Piece(Recovered(polls, n), log, polls, i)
  {
    if n > 1 {
      RecoveredPieces(polls, log, n - 1);
      RecoveredLength(polls, log, n - 1);
      assert Linked(polls, log, n - 1);
      forall i | 0 < i < n ensures Piece(Recovered(polls, n), log, polls, i) {
        if i < n - 1 {
          assert Piece(Recovered(polls, n - 1), log, polls, i);
          PieceKept(polls, log, n, i);
        } else {
          LastPiece(polls, log, n);
        }
      }
    }
  }

  lemma {:induction false} PieceKept(polls: seq<Poll>, log: seq<Entry>, n: nat, i: nat)
    requires 0 < i < n - 1 < |polls| && Piece(Recovered(polls, n - 1), log, polls, i)
    ensures Piece(Recovered(polls, n), log, polls, i)
  {
    assert Recovered(polls, n - 1) <= Recovered(polls, n);
  }

  lemma {:induction false} LastPiece(polls: seq<Poll>, log: seq<Entry>, n: nat)
    requires 1 < n <= |polls|
    requires var a, b, c := Total(polls[0]), Total(polls[n - 2]), Total(polls[n - 1]);
             && 0 <= a <= b <= c <= |log| && |Recovered(polls, n - 1)| == b - a
             && NewEntries(polls[n - 2], polls[n - 1]) == log[b..c]
    ensures Piece(Recovered(polls, n), log, polls, n - 1)
  {}

  lemma {:induction false} AcceptedLinked(polls: seq<Poll>, log: seq<Entry>, i: nat)
    requires 0 < i < |polls| && StepAt(polls, i)
    requires RingView(log, polls[i - 1]) && RingView(log, polls[i])
    ensures Linked(polls, log, i)
  {
    RingNew(log, polls[i - 1], polls[i]);
  }

  /** Every poll shows the last entries of this log as it then stood. */
  ghost predicate Shows(log: seq<Entry>, polls: seq<Poll>) {
    forall i | 0 <= i < |polls| :: ShowsAt(log, polls, i)
  }

  ghost predicate ShowsAt(log: seq<Entry>, polls: seq<Poll>, i: nat) {
    i < |polls| && RingView(log, polls[i])
  }

  /** The scans are the log's entries between the first and the last total, in
      order, each once. */
  ghost predicate ScansOf(scans: seq<Scan>, log: seq<Entry>, polls: seq<Poll>)
    requires polls != []
  {
    && |scans| == Total(polls[|polls| - 1]) - Total(polls[0])
    && forall i | 0 < i < |polls| :: Piece(scans, log, polls, i)
  }

  /** For any log of which every poll shows the last entries, the scans of an
      accepted window are exactly the log's entries between the first and the
      last total, in order, each once. */
  lemma {:induction false} RecoveredIsLog(polls: seq<Poll>, log: seq<Entry>)
    requires HistoriesAccepted(polls) && Shows(log, polls)
    ensures ScansOf(Recovered(polls, |polls|), log, polls)
    ensures |Recovered(polls, |polls|)| == polls[|polls| - 1].success - polls[0].success
  {
    forall i | 0 < i < |polls| ensures Linked(polls, log, i) {
      assert StepAt(polls, i) && ShowsAt(log, polls, i - 1) && ShowsAt(log, polls, i);
      AcceptedLinked(polls, log, i);
    }
    assert ShowsAt(log, polls, 0);
    RecoveredLength(polls, log, |polls|);
    RecoveredPieces(polls, log, |polls|);
  }

  lemma {:induction false} HonestShows(log: seq<Entry>, polls: seq<Poll>)
    requires Honest(log, polls)
    ensures Shows(log, polls)
  {
    forall i | 0 <= i < |polls| ensures ShowsAt(log, polls, i) {
      assert ReportsAt(log, polls, i);
    }
  }

  lemma {:induction false} RecoveredCount(polls: seq<Poll>)
    requires HistoriesAccepted(polls)
    ensures |Recovered(polls, |polls|)| == polls[|polls| - 1].success - polls[0].success
  {
    HistoriesExact(polls);
    var log: seq<Entry> :| Honest(log, polls);
    HonestShows(log, polls);
    RecoveredIsLog(polls, log);
  }
}
