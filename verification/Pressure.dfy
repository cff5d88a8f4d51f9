/** Two-sided bounds on a traced producer's reads (pressure_metrics.py and
    pressure_replay.py): an honest session is never outside them. */
module Pressure {
  import opened Limits
  import opened Wrappers
  import opened Activity

  const MARGIN: nat := 5_000_000

  datatype Header = Header(wall: int, before: int, after: int)
  datatype Interval = Interval(
    started: int, ended: int, readCalls: int, readBytes: int, wall: int, clockAfter: int)
  datatype Producer = Producer(header: Header, intervals: seq<Interval>)

  /** Earliest and latest wall times of an interval's start and of its end. */
  datatype Bounds = Bounds(startLow: int, startHigh: int, endLow: int, endHigh: int)

  // ------------------------------------------------------------ enclosing instants

  /** Boundary k ends interval k - 1 and starts interval k. */
  function Low(p: Producer, k: nat): int
    requires k <= |p.intervals|
  {
    if k == 0 then p.header.wall - MARGIN
    else p.intervals[k - 1].wall - (p.intervals[k - 1].clockAfter - p.intervals[k - 1].ended) - MARGIN
  }

  function High(p: Producer, k: nat): int
    requires k <= |p.intervals|
  {
    if k == 0 then p.header.wall + p.header.after - p.header.before + MARGIN
    else p.intervals[k - 1].wall + MARGIN
  }

  function BoundsAt(p: Producer, i: nat): Bounds
    requires i < |p.intervals|
  {
    Bounds(Low(p, i), High(p, i), Low(p, i + 1), High(p, i + 1))
  }

  function AllBounds(p: Producer): (spans: seq<Bounds>)
    ensures |spans| == |p.intervals|
  {
    seq(|p.intervals|, i requires 0 <= i < |p.intervals| => BoundsAt(p, i))
  }

  method Boundaries(p: Producer) returns (spans: seq<Bounds>)
    ensures spans == AllBounds(p)
  {
    var low := p.header.wall - MARGIN;
    var high := p.header.wall + p.header.after - p.header.before + MARGIN;
    spans := [];
    for index := 0 to |p.intervals|
      invariant low == Low(p, index) && high == High(p, index)
      invariant |spans| == index && forall i | 0 <= i < index :: spans[i] == BoundsAt(p, i)
    {
      var row := p.intervals[index];
      var endHigh := row.wall + MARGIN;
      var endLow := row.wall - (row.clockAfter - row.ended) - MARGIN;
      spans := spans + [Bounds(low, high, endLow, endHigh)];
      low, high := endLow, endHigh;
    }
  }

  /** The monotonic instant of boundary k. */
  function Instant(p: Producer, k: nat): int
    requires k <= |p.intervals|
  {
    if k == 0 then p.header.after else p.intervals[k - 1].ended
  }

  /** The wall clock, as a function of the monotonic one, drifts by at most the
      margin between an instant and the reading that dates it. */
  ghost predicate Steady(clock: int -> int, a: int, b: int) {
    -5_000_000 <= clock(a) - clock(b) - (a - b) <= 5_000_000
  }

  /** If each wall reading happened between its two monotonic readings, the true
      wall time of every boundary lies in its enclosure. */
  lemma {:induction false} BoundariesEnclose(p: Producer, clock: int -> int, reading: nat -> int, k: nat)
    requires k <= |p.intervals|
    requires k == 0 ==> p.header.before <= reading(0) <= p.header.after && clock(reading(0)) == p.header.wall
    requires k > 0 ==> p.intervals[k - 1].ended <= reading(k) <= p.intervals[k - 1].clockAfter
                       && clock(reading(k)) == p.intervals[k - 1].wall
    requires Steady(clock, Instant(p, k), reading(k))
    ensures Low(p, k) <= clock(Instant(p, k)) <= High(p, k)
  {}

  /** The monotonic readings between which boundary k was dated, and the date. */
  ghost predicate DatedBy(p: Producer, k: nat, reading: int)
    requires k <= |p.intervals|
  {
    if k == 0 then p.header.before <= reading <= p.header.after
    else p.intervals[k - 1].ended <= reading <= p.intervals[k - 1].clockAfter
  }

  function DateOf(p: Producer, k: nat): int
    requires k <= |p.intervals|
  {
    if k == 0 then p.header.wall else p.intervals[k - 1].wall
  }

  ghost predicate Enclosed(p: Producer, k: nat, time: int)
    requires k <= |p.intervals|
  {
    Low(p, k) <= time <= High(p, k)
  }

  /** The enclosure holds exactly the wall times that the boundary can have had, if
      its date was read at some instant between the two readings and the clocks
      drifted by at most five milliseconds in between. */
  lemma {:induction false} EnclosureExact(p: Producer, k: nat, time: int)
    requires ValidProducer(p) && k <= |p.intervals|
    ensures Enclosed(p, k, time) <==> exists reading ::
              DatedBy(p, k, reading) && -5_000_000 <= (time - DateOf(p, k)) - (Instant(p, k) - reading) <= 5_000_000
  {
    if k > 0 {
      assert IntervalOk(p, k - 1);
    }
    if Enclosed(p, k, time) {
      var exact := Instant(p, k) - (time - DateOf(p, k));
      var first := if k == 0 then p.header.before else p.intervals[k - 1].ended;
      var last := if k == 0 then p.header.after else p.intervals[k - 1].clockAfter;
      var reading := if exact < first then first else if last < exact then last else exact;
      assert DatedBy(p, k, reading);
    }
  }

  // --------------------------------------------------------- what a stream promises

  predicate HeaderOk(h: Header) {
    0 < h.before <= h.after <= h.before + 1_000_000 && h.wall > 0
  }

  /** The clock requires of the producer's own validation on one interval. */
  predicate IntervalOk(p: Producer, i: nat)
    requires i < |p.intervals|
  {
    var row, due := p.intervals[i], p.header.after + (i + 1) * 1_000_000_000;
    && row.started == Instant(p, i) && due <= row.ended <= due + 100_000_000
    && row.readCalls > 0 && row.readBytes == row.readCalls * 64
    && row.ended <= row.clockAfter <= row.ended + 5_000_000
    && row.wall - row.clockAfter <= p.header.wall - p.header.before + 5_000_000
    && row.wall - row.ended >= p.header.wall - p.header.after - 5_000_000
  }

  ghost predicate ValidProducer(p: Producer) {
    HeaderOk(p.header) && forall i | 0 <= i < |p.intervals| :: IntervalOk(p, i)
  }

  const BATCH: nat := 4096
  const MAX_READS: nat := 20_000_000_000

  predicate Counter(x: int) {
    0 <= x <= I64_MAX
  }

  predicate HeaderFits(h: Header) {
    Counter(h.wall) && Counter(h.before) && Counter(h.after)
  }

  /** The requires on one interval that the clocks do not depend on. */
  predicate BatchOk(row: Interval) {
    && Counter(row.started) && Counter(row.ended) && Counter(row.readCalls) && Counter(row.readBytes)
    && Counter(row.wall) && Counter(row.clockAfter)
    && row.readCalls % BATCH == 0 && row.wall > 0
  }

  predicate RowAccepted(p: Producer, i: nat) {
    i < |p.intervals| && IntervalOk(p, i) && BatchOk(p.intervals[i])
  }

  /** Read calls of the first n intervals. */
  function TotalReads(p: Producer, n: nat): int
    requires n <= |p.intervals|
  {
    if n == 0 then 0 else TotalReads(p, n - 1) + p.intervals[n - 1].readCalls
  }

  /** Every require of validate_pressure on the decoded stream. */
  ghost predicate StreamOk(p: Producer, seconds: int) {
    && 1 <= seconds <= 1800 && |p.intervals| == seconds
    && HeaderFits(p.header) && HeaderOk(p.header)
    && (forall i | 0 <= i < |p.intervals| :: RowAccepted(p, i))
    && TotalReads(p, |p.intervals|) <= MAX_READS
  }

  lemma {:induction false} StreamIsValid(p: Producer, seconds: int)
    requires StreamOk(p, seconds)
    ensures ValidProducer(p) && p.intervals != []
  {
    forall i | 0 <= i < |p.intervals| ensures IntervalOk(p, i) {
      assert RowAccepted(p, i);
    }
  }

  lemma {:induction false} TotalGrows(p: Producer, n: nat, m: nat)
    requires n <= m <= |p.intervals| && forall i | 0 <= i < |p.intervals| :: RowAccepted(p, i)
    ensures TotalReads(p, n) <= TotalReads(p, m)
  {
    if n < m {
      TotalGrows(p, n, m - 1);
      assert RowAccepted(p, m - 1);
    }
  }

  /** validate_pressure on the decoded stream. */
  method ValidatePressure(p: Producer, seconds: int) returns (ok: bool)
    ensures ok <==> StreamOk(p, seconds)
  {
    if !(1 <= seconds <= 1800) || |p.intervals| != seconds || !HeaderFits(p.header) || !HeaderOk(p.header) {
      return false;
    }
    var previous, total := p.header.after, 0;
    for index := 0 to |p.intervals|
      invariant previous == Instant(p, index) && total == TotalReads(p, index)
      invariant forall i | 0 <= i < index :: RowAccepted(p, i)
      invariant total <= MAX_READS
    {
      var row, due := p.intervals[index], p.header.after + (index + 1) * 1_000_000_000;
      assert RowAccepted(p, index) <==> IntervalOk(p, index) && BatchOk(row);
      if !BatchOk(row) || row.started != previous || !(due <= row.ended <= due + 100_000_000)
         || row.readCalls <= 0 || row.readBytes != row.readCalls * 64
         || !(row.ended <= row.clockAfter <= row.ended + 5_000_000)
         || row.wall - row.clockAfter > p.header.wall - p.header.before + 5_000_000
         || row.wall - row.ended < p.header.wall - p.header.after - 5_000_000 {
        return false;
      }
      total := total + row.readCalls;
      if total > MAX_READS {
        if StreamOk(p, seconds) {
          TotalGrows(p, index + 1, |p.intervals|);
        }
        return false;
      }
      previous := row.ended;
    }
    return true;
  }

  /** Interval i as an honest producer writes it: whole batches of 4096 reads of 64
      bytes, from where the last interval ended to at most a tenth of a second after
      the next full second, dated within five milliseconds by a clock that has kept
      its offset as closely. */
  ghost predicate Produced(p: Producer, i: nat)
    requires i < |p.intervals|
  {
    var h, row := p.header, p.intervals[i];
    var due := h.after + 1_000_000_000 * (i + 1);
    && row.started == (if i == 0 then h.after else p.intervals[i - 1].ended)
    && due <= row.ended <= due + 100_000_000
    && row.ended <= row.clockAfter <= row.ended + 5_000_000 && row.clockAfter <= I64_MAX
    && (exists batches :: 1 <= batches && row.readCalls == 4096 * batches)
    && row.readBytes == 64 * row.readCalls <= I64_MAX
    && 1 <= row.wall <= I64_MAX
    && row.wall - h.wall <= row.clockAfter - h.before + 5_000_000
    && row.ended - h.after - 5_000_000 <= row.wall - h.wall
  }

  lemma {:induction false} RowExact(p: Producer, i: nat)
    requires HeaderOk(p.header) && i < |p.intervals|
    requires i > 0 ==> 0 <= p.intervals[i - 1].ended <= I64_MAX
    ensures RowAccepted(p, i) && p.header.after <= I64_MAX <==> Produced(p, i) && p.header.after <= I64_MAX
  {
    var row := p.intervals[i];
    assert row.readCalls == 4096 * (row.readCalls / 4096) + row.readCalls % 4096;
    if RowAccepted(p, i) {
      assert 1 <= row.readCalls / 4096 && row.readCalls == 4096 * (row.readCalls / 4096);
    }
  }

  /** A stream is valid if and only if it has a header read within a millisecond and
      one such interval for each second, of at most 2 * 10^10 reads in all. */
  lemma {:induction false} StreamExact(p: Producer, seconds: int)
    ensures StreamOk(p, seconds) <==>
            && 1 <= seconds <= 1800 && |p.intervals| == seconds
            && 1 <= p.header.before <= p.header.after <= I64_MAX && p.header.after - p.header.before <= 1_000_000
            && 1 <= p.header.wall <= I64_MAX
            && (forall i | 0 <= i < |p.intervals| :: Produced(p, i))
            && TotalReads(p, |p.intervals|) <= 20_000_000_000
  {
    if HeaderOk(p.header) && p.header.after <= I64_MAX {
      if forall i | 0 <= i < |p.intervals| :: RowAccepted(p, i) {
        forall i | 0 <= i < |p.intervals| ensures Produced(p, i) {
          assert RowAccepted(p, i) && (i > 0 ==> RowAccepted(p, i - 1));
          RowExact(p, i);
        }
      }
      if forall i | 0 <= i < |p.intervals| :: Produced(p, i) {
        forall i | 0 <= i < |p.intervals| ensures RowAccepted(p, i) {
          assert Produced(p, i) && (i > 0 ==> Produced(p, i - 1));
          RowExact(p, i);
        }
      }
    }
  }

  lemma {:induction false} EnclosureNear(p: Producer, k: nat)
    requires ValidProducer(p) && k <= |p.intervals|
    ensures var offset := Instant(p, k) + p.header.wall - p.header.after;
            offset - 15_000_000 <= Low(p, k) && High(p, k) <= offset + 16_000_000
    ensures p.header.after + k * 1_000_000_000 <= Instant(p, k) <= p.header.after + k * 1_000_000_000 + 100_000_000
    ensures Low(p, k) <= High(p, k)
  {
    if k > 0 {
      assert IntervalOk(p, k - 1);
    }
  }

  /** In a validated stream the enclosures of different boundaries never overlap. */
  lemma {:induction false} EnclosuresOrdered(p: Producer, j: nat, k: nat)
    requires ValidProducer(p) && j < k <= |p.intervals|
    ensures High(p, j) < Low(p, k)
  {
    EnclosureNear(p, j);
    EnclosureNear(p, k);
  }

  // ------------------------------------------------------------- counting the calls

  function CountIn(calls: seq<int>, begin: int, end: int): nat {
    if calls == [] then 0
    else (if begin <= calls[0] < end then 1 else 0) + CountIn(calls[1..], begin, end)
  }

  ghost predicate Increasing(times: seq<int>) {
    forall i, j | 0 <= i < j < |times| :: times[i] < times[j]
  }

  /** How many calls fell into the selected ones of the first n intervals. */
  function Covered(calls: seq<int>, times: seq<int>, mask: seq<bool>, n: nat): nat
    requires n < |times| && n <= |mask|
  {
    if n == 0 then 0
    else Covered(calls, times, mask, n - 1) + if mask[n - 1] then CountIn(calls, times[n - 1], times[n]) else 0
  }

  /** The same for a single call. */
  function Hits(c: int, times: seq<int>, mask: seq<bool>, n: nat): nat
    requires n < |times| && n <= |mask|
  {
    if n == 0 then 0
    else Hits(c, times, mask, n - 1) + if mask[n - 1] && times[n - 1] <= c < times[n] then 1 else 0
  }

  lemma {:induction false} CoveredCons(c: int, calls: seq<int>, times: seq<int>, mask: seq<bool>, n: nat)
    requires n < |times| && n <= |mask|
    ensures Covered([c] + calls, times, mask, n) == Hits(c, times, mask, n) + Covered(calls, times, mask, n)
  {
    if n > 0 {
      CoveredCons(c, calls, times, mask, n - 1);
      assert ([c] + calls)[1..] == calls;
    }
  }

  /** A call is in at most one interval, and is hit only if that one is selected. */
  lemma {:induction false} HitsOne(c: int, times: seq<int>, mask: seq<bool>, n: nat)
    requires Increasing(times) && n < |times| && n <= |mask|
    ensures Hits(c, times, mask, n) <= 1
    ensures Hits(c, times, mask, n) == 1 ==> exists i | 0 <= i < n :: mask[i] && times[i] <= c < times[i + 1]
  {
    if n > 0 {
      HitsOne(c, times, mask, n - 1);
      if times[n - 1] <= c {
        NoHits(c, times, mask, n - 1);
      }
    }
  }

  lemma {:induction false} NoHits(c: int, times: seq<int>, mask: seq<bool>, n: nat)
    requires Increasing(times) && n < |times| && n <= |mask| && times[n] <= c
    ensures Hits(c, times, mask, n) == 0
  {
    if n > 0 {
      NoHits(c, times, mask, n - 1);
    }
  }

  lemma {:induction false} HitsSome(c: int, times: seq<int>, mask: seq<bool>, n: nat, i: nat)
    requires i < n < |times| && n <= |mask| && mask[i] && times[i] <= c < times[i + 1]
    ensures Hits(c, times, mask, n) >= 1
  {
    if i < n - 1 {
      HitsSome(c, times, mask, n - 1, i);
    }
  }

  lemma {:induction false} NoCalls(times: seq<int>, mask: seq<bool>, n: nat)
    requires n < |times| && n <= |mask|
    ensures Covered([], times, mask, n) == 0
  {
    if n > 0 {
      NoCalls(times, mask, n - 1);
    }
  }

  /** Selected intervals inside the session hold no more calls than it does. */
  lemma {:induction false} CoveredWithin(calls: seq<int>, times: seq<int>, mask: seq<bool>, begin: int, end: int)
    requires Increasing(times) && |times| == |mask| + 1
    requires forall i | 0 <= i < |mask| && mask[i] :: begin <= times[i] && times[i + 1] <= end
    ensures Covered(calls, times, mask, |mask|) <= CountIn(calls, begin, end)
  {
    if calls == [] {
      NoCalls(times, mask, |mask|);
    } else {
      var c := calls[0];
      assert calls == [c] + calls[1..];
      CoveredCons(c, calls[1..], times, mask, |mask|);
      CoveredWithin(calls[1..], times, mask, begin, end);
      HitsOne(c, times, mask, |mask|);
    }
  }

  ghost predicate AllWithin(calls: seq<int>, begin: int, end: int) {
    forall i | 0 <= i < |calls| :: begin <= calls[i] < end
  }

  /** Selected intervals that cover the session's calls hold no fewer. */
  lemma {:induction false} CoveredCover(calls: seq<int>, times: seq<int>, mask: seq<bool>, begin: int, end: int)
    requires Increasing(times) && |times| == |mask| + 1
    requires forall i | 0 <= i < |mask| && !mask[i] :: end <= times[i] || times[i + 1] <= begin
    requires AllWithin(calls, times[0], times[|mask|])
    ensures CountIn(calls, begin, end) <= Covered(calls, times, mask, |mask|)
  {
    if calls == [] {
      NoCalls(times, mask, |mask|);
    } else {
      var c := calls[0];
      assert calls == [c] + calls[1..];
      CoveredCons(c, calls[1..], times, mask, |mask|);
      CoveredCover(calls[1..], times, mask, begin, end);
      if begin <= c < end {
        var i := Locate(c, times, |mask|);
        HitsSome(c, times, mask, |mask|, i);
      }
    }
  }

  lemma {:induction false} Locate(c: int, times: seq<int>, n: nat) returns (i: nat)
    requires n < |times| && times[0] <= c < times[n]
    ensures i < n && times[i] <= c < times[i + 1]
  {
    if times[n - 1] <= c {
      i := n - 1;
    } else {
      i := Locate(c, times, n - 1);
    }
  }

  // ----------------------------------------------------------- the session's bounds

  const OBJECT_COUNTS: Counts := Counts(5, 7, 5)

  datatype Session = Session(
    requested: Clock, attached: Clock, objects: Objects, cleanup: Clock, expires: int, produced: int,
    pause: Option<Span>)

  /** Latest instant of the attachment, earliest of it, and latest of the cleanup. */
  function LowerStart(s: Session): int { s.attached.wall + s.attached.uncertainty }
  function UpperStart(s: Session): int { s.requested.wall - s.requested.uncertainty }
  function UpperEnd(s: Session): int { s.cleanup.wall + s.cleanup.uncertainty }

  function LowerMask(p: Producer, linked: seq<bool>, s: Session): (mask: seq<bool>)
    requires |linked| == |p.intervals|
    ensures |mask| == |p.intervals|
  {
    seq(|linked|, i requires 0 <= i < |linked| =>
      linked[i] && Low(p, i) >= LowerStart(s) && High(p, i + 1) <= s.expires)
  }

  function UpperMask(p: Producer, s: Session): (mask: seq<bool>)
    ensures |mask| == |p.intervals|
  {
    seq(|p.intervals|, i requires 0 <= i < |p.intervals| =>
      Low(p, i) < UpperEnd(s) && High(p, i + 1) > UpperStart(s))
  }

  function PauseMask(p: Producer, pause: Span): (mask: seq<bool>)
    ensures |mask| == |p.intervals|
  {
    seq(|p.intervals|, i requires 0 <= i < |p.intervals| =>
      Low(p, i) >= pause.begin && High(p, i + 1) <= pause.end)
  }

  function Size(mask: seq<bool>, n: nat): nat
    requires n <= |mask|
  {
    if n == 0 then 0 else Size(mask, n - 1) + if mask[n - 1] then 1 else 0
  }

  /** That is how many are selected. */
  lemma {:induction false} SizeIsCount(mask: seq<bool>, n: nat)
    requires n <= |mask|
    ensures Size(mask, n) == |set i | 0 <= i < n && mask[i]|
  {
    if n > 0 {
      SizeIsCount(mask, n - 1);
      var fewer, more := set i | 0 <= i < n - 1 && mask[i], set i | 0 <= i < n && mask[i];
      assert more == fewer + if mask[n - 1] then {n - 1} else {};
    }
  }

  /** Read calls of the selected intervals. */
  function Reads(p: Producer, mask: seq<bool>, n: nat): int
    requires n <= |p.intervals| && n <= |mask|
  {
    if n == 0 then 0 else Reads(p, mask, n - 1) + if mask[n - 1] then p.intervals[n - 1].readCalls else 0
  }

  ghost predicate Subset(a: seq<bool>, b: seq<bool>) {
    |a| == |b| && forall i | 0 <= i < |a| && a[i] :: b[i]
  }

  function Spans(p: Producer): (spans: seq<Span>)
    ensures |spans| == |p.intervals|
  {
    seq(|p.intervals|, i requires 0 <= i < |p.intervals| => Span(p.intervals[i].started, p.intervals[i].ended))
  }

  function OwnSignatures(observed: seq<Row>, s: Session): (r: seq<Signature>)
    ensures |r| == |observed|
  {
    Own(Signatures(observed, OBJECT_COUNTS, 1), s.objects)
  }

  /** Which intervals the session's own kernel objects are proven to span: its five
      links, seven maps and five programmes were there before and after, and in every
      observation between. */
  ghost predicate Linked(p: Producer, observed: seq<Row>, s: Session, linked: seq<bool>) {
    && |linked| == |p.intervals|
    && forall i | 0 <= i < |linked| ::
         linked[i] <==>
           OwnBracketed(observed, p.intervals[i].started, p.intervals[i].ended, s.objects, Counts(5, 7, 5), 1)
  }

  ghost predicate PauseAccepted(p: Producer, s: Session) {
    s.pause.Some? ==>
      var pause := s.pause.value;
      && UpperStart(s) <= pause.begin < pause.end <= s.expires
      && Reads(p, PauseMask(p, pause), |p.intervals|) > 10000
  }

  ghost predicate CountsAccepted(p: Producer, linked: seq<bool>, s: Session)
    requires |linked| == |p.intervals|
  {
    && Subset(LowerMask(p, linked, s), UpperMask(p, s))
    && Reads(p, LowerMask(p, linked, s), |linked|) <= s.produced <= Reads(p, UpperMask(p, s), |linked|)
  }

  datatype ProducerResult = ProducerResult(intervals: nat, minimum: int, maximum: int, pauseMinimum: Option<int>)

  method SumReads(p: Producer, mask: seq<bool>) returns (calls: int, size: nat)
    requires |mask| == |p.intervals|
    ensures calls == Reads(p, mask, |mask|) && size == Size(mask, |mask|)
  {
    calls, size := 0, 0;
    for i := 0 to |mask|
      invariant calls == Reads(p, mask, i) && size == Size(mask, i)
    {
      if mask[i] {
        calls, size := calls + p.intervals[i].readCalls, size + 1;
      }
    }
  }

  /** The two index lists of the source. */
  method BuildMasks(p: Producer, linked: seq<bool>, s: Session) returns (lower: seq<bool>, upper: seq<bool>)
    requires |linked| == |p.intervals|
    ensures lower == LowerMask(p, linked, s) && upper == UpperMask(p, s)
  {
    var spans := Boundaries(p);
    lower := seq(|spans|, i requires 0 <= i < |spans| =>
      linked[i] && spans[i].startLow >= LowerStart(s) && spans[i].endHigh <= s.expires);
    upper := seq(|spans|, i requires 0 <= i < |spans| =>
      spans[i].startLow < UpperEnd(s) && spans[i].endHigh > UpperStart(s));
  }

  method CheckCounts(p: Producer, linked: seq<bool>, s: Session, minimumIntervals: int)
    returns (r: Option<ProducerResult>)
    requires |linked| == |p.intervals|
    ensures r.Some? <==> Size(LowerMask(p, linked, s), |linked|) >= minimumIntervals && CountsAccepted(p, linked, s)
    ensures r.Some? ==> r.value.minimum <= s.produced <= r.value.maximum && r.value.pauseMinimum == None
    ensures r.Some? ==> r.value.intervals == Size(LowerMask(p, linked, s), |linked|)
                        && r.value.minimum == Reads(p, LowerMask(p, linked, s), |linked|)
                        && r.value.maximum == Reads(p, UpperMask(p, s), |linked|)
  {
    var lower, upper := BuildMasks(p, linked, s);
    var low, size := SumReads(p, lower);
    var high, _ := SumReads(p, upper);
    if size < minimumIntervals || exists i | 0 <= i < |lower| :: lower[i] && !upper[i] {
      return None;
    }
    if !(low <= s.produced <= high) {
      return None;
    }
    return Some(ProducerResult(size, low, high, None));
  }

  method CheckPause(p: Producer, s: Session) returns (ok: bool, calls: int)
    requires s.pause.Some?
    ensures ok <==> PauseAccepted(p, s)
    ensures calls == Reads(p, PauseMask(p, s.pause.value), |p.intervals|)
  {
    var pause := s.pause.value;
    var spans := Boundaries(p);
    var inside := seq(|spans|, i requires 0 <= i < |spans| =>
      spans[i].startLow >= pause.begin && spans[i].endHigh <= pause.end);
    assert inside == PauseMask(p, pause);
    var total, _ := SumReads(p, inside);
    calls := total;
    ok := UpperStart(s) <= pause.begin < pause.end <= s.expires && calls > 10000;
  }

  /** producer_bounds; linked is the proof mask that the link observations give. */
  method ProducerBounds(p: Producer, observed: seq<Row>, s: Session, seconds: int, minimumIntervals: int)
    returns (r: Option<ProducerResult>, linked: seq<bool>)
    ensures r.Some? ==> WitnessAccepted(observed, seconds, 1) && 1 <= minimumIntervals <= seconds
                        && Activity.Increasing(Spans(p)) && Linked(p, observed, s, linked)
    ensures WitnessAccepted(observed, seconds, 1) && 1 <= minimumIntervals <= seconds
            && Activity.Increasing(Spans(p)) ==>
              && Linked(p, observed, s, linked)
              && (r.Some? <==> Size(LowerMask(p, linked, s), |linked|) >= minimumIntervals
                               && CountsAccepted(p, linked, s) && PauseAccepted(p, s))
    ensures r.Some? ==>
              && r.value.intervals == Size(LowerMask(p, linked, s), |linked|)
              && r.value.minimum == Reads(p, LowerMask(p, linked, s), |linked|)
              && r.value.maximum == Reads(p, UpperMask(p, s), |linked|)
              && r.value.minimum <= s.produced <= r.value.maximum
    ensures r.Some? ==>
              r.value.pauseMinimum == if s.pause.None? then None
                                      else Some(Reads(p, PauseMask(p, s.pause.value), |p.intervals|))
  {
    r, linked := None, [];
    var ok := ValidateWitness(observed, seconds, 1);
    if !(1 <= minimumIntervals <= seconds) || ok.None? {
      return;
    }
    var mask := BracketWindows(
      MonotonicStarts(observed), MonotonicEnds(observed), OwnSignatures(observed, s), Spans(p));
    if mask.None? {
      return;
    }
    linked := mask.value;
    forall i | 0 <= i < |linked|
      ensures linked[i] <==>
              OwnBracketed(observed, p.intervals[i].started, p.intervals[i].ended, s.objects, Counts(5, 7, 5), 1) {
      ProvenOwn(observed, OBJECT_COUNTS, 1, s.objects, Spans(p)[i]);
    }
    r := CheckCounts(p, linked, s, minimumIntervals);
    if r.Some? && s.pause.Some? {
      var inside, calls := CheckPause(p, s);
      r := if inside then Some(r.value.(pauseMinimum := Some(calls))) else None;
    }
  }

  // ------------------------------------------------------- what the masks select

  /** The interval may have reached from begin to end. */
  ghost predicate MaySpan(p: Producer, i: nat, begin: int, end: int)
    requires i < |p.intervals|
  {
    Enclosed(p, i, begin) && Enclosed(p, i + 1, end)
  }

  /** For some boundary times it ended after the first instant and began before the
      second. */
  ghost predicate MayOverlap(p: Producer, i: nat, first: int, second: int)
    requires i < |p.intervals|
  {
    exists begin, end :: MaySpan(p, i, begin, end) && begin < second && first < end
  }

  /** Whatever its boundary times were, it lay between the two instants. */
  ghost predicate SurelyWithin(p: Producer, i: nat, first: int, second: int)
    requires i < |p.intervals|
  {
    forall begin, end | MaySpan(p, i, begin, end) :: first <= begin && end <= second
  }

  /** Counted from above is exactly what may have overlapped the time from the
      earliest request to the latest clean-up. */
  lemma {:induction false} UpperExact(p: Producer, s: Session, i: nat)
    requires ValidProducer(p) && i < |p.intervals|
    ensures UpperMask(p, s)[i] <==>
            MayOverlap(p, i, s.requested.wall - s.requested.uncertainty, s.cleanup.wall + s.cleanup.uncertainty)
  {
    EnclosureNear(p, i);
    EnclosureNear(p, i + 1);
    if UpperMask(p, s)[i] {
      assert MaySpan(p, i, Low(p, i), High(p, i + 1));
    }
  }

  /** Counted from below is exactly what is proven linked and surely lay between the
      latest attachment and the expiry. */
  lemma {:induction false} LowerExact(p: Producer, linked: seq<bool>, s: Session, i: nat)
    requires ValidProducer(p) && i < |p.intervals| == |linked|
    ensures LowerMask(p, linked, s)[i] <==>
            linked[i] && SurelyWithin(p, i, s.attached.wall + s.attached.uncertainty, s.expires)
  {
    EnclosureNear(p, i);
    EnclosureNear(p, i + 1);
    assert MaySpan(p, i, Low(p, i), High(p, i + 1));
  }

  /** Counted for the pause is exactly what surely fell into it. */
  lemma {:induction false} PauseExact(p: Producer, pause: Span, i: nat)
    requires ValidProducer(p) && i < |p.intervals|
    ensures PauseMask(p, pause)[i] <==> SurelyWithin(p, i, pause.begin, pause.end)
  {
    EnclosureNear(p, i);
    EnclosureNear(p, i + 1);
    assert MaySpan(p, i, Low(p, i), High(p, i + 1));
  }

  /** The intervals that count from below, from above and for the pause. */
  ghost predicate LowerIs(p: Producer, linked: seq<bool>, s: Session, mask: seq<bool>) {
    |mask| == |p.intervals| == |linked|
    && forall i | 0 <= i < |mask| ::
         mask[i] <==> linked[i] && SurelyWithin(p, i, s.attached.wall + s.attached.uncertainty, s.expires)
  }

  ghost predicate UpperIs(p: Producer, s: Session, mask: seq<bool>) {
    |mask| == |p.intervals|
    && forall i | 0 <= i < |mask| ::
         mask[i] <==>
           MayOverlap(p, i, s.requested.wall - s.requested.uncertainty, s.cleanup.wall + s.cleanup.uncertainty)
  }

  ghost predicate PauseIs(p: Producer, pause: Span, mask: seq<bool>) {
    |mask| == |p.intervals|
    && forall i | 0 <= i < |mask| :: mask[i] <==> SurelyWithin(p, i, pause.begin, pause.end)
  }

  /** What the checks on the counts decide, in terms of what may and must have been. */
  lemma {:induction false} BoundsExact(
    p: Producer, linked: seq<bool>, s: Session, lower: seq<bool>, upper: seq<bool>)
    requires ValidProducer(p) && LowerIs(p, linked, s, lower) && UpperIs(p, s, upper)
    ensures CountsAccepted(p, linked, s) <==>
            && (forall i | 0 <= i < |lower| && lower[i] :: upper[i])
            && Reads(p, lower, |lower|) <= s.produced <= Reads(p, upper, |upper|)
    ensures Size(LowerMask(p, linked, s), |linked|) == |set i | 0 <= i < |lower| && lower[i]|
  {
    forall i | 0 <= i < |p.intervals|
      ensures LowerMask(p, linked, s)[i] == lower[i] && UpperMask(p, s)[i] == upper[i] {
      LowerExact(p, linked, s, i);
      UpperExact(p, s, i);
    }
    assert LowerMask(p, linked, s) == lower && UpperMask(p, s) == upper;
    SizeIsCount(lower, |lower|);
  }

  /** A pause is accepted exactly if it lies between the earliest request and the
      expiry and more than ten thousand reads surely fell into it. */
  lemma {:induction false} PauseAcceptedExact(p: Producer, s: Session, pause: Span, inside: seq<bool>)
    requires ValidProducer(p) && s.pause == Some(pause) && PauseIs(p, pause, inside)
    ensures PauseAccepted(p, s) <==>
            && s.requested.wall - s.requested.uncertainty <= pause.begin && pause.begin < pause.end <= s.expires
            && 10_001 <= Reads(p, inside, |inside|)
  {
    forall i | 0 <= i < |p.intervals| ensures PauseMask(p, pause)[i] == inside[i] {
      PauseExact(p, pause, i);
    }
    assert PauseMask(p, pause) == inside;
  }

  // ------------------------------------------------------------------ honest sessions

  /** A true history behind a producer's stream: the instants of its interval
      boundaries, each within its enclosure, and the instants of its reads. */
  ghost predicate History(p: Producer, times: seq<int>, calls: seq<int>) {
    && |times| == |p.intervals| + 1 && Increasing(times)
    && (forall k | 0 <= k < |times| :: Low(p, k) <= times[k] <= High(p, k))
    && (forall i | 0 <= i < |p.intervals| :: p.intervals[i].readCalls == CountIn(calls, times[i], times[i + 1]))
    && AllWithin(calls, times[0], times[|p.intervals|])
  }

  lemma {:induction false} ReadsAreCovered(p: Producer, times: seq<int>, calls: seq<int>, mask: seq<bool>, n: nat)
    requires History(p, times, calls) && n <= |p.intervals| && n <= |mask|
    ensures Reads(p, mask, n) == Covered(calls, times, mask, n)
  {
    if n > 0 {
      ReadsAreCovered(p, times, calls, mask, n - 1);
    }
  }

  /** The session's kernel state existed from attached to detached on the monotonic
      clock: every observation that shows its own objects was true at an instant of
      its read at which they did exist. */
  ghost predicate Attested(observed: seq<Row>, s: Session, seen: nat -> int, attached: int, detached: int) {
    forall i | 0 <= i < |observed| && ShowsAt(observed, i, s.objects, Counts(5, 7, 5), 1) ::
      SeenAt(observed, seen, attached, detached, i)
  }

  ghost predicate SeenAt(observed: seq<Row>, seen: nat -> int, attached: int, detached: int, i: nat) {
    && i < |observed| && MonotonicStart(observed[i]) <= seen(i) <= MonotonicEnd(observed[i])
    && attached <= seen(i) <= detached
  }

  /** What bracketing is for: an interval proven linked lies inside the lifetime of
      the session's kernel state, whenever and however that ended. */
  lemma {:induction false} LinkedIsAttached(
    p: Producer, observed: seq<Row>, seconds: int, s: Session, linked: seq<bool>, i: nat,
    seen: nat -> int, attached: int, detached: int)
    requires ValidProducer(p) && WitnessAccepted(observed, seconds, 1)
    requires Linked(p, observed, s, linked) && i < |linked| && linked[i]
    requires Attested(observed, s, seen, attached, detached)
    ensures attached <= Instant(p, i) && Instant(p, i + 1) <= detached
  {
    var before: nat, after: nat :|
      && before <= after < |observed|
      && observed[before].clock.monotonic + observed[before].clock.uncertainty <= p.intervals[i].started
      && p.intervals[i].ended <=
         observed[after].clock.monotonic - observed[after].clock.uncertainty - observed[after].read
      && Unchanged(observed, before, after, s.objects, Counts(5, 7, 5), 1);
    assert IntervalOk(p, i);
    assert ShowsAt(observed, before, s.objects, Counts(5, 7, 5), 1);
    assert ShowsAt(observed, after, s.objects, Counts(5, 7, 5), 1);
    assert SeenAt(observed, seen, attached, detached, before) && SeenAt(observed, seen, attached, detached, after);
  }

  /** A wall clock that never runs backwards dates the boundaries. */
  ghost predicate Dated(p: Producer, times: seq<int>, clock: int -> int) {
    && (forall a, b | a <= b :: clock(a) <= clock(b))
    && |times| == |p.intervals| + 1 && forall k | 0 <= k < |times| :: times[k] == clock(Instant(p, k))
  }

  /** The selected intervals lie inside the session. */
  ghost predicate WithinSession(times: seq<int>, mask: seq<bool>, attached: int, detached: int) {
    |times| == |mask| + 1 && forall i | 0 <= i < |mask| && mask[i] :: attached <= times[i] && times[i + 1] <= detached
  }

  /** If the intervals counted from below lie inside the session, and the request and
      the cleanup enclose it, then both count checks hold of its reads. */
  lemma {:induction false} CountsFollow(
    p: Producer, times: seq<int>, calls: seq<int>, s: Session, attached: int, detached: int, linked: seq<bool>)
    requires History(p, times, calls) && |linked| == |p.intervals|
    requires UpperStart(s) <= attached && detached <= UpperEnd(s)
    requires WithinSession(times, LowerMask(p, linked, s), attached, detached)
    requires s.produced == CountIn(calls, attached, detached)
    ensures CountsAccepted(p, linked, s)
  {
    var lower, upper, n := LowerMask(p, linked, s), UpperMask(p, s), |p.intervals|;
    forall i | 0 <= i < n
      ensures lower[i] ==> upper[i] && attached <= times[i] && times[i + 1] <= detached
      ensures !upper[i] ==> detached <= times[i] || times[i + 1] <= attached
    {
      assert Low(p, i) <= times[i] < times[i + 1] <= High(p, i + 1);
    }
    ReadsAreCovered(p, times, calls, lower, n);
    ReadsAreCovered(p, times, calls, upper, n);
    CoveredWithin(calls, times, lower, attached, detached);
    CoveredCover(calls, times, upper, attached, detached);
  }

  /** A session that counted exactly the reads of its lifetime is never rejected by
      the count checks, even if its kernel state went away before it would have
      expired: attached after the request, gone before the cleanup was witnessed,
      and in between seen only while it existed. */
  lemma {:induction false} HonestSessionAccepted(
    p: Producer, times: seq<int>, calls: seq<int>, clock: int -> int, s: Session,
    observed: seq<Row>, seconds: int, seen: nat -> int, attached: int, detached: int, linked: seq<bool>)
    requires ValidProducer(p) && History(p, times, calls) && Dated(p, times, clock)
    requires WitnessAccepted(observed, seconds, 1) && Linked(p, observed, s, linked)
    requires Attested(observed, s, seen, attached, detached)
    requires UpperStart(s) <= clock(attached) && clock(detached) <= UpperEnd(s)
    requires s.produced == CountIn(calls, clock(attached), clock(detached))
    ensures CountsAccepted(p, linked, s)
  {
    var lower := LowerMask(p, linked, s);
    forall i | 0 <= i < |lower| && lower[i] ensures clock(attached) <= times[i] && times[i + 1] <= clock(detached) {
      LinkedIsAttached(p, observed, seconds, s, linked, i, seen, attached, detached);
      assert times[i] == clock(Instant(p, i)) && times[i + 1] == clock(Instant(p, i + 1));
    }
    CountsFollow(p, times, calls, s, clock(attached), clock(detached), linked);
  }

  /** Attachment within its witnessed clock limits, and cleanup no earlier than expiry. */
  ghost predicate FullLifetime(s: Session, attached: int, detached: int) {
    UpperStart(s) <= attached <= LowerStart(s) && s.expires <= detached <= UpperEnd(s)
  }

  /** If a session lasted until it expired, its count checks hold whichever intervals
      the link observations proved. */
  lemma {:induction false} FullSessionAccepted(
    p: Producer, times: seq<int>, calls: seq<int>, s: Session, attached: int, detached: int, linked: seq<bool>)
    requires History(p, times, calls) && FullLifetime(s, attached, detached) && |linked| == |p.intervals|
    requires s.produced == CountIn(calls, attached, detached)
    ensures CountsAccepted(p, linked, s)
  {
    var lower := LowerMask(p, linked, s);
    forall i | 0 <= i < |lower| && lower[i] ensures attached <= times[i] && times[i + 1] <= detached {
      assert Low(p, i) <= times[i] && times[i + 1] <= High(p, i + 1);
    }
    CountsFollow(p, times, calls, s, attached, detached, linked);
  }

  // ---------------------------------------------------- the upper bound is attained

  /** All reads of interval i happen at points[i]. */
  function Placed(p: Producer, points: seq<int>, n: nat): seq<int>
    requires n <= |points| && n <= |p.intervals|
  {
    if n == 0 then []
    else
      var calls := p.intervals[n - 1].readCalls;
      Placed(p, points, n - 1) + seq(if calls < 0 then 0 else calls, _ => points[n - 1])
  }

  lemma {:induction false} CountConcat(a: seq<int>, b: seq<int>, begin: int, end: int)
    ensures CountIn(a + b, begin, end) == CountIn(a, begin, end) + CountIn(b, begin, end)
  {
    if a == [] {
      assert a + b == b;
    } else {
      assert (a + b)[1..] == a[1..] + b;
      CountConcat(a[1..], b, begin, end);
    }
  }

  lemma {:induction false} CountSame(calls: seq<int>, x: int, begin: int, end: int)
    requires forall i | 0 <= i < |calls| :: calls[i] == x
    ensures CountIn(calls, begin, end) == if begin <= x < end then |calls| else 0
  {
    if calls != [] {
      CountSame(calls[1..], x, begin, end);
    }
  }

  /** Each point lies in its interval. */
  ghost predicate PointsWithin(times: seq<int>, points: seq<int>) {
    |times| == |points| + 1 && forall i | 0 <= i < |points| :: times[i] <= points[i] < times[i + 1]
  }

  lemma {:induction false} PlacedStep(p: Producer, points: seq<int>, n: nat, begin: int, end: int)
    requires ValidProducer(p) && 0 < n <= |points| == |p.intervals|
    ensures CountIn(Placed(p, points, n), begin, end) ==
            CountIn(Placed(p, points, n - 1), begin, end)
            + if begin <= points[n - 1] < end then p.intervals[n - 1].readCalls else 0
  {
    assert IntervalOk(p, n - 1);
    var more := seq(p.intervals[n - 1].readCalls, _ => points[n - 1]);
    CountConcat(Placed(p, points, n - 1), more, begin, end);
    CountSame(more, points[n - 1], begin, end);
  }

  lemma {:induction false} PlacedWithin(p: Producer, times: seq<int>, points: seq<int>, n: nat)
    requires ValidProducer(p) && n <= |points| == |p.intervals| && PointsWithin(times, points) && Increasing(times)
    ensures AllWithin(Placed(p, points, n), times[0], times[n])
  {
    if n > 0 {
      PlacedWithin(p, times, points, n - 1);
    }
  }

  /** Before or after all its points a stretch of time has no reads. */
  lemma {:induction false} NoneAfter(calls: seq<int>, low: int, high: int, begin: int, end: int)
    requires AllWithin(calls, low, high) && high <= begin
    ensures CountIn(calls, begin, end) == 0
  {
    if calls != [] {
      NoneAfter(calls[1..], low, high, begin, end);
    }
  }

  lemma {:induction false} PlacedCounts(p: Producer, times: seq<int>, points: seq<int>, n: nat, i: nat)
    requires ValidProducer(p) && i < n <= |points| == |p.intervals|
    requires PointsWithin(times, points) && Increasing(times)
    ensures CountIn(Placed(p, points, n), times[i], times[i + 1]) == p.intervals[i].readCalls
  {
    assert times[n - 1] <= points[n - 1] < times[n];
    if i < n - 1 {
      assert times[i + 1] <= times[n - 1];
      PlacedStep(p, points, n, times[i], times[i + 1]);
      PlacedCounts(p, times, points, n - 1, i);
    } else {
      PlacedStep(p, points, n, times[n - 1], times[n]);
      PlacedWithin(p, times, points, n - 1);
      NoneAfter(Placed(p, points, n - 1), times[0], times[n - 1], times[n - 1], times[n]);
    }
  }

  lemma {:induction false} PlacedSelected(
    p: Producer, points: seq<int>, mask: seq<bool>, n: nat, begin: int, end: int)
    requires ValidProducer(p) && n <= |points| == |mask| == |p.intervals|
    requires forall i | 0 <= i < |mask| :: mask[i] <==> begin <= points[i] < end
    ensures CountIn(Placed(p, points, n), begin, end) == Reads(p, mask, n)
  {
    if n > 0 {
      PlacedStep(p, points, n, begin, end);
      PlacedSelected(p, points, mask, n - 1, begin, end);
    }
  }

  function Clamp(low: int, x: int, high: int): int {
    if x < low then low else if high < x then high else x
  }

  /** Boundaries as near as possible to just after the request. */
  function NearTimes(p: Producer, s: Session): (times: seq<int>)
    ensures |times| == |p.intervals| + 1
  {
    seq(|p.intervals| + 1, k requires 0 <= k <= |p.intervals| => Clamp(Low(p, k), UpperStart(s) + 1, High(p, k)))
  }

  /** Reads within the session wherever they may have been, and outside otherwise. */
  function NearPoints(p: Producer, s: Session): (points: seq<int>)
    ensures |points| == |p.intervals|
  {
    var times, upper := NearTimes(p, s), UpperMask(p, s);
    seq(|p.intervals|, i requires 0 <= i < |p.intervals| =>
      if upper[i] && times[i] < UpperStart(s) then UpperStart(s) else times[i])
  }

  lemma {:induction false} NearPointAt(p: Producer, s: Session, i: nat)
    requires ValidProducer(p) && UpperStart(s) + 1 < UpperEnd(s) && i < |p.intervals|
    ensures var times, points := NearTimes(p, s), NearPoints(p, s);
            && times[i] <= points[i] < times[i + 1]
            && (UpperMask(p, s)[i] <==> UpperStart(s) <= points[i] < UpperEnd(s))
  {
    EnclosureNear(p, i);
    EnclosureNear(p, i + 1);
    EnclosuresOrdered(p, i, i + 1);
  }

  lemma {:induction false} NearTimesIncrease(p: Producer, s: Session)
    requires ValidProducer(p)
    ensures Increasing(NearTimes(p, s))
    ensures forall k | 0 <= k <= |p.intervals| :: Low(p, k) <= NearTimes(p, s)[k] <= High(p, k)
  {
    var times := NearTimes(p, s);
    forall k | 0 <= k <= |p.intervals| ensures Low(p, k) <= times[k] <= High(p, k) {
      EnclosureNear(p, k);
    }
    forall i, j | 0 <= i < j < |times| ensures times[i] < times[j] {
      EnclosuresOrdered(p, i, j);
    }
  }

  /** No smaller upper bound is sound: for every valid stream and every session whose
      clean-up came after its request there are boundary times, reads and a lifetime
      between the two such that exactly the reported maximum was read in it. */
  lemma {:induction false} MaximumAttained(p: Producer, s: Session) returns (times: seq<int>, calls: seq<int>)
    requires ValidProducer(p) && UpperStart(s) + 1 < UpperEnd(s)
    ensures History(p, times, calls)
    ensures CountIn(calls, UpperStart(s), UpperEnd(s)) == Reads(p, UpperMask(p, s), |p.intervals|)
  {
    times := NearTimes(p, s);
    var points, n := NearPoints(p, s), |p.intervals|;
    calls := Placed(p, points, n);
    NearTimesIncrease(p, s);
    forall i | 0 <= i < n
      ensures times[i] <= points[i] < times[i + 1]
      ensures UpperMask(p, s)[i] <==> UpperStart(s) <= points[i] < UpperEnd(s)
    {
      NearPointAt(p, s, i);
    }
    forall i | 0 <= i < n ensures p.intervals[i].readCalls == CountIn(calls, times[i], times[i + 1]) {
      PlacedCounts(p, times, points, n, i);
    }
    PlacedWithin(p, times, points, n);
    PlacedSelected(p, points, UpperMask(p, s), n, UpperStart(s), UpperEnd(s));
  }

  /** The reads reported for a pause really happened during it. */
  lemma {:induction false} PauseMinimumSound(p: Producer, times: seq<int>, calls: seq<int>, pause: Span)
    requires History(p, times, calls)
    ensures Reads(p, PauseMask(p, pause), |p.intervals|) <= CountIn(calls, pause.begin, pause.end)
  {
    var mask, n := PauseMask(p, pause), |p.intervals|;
    forall i | 0 <= i < n && mask[i] ensures pause.begin <= times[i] && times[i + 1] <= pause.end {
      assert Low(p, i) <= times[i] && times[i + 1] <= High(p, i + 1);
    }
    ReadsAreCovered(p, times, calls, mask, n);
    CoveredWithin(calls, times, mask, pause.begin, pause.end);
  }

  // ------------------------------------------------------------- paired throughput

  /** The interval lies wholly inside the resource window, leaving out both reads. */
  predicate Inside(p: Producer, resources: seq<Sample>, i: nat)
    requires resources != [] && i < |p.intervals|
  {
    && Low(p, i) >= resources[0].wall + resources[0].read
    && High(p, i + 1) <= resources[|resources| - 1].wall
  }

  predicate CoversWindow(p: Producer, resources: seq<Sample>)
    requires resources != [] && p.intervals != []
  {
    && High(p, 0) <= resources[0].wall
    && Low(p, |p.intervals|) >= resources[|resources| - 1].wall + resources[|resources| - 1].read
  }

  /** Eligible is exactly what lay between the first read's end and the last read's
      start whatever its boundary times were. */
  lemma {:induction false} InsideExact(p: Producer, resources: seq<Sample>, i: nat)
    requires ValidProducer(p) && resources != [] && i < |p.intervals|
    ensures Inside(p, resources, i) <==> forall begin, end | MaySpan(p, i, begin, end) ::
              resources[0].wall + resources[0].read <= begin && end <= resources[|resources| - 1].wall
  {
    EnclosureNear(p, i);
    EnclosureNear(p, i + 1);
    assert MaySpan(p, i, Low(p, i), High(p, i + 1));
  }

  /** The window is covered exactly if the stream began before the first read and
      ended after the last one whatever those two boundary times were. */
  lemma {:induction false} CoversExact(p: Producer, resources: seq<Sample>)
    requires ValidProducer(p) && resources != [] && p.intervals != []
    ensures CoversWindow(p, resources) <==>
            && (forall begin | Enclosed(p, 0, begin) :: begin <= resources[0].wall)
            && forall end | Enclosed(p, |p.intervals|, end) ::
                 resources[|resources| - 1].wall + resources[|resources| - 1].read <= end
  {
    EnclosureNear(p, 0);
    EnclosureNear(p, |p.intervals|);
    assert Enclosed(p, 0, High(p, 0)) && Enclosed(p, |p.intervals|, Low(p, |p.intervals|));
  }

  /** Eligible intervals of a validated stream are contiguous. */
  lemma {:induction false} InsideContiguous(p: Producer, resources: seq<Sample>, i: nat, j: nat, k: nat)
    requires ValidProducer(p) && resources != [] && i <= j <= k < |p.intervals|
    requires Inside(p, resources, i) && Inside(p, resources, k)
    ensures Inside(p, resources, j)
  {
    EnclosureNear(p, i);
    EnclosureNear(p, k + 1);
    if i < j {
      EnclosuresOrdered(p, i, j);
    }
    if j < k {
      EnclosuresOrdered(p, j + 1, k + 1);
    }
    EnclosureNear(p, j);
    EnclosureNear(p, j + 1);
  }

  datatype Totals = Totals(
    first: nat, last: nat, controlBytes: int, enabledBytes: int, controlNanos: int, enabledNanos: int, passed: bool)

  /** Bytes per nanosecond. */
  ghost function Throughput(bytes: int, nanos: int): real
    requires nanos > 0
  {
    bytes as real / nanos as real
  }

  /** The integer comparison is that of the two throughputs. */
  lemma {:induction false} BudgetIsThroughput(
    controlBytes: int, controlNanos: int, enabledBytes: int, enabledNanos: int)
    requires controlNanos > 0 && enabledNanos > 0
    ensures enabledBytes * controlNanos * 100 > controlBytes * enabledNanos * 98 <==>
            Throughput(enabledBytes, enabledNanos) > 0.98 * Throughput(controlBytes, controlNanos)
  {
    var a, b := Throughput(enabledBytes, enabledNanos), Throughput(controlBytes, controlNanos);
    var m, n := enabledNanos as real, controlNanos as real;
    assert a * m == enabledBytes as real && b * n == controlBytes as real;
    assert (enabledBytes * controlNanos) as real == a * (m * n) && (controlBytes * enabledNanos) as real == b * (m * n);
    assert m * n > 0.0;
    Cancel(a * 100.0, b * 98.0, m * n);
  }

  lemma {:induction false} Cancel(x: real, y: real, k: real)
    requires k > 0.0
    ensures x * k > y * k <==> x > y
  {
  }

  function Bytes(p: Producer, first: nat, end: nat): int
    requires first <= end <= |p.intervals|
    decreases end
  {
    if first == end then 0 else Bytes(p, first, end - 1) + p.intervals[end - 1].readBytes
  }

  /** In a valid stream the bytes are 64 for each read call between the two ends. */
  lemma {:induction false} BytesOfReads(p: Producer, first: nat, end: nat)
    requires ValidProducer(p) && first <= end <= |p.intervals|
    ensures Bytes(p, first, end) == 64 * (TotalReads(p, end) - TotalReads(p, first))
    decreases end
  {
    if first < end {
      BytesOfReads(p, first, end - 1);
      assert IntervalOk(p, end - 1);
    }
  }

  ghost predicate Common(before: Producer, after: Producer, control: seq<Sample>, enabled: seq<Sample>, i: nat)
    requires control != [] && enabled != [] && i < |before.intervals| && i < |after.intervals|
  {
    Inside(before, control, i) && Inside(after, enabled, i)
  }

  method CommonIndices(before: Producer, after: Producer, control: seq<Sample>, enabled: seq<Sample>)
    returns (indices: seq<nat>)
    requires |before.intervals| == |after.intervals| && control != [] && enabled != []
    ensures forall k | 0 <= k < |indices| ::
              indices[k] < |before.intervals| && Common(before, after, control, enabled, indices[k])
    ensures forall i | 0 <= i < |before.intervals| && Common(before, after, control, enabled, i) :: i in indices
    ensures forall j, k | 0 <= j < k < |indices| :: indices[j] < indices[k]
  {
    indices := [];
    for i := 0 to |before.intervals|
      invariant forall k | 0 <= k < |indices| ::
                  indices[k] < i && Common(before, after, control, enabled, indices[k])
      invariant forall j | 0 <= j < i && Common(before, after, control, enabled, j) :: j in indices
      invariant forall j, k | 0 <= j < k < |indices| :: indices[j] < indices[k]
    {
      if Inside(before, control, i) && Inside(after, enabled, i) {
        indices := indices + [i];
      }
    }
  }

  /** For validated streams the source's contiguity require never fails. */
  lemma {:induction false} CommonContiguous(before: Producer, after: Producer, control: seq<Sample>,
                                            enabled: seq<Sample>, indices: seq<nat>, k: nat)
    requires ValidProducer(before) && ValidProducer(after) && |before.intervals| == |after.intervals|
    requires control != [] && enabled != [] && k < |indices|
    requires forall j | 0 <= j < |indices| ::
               indices[j] < |before.intervals| && Common(before, after, control, enabled, indices[j])
    requires forall i | 0 <= i < |before.intervals| && Common(before, after, control, enabled, i) :: i in indices
    requires forall i, j | 0 <= i < j < |indices| :: indices[i] < indices[j]
    ensures indices[k] == indices[0] + k
  {
    if k > 0 {
      CommonContiguous(before, after, control, enabled, indices, k - 1);
      var a, b := indices[k - 1], indices[k];
      assert Common(before, after, control, enabled, a) && Common(before, after, control, enabled, b);
      InsideContiguous(before, control, a, a + 1, b);
      InsideContiguous(after, enabled, a, a + 1, b);
      assert Common(before, after, control, enabled, a + 1);
      var m :| 0 <= m < |indices| && indices[m] == a + 1;
      assert k - 1 < m <= k;
    }
  }

  ghost predicate CommonPair(before: Producer, after: Producer, control: seq<Sample>, enabled: seq<Sample>,
                             f: nat, l: nat)
    requires control != [] && enabled != [] && l < |before.intervals| && l < |after.intervals| && f <= l
  {
    Common(before, after, control, enabled, f) && Common(before, after, control, enabled, l)
  }

  /** The source's require of a positive denominator never fails. */
  lemma {:induction false} Positive(a: int, b: int)
    requires a > 0 && b > 0
    ensures a * b > 0
  {
  }

  /** compare_pressure on the decoded streams and validated resource samples. It
      succeeds exactly when both streams are valid, both producers cover their
      windows and two eligible intervals lie far enough apart; the paired intervals
      are then one contiguous range inside both windows, each side's time is the
      time between that range's first and last boundary, and the verdict compares
      the two throughputs. */
  method Compare(before: Producer, after: Producer, control: seq<Sample>, enabled: seq<Sample>,
                 pressureSeconds: int, windowSeconds: int, minimumCommon: int)
    returns (r: Option<Totals>)
    requires control != [] && enabled != []
    ensures r.Some? <==>
              && 1 <= minimumCommon <= windowSeconds
              && StreamOk(before, pressureSeconds) && StreamOk(after, pressureSeconds)
              && CoversWindow(before, control) && CoversWindow(after, enabled)
              && exists f, l | 0 <= f <= l < |before.intervals| ::
                   CommonPair(before, after, control, enabled, f, l) && l - f + 1 >= minimumCommon
    ensures r.Some? ==> var t := r.value;
              && t.first <= t.last < |before.intervals| == |after.intervals|
              && (forall i | 0 <= i < |before.intervals| ::
                    Common(before, after, control, enabled, i) <==> t.first <= i <= t.last)
              && t.controlNanos == Instant(before, t.last + 1) - Instant(before, t.first)
              && t.enabledNanos == Instant(after, t.last + 1) - Instant(after, t.first)
              && t.controlBytes == Bytes(before, t.first, t.last + 1)
              && t.enabledBytes == Bytes(after, t.first, t.last + 1)
              && t.controlNanos > 0 && t.enabledNanos > 0
              && (t.passed <==> Throughput(t.enabledBytes, t.enabledNanos)
                                > 0.98 * Throughput(t.controlBytes, t.controlNanos))
  {
    if !(1 <= minimumCommon <= windowSeconds) {
      return None;
    }
    var beforeOk := ValidatePressure(before, pressureSeconds);
    var afterOk := ValidatePressure(after, pressureSeconds);
    if !beforeOk || !afterOk {
      return None;
    }
    StreamIsValid(before, pressureSeconds);
    StreamIsValid(after, pressureSeconds);
    if !CoversWindow(before, control) || !CoversWindow(after, enabled) {
      return None;
    }
    var indices := CommonIndices(before, after, control, enabled);
    forall k | 0 <= k < |indices| ensures indices[k] == indices[0] + k {
      CommonContiguous(before, after, control, enabled, indices, k);
    }
    if |indices| < minimumCommon {
      forall f, l | 0 <= f <= l < |before.intervals| && CommonPair(before, after, control, enabled, f, l)
        ensures l - f + 1 < minimumCommon {
        PairSpan(before, after, control, enabled, indices, f, l);
      }
      return None;
    }
    if exists k | 0 <= k < |indices| :: indices[k] != indices[0] + k {
      return None;
    }
    var first, last := indices[0], indices[|indices| - 1];
    assert CommonPair(before, after, control, enabled, first, last) && last - first + 1 == |indices|;
    forall i | 0 <= i < |before.intervals|
      ensures Common(before, after, control, enabled, i) <==> first <= i <= last
    {
      if first <= i <= last {
        assert indices[i - first] == i;
      }
    }
    var t := SumPairs(before, after, first, last);
    Positive(t.controlBytes, t.enabledNanos);
    return if t.controlBytes * t.enabledNanos > 0 then Some(t) else None;
  }

  lemma {:induction false} PairSpan(before: Producer, after: Producer, control: seq<Sample>, enabled: seq<Sample>,
                 indices: seq<nat>, f: nat, l: nat)
    requires control != [] && enabled != [] && f <= l < |before.intervals| == |after.intervals|
    requires CommonPair(before, after, control, enabled, f, l)
    requires forall i | 0 <= i < |before.intervals| && Common(before, after, control, enabled, i) :: i in indices
    requires forall k | 0 <= k < |indices| :: indices[k] == indices[0] + k
    ensures l - f + 1 <= |indices|
  {
    var a :| 0 <= a < |indices| && indices[a] == f;
    var b :| 0 <= b < |indices| && indices[b] == l;
  }

  method SumPairs(before: Producer, after: Producer, first: nat, last: nat) returns (t: Totals)
    requires ValidProducer(before) && ValidProducer(after)
    requires first <= last < |before.intervals| == |after.intervals|
    ensures t.first == first && t.last == last
    ensures t.controlNanos == Instant(before, last + 1) - Instant(before, first)
    ensures t.enabledNanos == Instant(after, last + 1) - Instant(after, first)
    ensures t.controlBytes == Bytes(before, first, last + 1) && t.enabledBytes == Bytes(after, first, last + 1)
    ensures 0 < t.controlBytes && 0 < t.controlNanos && 0 < t.enabledNanos
    ensures t.passed <==> Throughput(t.enabledBytes, t.enabledNanos) > 0.98 * Throughput(t.controlBytes, t.controlNanos)
  {
    var controlBytes, enabledBytes, controlNanos, enabledNanos := 0, 0, 0, 0;
    for i := first to last + 1
      invariant controlNanos == Instant(before, i) - Instant(before, first)
      invariant enabledNanos == Instant(after, i) - Instant(after, first)
      invariant controlBytes == Bytes(before, first, i) && enabledBytes == Bytes(after, first, i)
      invariant i > first ==> controlBytes > 0 && controlNanos > 0 && enabledNanos > 0
      invariant i == first ==> controlBytes == 0 && controlNanos == 0 && enabledNanos == 0
    {
      assert IntervalOk(before, i) && IntervalOk(after, i);
      EnclosureNear(before, i);
      EnclosureNear(after, i);
      var a, b := before.intervals[i], after.intervals[i];
      controlBytes, enabledBytes := controlBytes + a.readBytes, enabledBytes + b.readBytes;
      controlNanos, enabledNanos := controlNanos + (a.ended - a.started), enabledNanos + (b.ended - b.started);
    }
    BudgetIsThroughput(controlBytes, controlNanos, enabledBytes, enabledNanos);
    t := Totals(first, last, controlBytes, enabledBytes, controlNanos, enabledNanos,
                enabledBytes * controlNanos * 100 > controlBytes * enabledNanos * 98);
  }
}
