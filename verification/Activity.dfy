/** Bracketing of spans by unchanged kernel-object observations (activity.py): a
    span is proven exactly when some observation read wholly before it and some
    observation read wholly after it agree with everything between them. */
module Activity {
  import opened Limits
  import opened Wrappers

  // -------------------------------------------------------------- the bracketing

  datatype Objects = Objects(links: seq<int>, maps: seq<int>, progs: seq<int>)
  type Signature = Option<Objects>
  datatype Span = Span(begin: int, end: int)

  ghost predicate OrderedAt(starts: seq<int>, ends: seq<int>, i: nat, j: nat)
    requires i < |ends| && j < |starts|
  {
    if i < j then ends[i] < starts[j] else i == j ==> starts[j] <= ends[i]
  }

  /** The read intervals are non-empty, disjoint and in order. */
  ghost predicate Ordered(starts: seq<int>, ends: seq<int>) {
    |starts| == |ends| && forall i, j | 0 <= i < |ends| && 0 <= j < |starts| :: OrderedAt(starts, ends, i, j)
  }

  ghost predicate Ascending(a: seq<int>) {
    forall i, j | 0 <= i <= j < |a| :: a[i] <= a[j]
  }

  lemma {:induction false} OrderedAscending(starts: seq<int>, ends: seq<int>)
    requires Ordered(starts, ends)
    ensures Ascending(starts) && Ascending(ends)
  {
    forall i, j | 0 <= i <= j < |starts| ensures starts[i] <= starts[j] && ends[i] <= ends[j] {
      assert OrderedAt(starts, ends, i, j) && OrderedAt(starts, ends, i, i) && OrderedAt(starts, ends, j, j);
    }
  }

  /** bisect.bisect_right: how many elements of a sorted list are at most x. */
  method BisectRight(a: seq<int>, x: int) returns (i: nat)
    requires Ascending(a)
    ensures i <= |a| && (forall k | 0 <= k < i :: a[k] <= x) && (forall k | i <= k < |a| :: x < a[k])
  {
    var lo, hi := 0, |a|;
    while lo < hi
      invariant 0 <= lo <= hi <= |a|
      invariant forall k | 0 <= k < lo :: a[k] <= x
      invariant forall k | hi <= k < |a| :: x < a[k]
    {
      var mid := (lo + hi) / 2;
      if x < a[mid] {
        hi := mid;
      } else {
        lo := mid + 1;
      }
    }
    i := lo;
  }

  /** bisect.bisect_left: how many elements of a sorted list are below x. */
  method BisectLeft(a: seq<int>, x: int) returns (i: nat)
    requires Ascending(a)
    ensures i <= |a| && (forall k | 0 <= k < i :: a[k] < x) && (forall k | i <= k < |a| :: x <= a[k])
  {
    var lo, hi := 0, |a|;
    while lo < hi
      invariant 0 <= lo <= hi <= |a|
      invariant forall k | 0 <= k < lo :: a[k] < x
      invariant forall k | hi <= k < |a| :: x <= a[k]
    {
      var mid := (lo + hi) / 2;
      if a[mid] < x {
        lo := mid + 1;
      } else {
        hi := mid;
      }
    }
    i := lo;
  }

  /** One non-missing signature holds over the whole range. */
  ghost predicate Constant(signatures: seq<Signature>, p: nat, q: nat) {
    && p < |signatures| && q < |signatures| && signatures[p].Some?
    && forall k | p <= k <= q :: signatures[k] == signatures[p]
  }

  /** Observation p was read wholly before the span, q wholly after it, and
      nothing observed between them differs. */
  ghost predicate Brackets(starts: seq<int>, ends: seq<int>, signatures: seq<Signature>, span: Span, p: nat, q: nat) {
    && p < |ends| && q < |starts| && ends[p] <= span.begin && span.end <= starts[q]
    && Constant(signatures, p, q)
  }

  ghost predicate Proven(starts: seq<int>, ends: seq<int>, signatures: seq<Signature>, span: Span) {
    exists p: nat, q: nat :: Brackets(starts, ends, signatures, span, p, q)
  }

  /** The order of the reads makes the source's left < right test redundant. */
  lemma {:induction false} BracketOrder(starts: seq<int>, ends: seq<int>, span: Span, p: nat, q: nat)
    requires Ordered(starts, ends) && span.begin < span.end
    requires p < |ends| && q < |starts| && ends[p] <= span.begin && span.end <= starts[q]
    ensures p < q
  {
    assert OrderedAt(starts, ends, q, q) && OrderedAt(starts, ends, q, p) && OrderedAt(starts, ends, p, p);
  }

  method BracketWindow(starts: seq<int>, ends: seq<int>, signatures: seq<Signature>, span: Span) returns (proven: bool)
    requires Ordered(starts, ends) && |signatures| == |starts| && span.begin < span.end
    ensures proven <==> Proven(starts, ends, signatures, span)
  {
    OrderedAscending(starts, ends);
    var after: int := BisectRight(ends, span.begin);
    var left := after - 1;
    var right := BisectLeft(starts, span.end);
    proven := left >= 0 && right < |signatures| && left < right && signatures[left].Some?
              && forall k | left <= k < right + 1 :: signatures[k] == signatures[left];
    if proven {
      assert Brackets(starts, ends, signatures, span, left, right);
    }
    if Proven(starts, ends, signatures, span) {
      var p: nat, q: nat :| Brackets(starts, ends, signatures, span, p, q);
      assert p <= left && right <= q;
      BracketOrder(starts, ends, span, left, right);
      assert signatures[left] == signatures[p];
    }
  }

  method BracketWindows(starts: seq<int>, ends: seq<int>, signatures: seq<Signature>, windows: seq<Span>)
    returns (r: Option<seq<bool>>)
    requires Ordered(starts, ends) && |signatures| == |starts|
    ensures r.Some? <==> forall i | 0 <= i < |windows| :: windows[i].begin < windows[i].end
    ensures r.Some? ==> |r.value| == |windows|
    ensures r.Some? ==> forall i | 0 <= i < |windows| :: r.value[i] <==> Proven(starts, ends, signatures, windows[i])
  {
    var result: seq<bool> := [];
    for index := 0 to |windows|
      invariant |result| == index
      invariant forall i | 0 <= i < index :: windows[i].begin < windows[i].end
      invariant forall i | 0 <= i < index :: result[i] <==> Proven(starts, ends, signatures, windows[i])
    {
      if windows[index].begin >= windows[index].end {
        return None;
      }
      var proven := BracketWindow(starts, ends, signatures, windows[index]);
      result := result + [proven];
    }
    return Some(result);
  }

  /** Whatever proves a span proves every span inside it. */
  lemma {:induction false} ShrinkKeepsProof(
    starts: seq<int>, ends: seq<int>, signatures: seq<Signature>, outer: Span, inner: Span)
    requires outer.begin <= inner.begin && inner.end <= outer.end
    requires Proven(starts, ends, signatures, outer)
    ensures Proven(starts, ends, signatures, inner)
  {
    var p: nat, q: nat :| Brackets(starts, ends, signatures, outer, p, q);
    assert Brackets(starts, ends, signatures, inner, p, q);
  }

  /** An observation that turns out missing never makes a span proven. */
  lemma {:induction false} LossNeverProves(
    starts: seq<int>, ends: seq<int>, signatures: seq<Signature>, span: Span, lost: nat)
    requires Ordered(starts, ends) && |signatures| == |starts| && span.begin < span.end && lost < |signatures|
    requires Proven(starts, ends, signatures[lost := None], span)
    ensures Proven(starts, ends, signatures, span)
  {
    var fewer := signatures[lost := None];
    var p: nat, q: nat :| Brackets(starts, ends, fewer, span, p, q);
    BracketOrder(starts, ends, span, p, q);
    forall k | p <= k <= q ensures signatures[k] == signatures[p] {
      assert fewer[k] == fewer[p] && fewer[k].Some?;
    }
    assert Brackets(starts, ends, signatures, span, p, q);
  }

  // -------------------------------------------------------------- the witness rows

  datatype Clock = Clock(monotonic: int, wall: int, uncertainty: int)
  datatype Snapshot = Snapshot(
    workers: int, excluded: int, controls: int, objects: Objects, kernelBytes: int, userBytes: int, clock: Clock)
  datatype State = Observed | Unavailable | OtherState
  datatype Row = Row(
    schema: int, index: int, elapsed: int, read: int, state: State, snapshot: Option<Snapshot>,
    targetWorkers: Option<seq<int>>, clock: Clock, cpuUsec: int, peakRSS: int)

  predicate ClockOk(c: Clock) {
    1 <= c.monotonic <= I64_MAX && 1 <= c.wall <= I64_MAX && 0 <= c.uncertainty <= 5_000_000
  }

  /** values == sorted(set(values)), and each a 32-bit identity. */
  predicate ObjectList(values: seq<int>) {
    && |values| <= 512
    && (forall i | 0 <= i < |values| :: 1 <= values[i] <= 0xFFFF_FFFF)
    && (forall i | 0 < i < |values| :: values[i - 1] < values[i])
  }

  predicate SnapshotOk(s: Snapshot) {
    && 0 <= s.workers <= 2 && 0 <= s.excluded <= 32 && 0 <= s.controls <= s.workers
    && 0 <= s.kernelBytes <= U64_MAX && 0 <= s.userBytes <= U64_MAX && ClockOk(s.clock)
    && ObjectList(s.objects.links) && ObjectList(s.objects.maps) && ObjectList(s.objects.progs)
    && (s.workers == 0 ==> s.objects == Objects([], [], []) && s.kernelBytes == 0 && s.userBytes == 0)
  }

  function WallStart(row: Row): int {
    row.clock.wall - row.read - row.clock.uncertainty
  }

  function WallEnd(row: Row): int {
    row.clock.wall + row.clock.uncertainty
  }

  function MonotonicStart(row: Row): int {
    row.clock.monotonic - row.read - row.clock.uncertainty
  }

  function MonotonicEnd(row: Row): int {
    row.clock.monotonic + row.clock.uncertainty
  }

  predicate TargetsOk(row: Row, workers: int) {
    if workers == 2 && row.state.Observed? then
      && row.snapshot.Some? && row.targetWorkers.Some? && |row.targetWorkers.value| == 2
      && 0 <= row.targetWorkers.value[0] <= 2 && 0 <= row.targetWorkers.value[1] <= 2
      && row.targetWorkers.value[0] + row.targetWorkers.value[1] == row.snapshot.value.workers
    else row.targetWorkers.None?
  }

  /** A snapshot is present exactly in an observed row, and was taken while the
      row was read on both clocks. */
  predicate SnapshotIn(row: Row) {
    if row.state.Observed? then
      && row.snapshot.Some? && SnapshotOk(row.snapshot.value)
      && var point := row.snapshot.value.clock;
         && WallStart(row) - point.uncertainty <= point.wall <= WallEnd(row) + point.uncertainty
         && MonotonicStart(row) - point.uncertainty <= point.monotonic <= MonotonicEnd(row) + point.uncertainty
    else row.state.Unavailable? && row.snapshot.None?
  }

  /** The requires on one row. */
  predicate RowOk(first: Row, row: Row, index: int, workers: int) {
    && SnapshotIn(row) && TargetsOk(row, workers)
    && row.schema == workers && row.index == index && ClockOk(row.clock)
    && 0 <= row.elapsed <= U64_MAX && 1 <= row.read <= 100_000_000
    && 0 <= row.cpuUsec <= U64_MAX && 1 <= row.peakRSS <= U64_MAX
    && Abs(row.elapsed - index * 1_000_000_000) <= 100_000_000
    && Abs(WallStart(row) - WallStart(first) - row.elapsed) <= 105_000_000
    && Abs(row.clock.monotonic - first.clock.monotonic - row.elapsed) <= 105_000_000
    && (index == 0 ==> row.elapsed == 0)
  }

  /** The requires between two rows. */
  predicate StepOk(before: Row, row: Row) {
    && 900_000_000 <= row.elapsed - before.elapsed <= 1_100_000_000
    && row.cpuUsec >= before.cpuUsec && WallStart(row) > WallEnd(before)
  }

  predicate RowAt(rows: seq<Row>, i: nat, workers: int)
    requires i < |rows|
  {
    RowOk(rows[0], rows[i], i, workers) && (i > 0 ==> StepOk(rows[i - 1], rows[i]))
  }

  ghost predicate RowsAccepted(rows: seq<Row>, n: nat, workers: int)
    requires n <= |rows|
  {
    forall i | 0 <= i < n :: RowAt(rows, i, workers)
  }

  ghost predicate WitnessAccepted(rows: seq<Row>, seconds: int, workers: int) {
    && 1 <= seconds <= 1800 && 1 <= workers <= 2 && |rows| == seconds + 1
    && RowsAccepted(rows, |rows|, workers) && rows[|rows| - 1].elapsed >= seconds * 1_000_000_000
  }

  function WallStarts(rows: seq<Row>): (s: seq<int>) ensures |s| == |rows| {
    seq(|rows|, i requires 0 <= i < |rows| => WallStart(rows[i]))
  }

  function WallEnds(rows: seq<Row>): (s: seq<int>) ensures |s| == |rows| {
    seq(|rows|, i requires 0 <= i < |rows| => WallEnd(rows[i]))
  }

  function MonotonicStarts(rows: seq<Row>): (s: seq<int>) ensures |s| == |rows| {
    seq(|rows|, i requires 0 <= i < |rows| => MonotonicStart(rows[i]))
  }

  function MonotonicEnds(rows: seq<Row>): (s: seq<int>) ensures |s| == |rows| {
    seq(|rows|, i requires 0 <= i < |rows| => MonotonicEnd(rows[i]))
  }

  /** Rows advance by at least 900 ms each. */
  lemma {:induction false} Cadence(rows: seq<Row>, workers: int, i: nat, j: nat)
    requires RowsAccepted(rows, |rows|, workers) && i <= j < |rows|
    ensures rows[j].elapsed - rows[i].elapsed >= 900_000_000 * (j - i)
    ensures i < j ==> WallEnd(rows[i]) < WallStart(rows[j])
    ensures WallStart(rows[j]) <= WallEnd(rows[j])
  {
    assert RowAt(rows, j, workers);
    if i < j {
      Cadence(rows, workers, i, j - 1);
    }
  }

  /** The monotonic read intervals are never compared by the source; the cadence
      and drift bounds keep them at least 580 ms apart. */
  lemma {:induction false} MonotonicGap(rows: seq<Row>, workers: int, i: nat, j: nat)
    requires RowsAccepted(rows, |rows|, workers) && i < j < |rows|
    ensures MonotonicStart(rows[j]) - MonotonicEnd(rows[i]) >= 900_000_000 * (j - i) - 320_000_000 >= 580_000_000
  {
    Cadence(rows, workers, i, j);
    assert RowAt(rows, i, workers) && RowAt(rows, j, workers);
  }

  lemma {:induction false} WitnessOrdered(rows: seq<Row>, workers: int)
    requires RowsAccepted(rows, |rows|, workers)
    ensures Ordered(WallStarts(rows), WallEnds(rows)) && Ordered(MonotonicStarts(rows), MonotonicEnds(rows))
  {
    forall i, j | 0 <= i < |rows| && 0 <= j < |rows|
      ensures OrderedAt(WallStarts(rows), WallEnds(rows), i, j)
      ensures OrderedAt(MonotonicStarts(rows), MonotonicEnds(rows), i, j)
    {
      assert RowAt(rows, j, workers);
      if i < j {
        Cadence(rows, workers, i, j);
        MonotonicGap(rows, workers, i, j);
      }
    }
  }

  method ValidateWitness(rows: seq<Row>, seconds: int, workers: int) returns (r: Option<(seq<int>, seq<int>)>)
    ensures r.Some? <==> WitnessAccepted(rows, seconds, workers)
    ensures r.Some? ==> r.value == (WallStarts(rows), WallEnds(rows))
    ensures r.Some? ==> Ordered(r.value.0, r.value.1) && Ordered(MonotonicStarts(rows), MonotonicEnds(rows))
  {
    if !(1 <= seconds <= 1800) || !(1 <= workers <= 2) || |rows| != seconds + 1 {
      return None;
    }
    var starts: seq<int>, ends: seq<int> := [], [];
    for index := 0 to |rows|
      invariant RowsAccepted(rows, index, workers)
      invariant starts == WallStarts(rows[..index]) && ends == WallEnds(rows[..index])
    {
      if !RowAt(rows, index, workers) {
        return None;
      }
      starts := starts + [WallStart(rows[index])];
      ends := ends + [WallEnd(rows[index])];
    }
    if rows[|rows| - 1].elapsed < seconds * 1_000_000_000 {
      return None;
    }
    assert rows[..|rows|] == rows;
    WitnessOrdered(rows, workers);
    r := Some((starts, ends));
  }

  // ------------------------------------------- what accepted rows have in common

  ghost predicate Positive63(x: int) {
    1 <= x < 0x8000_0000_0000_0000
  }

  /** A reading of both clocks that is good to five milliseconds. */
  ghost predicate Reading(c: Clock) {
    Positive63(c.monotonic) && Positive63(c.wall) && 0 <= c.uncertainty <= 5_000_000
  }

  /** At most 512 different identities, in order. */
  ghost predicate Identities(values: seq<int>) {
    && |values| <= 512 && (forall i | 0 <= i < |values| :: 0 < values[i] < 0x1_0000_0000)
    && forall i, j | 0 <= i < j < |values| :: values[i] < values[j]
  }

  lemma {:induction false} ListAscends(values: seq<int>, i: nat, j: nat)
    requires ObjectList(values) && i < j < |values|
    ensures values[i] < values[j]
  {
    if i < j - 1 {
      ListAscends(values, i, j - 1);
    }
  }

  lemma {:induction false} IdentitiesExact(values: seq<int>)
    ensures ObjectList(values) <==> Identities(values)
  {
    if ObjectList(values) {
      forall i, j | 0 <= i < j < |values| ensures values[i] < values[j] {
        ListAscends(values, i, j);
      }
    }
  }

  /** A snapshot of at most two workers, which without workers owns nothing. */
  ghost predicate Inventory(s: Snapshot) {
    && 0 <= s.controls <= s.workers <= 2 && 0 <= s.excluded <= 32
    && 0 <= s.kernelBytes <= U64_MAX && 0 <= s.userBytes <= U64_MAX && Reading(s.clock)
    && Identities(s.objects.links) && Identities(s.objects.maps) && Identities(s.objects.progs)
    && (s.workers == 0 ==> |s.objects.links| + |s.objects.maps| + |s.objects.progs| + s.kernelBytes + s.userBytes == 0)
  }

  /** Within the errors of both, the snapshot's clock lies in the row's read. */
  ghost predicate TakenIn(row: Row, c: Clock) {
    var slack := row.clock.uncertainty + c.uncertainty;
    && -row.read - slack <= c.wall - row.clock.wall <= slack
    && -row.read - slack <= c.monotonic - row.clock.monotonic <= slack
  }

  /** One row by itself: on time on all three clocks; and either it could not be
      observed, or its snapshot was taken while it was read and each of two targets
      has its share of the workers. */
  ghost predicate Witnessed(first: Row, row: Row, i: nat, workers: int) {
    && row.schema == workers && row.index == i && Reading(row.clock)
    && 0 <= row.elapsed <= U64_MAX && 1 <= row.read <= 100_000_000
    && 0 <= row.cpuUsec <= U64_MAX && 1 <= row.peakRSS <= U64_MAX
    && i * 1_000_000_000 - 100_000_000 <= row.elapsed <= i * 1_000_000_000 + 100_000_000
    && (i == 0 ==> row.elapsed == 0)
    && WallStart(first) + row.elapsed - 105_000_000 <= WallStart(row) <= WallStart(first) + row.elapsed + 105_000_000
    && -105_000_000 <= row.clock.monotonic - first.clock.monotonic - row.elapsed <= 105_000_000
    && match row.snapshot
       case None => row.state.Unavailable? && row.targetWorkers.None?
       case Some(s) =>
         && row.state.Observed? && Inventory(s) && TakenIn(row, s.clock)
         && if workers != 2 then row.targetWorkers.None?
            else exists a, b | 0 <= a <= 2 && 0 <= b <= 2 :: row.targetWorkers == Some([a, b]) && a + b == s.workers
  }

  lemma {:induction false} RowExact(first: Row, row: Row, i: nat, workers: int)
    ensures RowOk(first, row, i, workers) <==> Witnessed(first, row, i, workers)
  {
    if row.snapshot.Some? {
      var s := row.snapshot.value;
      IdentitiesExact(s.objects.links);
      IdentitiesExact(s.objects.maps);
      IdentitiesExact(s.objects.progs);
      if row.state.Observed? {
        TargetsExact(row, s, workers);
      }
    }
  }

  lemma {:induction false} TargetsExact(row: Row, s: Snapshot, workers: int)
    requires row.snapshot == Some(s) && row.state.Observed?
    ensures TargetsOk(row, workers) <==>
            if workers != 2 then row.targetWorkers.None?
            else exists a, b | 0 <= a <= 2 && 0 <= b <= 2 :: row.targetWorkers == Some([a, b]) && a + b == s.workers
  {
    if workers == 2 && TargetsOk(row, workers) {
      var t := row.targetWorkers.value;
      assert t == [t[0], t[1]];
    }
  }

  /** A row against an earlier one, so many steps before. */
  ghost predicate Follows(a: Row, b: Row, steps: nat) {
    && steps * 900_000_000 <= b.elapsed - a.elapsed <= steps * 1_100_000_000
    && a.cpuUsec <= b.cpuUsec && WallEnd(a) < WallStart(b)
  }

  lemma {:induction false} AcceptedFollows(rows: seq<Row>, workers: int, i: nat, j: nat)
    requires RowsAccepted(rows, |rows|, workers) && i < j < |rows|
    ensures Follows(rows[i], rows[j], j - i)
    decreases j
  {
    assert RowAt(rows, j, workers) && RowAt(rows, j - 1, workers);
    if i < j - 1 {
      AcceptedFollows(rows, workers, i, j - 1);
    }
  }

  /** A witness is accepted if and only if each row is sound by itself and each
      follows every earlier one. */
  lemma {:induction false} WitnessExact(rows: seq<Row>, seconds: int, workers: int)
    ensures WitnessAccepted(rows, seconds, workers) <==>
            && 1 <= seconds <= 1800 && workers in {1, 2} && |rows| == seconds + 1
            && seconds * 1_000_000_000 <= rows[seconds].elapsed
            && (forall i | 0 <= i < |rows| :: Witnessed(rows[0], rows[i], i, workers))
            && (forall i, j | 0 <= i < j < |rows| :: Follows(rows[i], rows[j], j - i))
  {
    if rows != [] && RowsAccepted(rows, |rows|, workers) {
      forall i | 0 <= i < |rows| ensures Witnessed(rows[0], rows[i], i, workers) {
        assert RowAt(rows, i, workers);
        RowExact(rows[0], rows[i], i, workers);
      }
      forall i, j | 0 <= i < j < |rows| ensures Follows(rows[i], rows[j], j - i) {
        AcceptedFollows(rows, workers, i, j);
      }
    } else if rows != [] && (forall i | 0 <= i < |rows| :: Witnessed(rows[0], rows[i], i, workers))
      && (forall i, j | 0 <= i < j < |rows| :: Follows(rows[i], rows[j], j - i)) {
      forall i | 0 <= i < |rows| ensures RowAt(rows, i, workers) {
        RowExact(rows[0], rows[i], i, workers);
        assert i > 0 ==> Follows(rows[i - 1], rows[i], i - (i - 1));
      }
    }
  }

  // ---------------------------------------------------------------- whole operations

  /** The expected number of objects of each kind. */
  datatype Counts = Counts(links: int, maps: int, progs: int)

  predicate CountsOk(c: Counts) {
    1 <= c.links <= 512 && 1 <= c.maps <= 512 && 1 <= c.progs <= 512
  }

  /** The objects of an observation that shows exactly the expected activity. */
  function SignatureOf(row: Row, expected: Counts, workers: int): Signature {
    if row.snapshot.None? then None
    else
      var s := row.snapshot.value;
      if s.workers == workers && s.excluded == 0 && s.controls == workers && s.kernelBytes > 0 && s.userBytes > 0
         && (workers == 1 || row.targetWorkers == Some([1, 1]))
         && Counts(|s.objects.links|, |s.objects.maps|, |s.objects.progs|) == expected
      then Some(s.objects) else None
  }

  function Signatures(rows: seq<Row>, expected: Counts, workers: int): (s: seq<Signature>)
    ensures |s| == |rows|
  {
    seq(|rows|, i requires 0 <= i < |rows| => SignatureOf(rows[i], expected, workers))
  }

  method ActiveSignatures(rows: seq<Row>, expected: Counts, workers: int) returns (r: Option<seq<Signature>>)
    ensures r.Some? <==> 1 <= workers <= 2 && CountsOk(expected)
    ensures r.Some? ==> r.value == Signatures(rows, expected, workers)
  {
    if !(1 <= workers <= 2) || !CountsOk(expected) {
      return None;
    }
    var signatures: seq<Signature> := [];
    for index := 0 to |rows|
      invariant signatures == Signatures(rows[..index], expected, workers)
    {
      signatures := signatures + [SignatureOf(rows[index], expected, workers)];
    }
    assert rows[..|rows|] == rows;
    return Some(signatures);
  }

  /** The observation shows exactly the wanted activity on these objects: as many
      workers as expected, each with its controls, one for each target where there are
      two, nobody else's, memory in both kinds of map, and objects of each number. */
  ghost predicate Shows(row: Row, objects: Objects, expected: Counts, workers: int) {
    exists s :: row.snapshot == Some(s) && s.objects == objects && Active(row, s, expected, workers)
  }

  ghost predicate Active(row: Row, s: Snapshot, expected: Counts, workers: int) {
    && workers == s.workers == s.controls && 0 == s.excluded && 1 <= s.kernelBytes && 1 <= s.userBytes
    && (workers == 1 || (row.targetWorkers.Some? && row.targetWorkers.value == [1, 1]))
    && |s.objects.links| == expected.links && |s.objects.maps| == expected.maps
    && |s.objects.progs| == expected.progs
  }

  lemma {:induction false} SignatureExact(row: Row, objects: Objects, expected: Counts, workers: int)
    ensures SignatureOf(row, expected, workers) == Some(objects) <==> Shows(row, objects, expected, workers)
  {
    if row.snapshot.Some? {
      var s := row.snapshot.value;
      assert Active(row, s, expected, workers) <==> SignatureOf(row, expected, workers) == Some(s.objects);
    }
  }

  /** Observation k shows the activity on these objects. */
  ghost predicate ShowsAt(observed: seq<Row>, k: nat, objects: Objects, expected: Counts, workers: int)
    requires k < |observed|
  {
    Shows(observed[k], objects, expected, workers)
  }

  /** From one observation to another all show the activity on the same objects. */
  ghost predicate Unchanged(observed: seq<Row>, p: nat, q: nat, objects: Objects, expected: Counts, workers: int)
    requires p <= q < |observed|
  {
    forall k | p <= k <= q :: ShowsAt(observed, k, objects, expected, workers)
  }

  /** The wall time from begin to end is bracketed: some observation ended before it
      whatever the clock's error was, some later one began after it, and all between
      show the same. */
  ghost predicate WallBracketed(observed: seq<Row>, begin: int, end: int, expected: Counts, workers: int) {
    exists p: nat, q: nat, objects ::
      && p <= q < |observed|
      && observed[p].clock.wall + observed[p].clock.uncertainty <= begin
      && end <= observed[q].clock.wall - observed[q].clock.uncertainty - observed[q].read
      && Unchanged(observed, p, q, objects, expected, workers)
  }

  /** The same on the monotonic clock. */
  ghost predicate MonotonicBracketed(observed: seq<Row>, begin: int, end: int, expected: Counts, workers: int) {
    exists p: nat, q: nat, objects ::
      && p <= q < |observed|
      && observed[p].clock.monotonic + observed[p].clock.uncertainty <= begin
      && end <= observed[q].clock.monotonic - observed[q].clock.uncertainty - observed[q].read
      && Unchanged(observed, p, q, objects, expected, workers)
  }

  lemma {:induction false} ConstantIsUnchanged(observed: seq<Row>, expected: Counts, workers: int, p: nat, q: nat)
    requires p <= q < |observed|
    ensures Constant(Signatures(observed, expected, workers), p, q) <==>
            exists objects :: Unchanged(observed, p, q, objects, expected, workers)
  {
    var signatures := Signatures(observed, expected, workers);
    if Constant(signatures, p, q) {
      var objects := signatures[p].value;
      forall k | p <= k <= q ensures ShowsAt(observed, k, objects, expected, workers) {
        assert signatures[k] == signatures[p] == Some(objects);
        SignatureExact(observed[k], objects, expected, workers);
      }
      assert Unchanged(observed, p, q, objects, expected, workers);
    }
    if exists objects :: Unchanged(observed, p, q, objects, expected, workers) {
      var objects :| Unchanged(observed, p, q, objects, expected, workers);
      forall k | p <= k <= q ensures signatures[k] == Some(objects) {
        assert ShowsAt(observed, k, objects, expected, workers);
        SignatureExact(observed[k], objects, expected, workers);
      }
    }
  }

  /** A search for one's own objects: everything else counts as not observed. */
  function Own(signatures: seq<Signature>, objects: Objects): (r: seq<Signature>)
    ensures |r| == |signatures|
  {
    seq(|signatures|, i requires 0 <= i < |signatures| =>
      if signatures[i] == Some(objects) then signatures[i] else None)
  }

  lemma {:induction false} OwnIsUnchanged(
    observed: seq<Row>, expected: Counts, workers: int, objects: Objects, p: nat, q: nat)
    requires p <= q < |observed|
    ensures Constant(Own(Signatures(observed, expected, workers), objects), p, q) <==>
            Unchanged(observed, p, q, objects, expected, workers)
  {
    var signatures := Signatures(observed, expected, workers);
    var own := Own(signatures, objects);
    forall k | p <= k <= q ensures own[k] == Some(objects) <==> ShowsAt(observed, k, objects, expected, workers) {
      SignatureExact(observed[k], objects, expected, workers);
    }
    if Constant(own, p, q) {
      forall k | p <= k <= q ensures ShowsAt(observed, k, objects, expected, workers) {
        assert own[k] == own[p] && own[p].Some?;
      }
    }
  }

  /** The monotonic span is bracketed by observations of these very objects. */
  ghost predicate OwnBracketed(
    observed: seq<Row>, begin: int, end: int, objects: Objects, expected: Counts, workers: int) {
    exists p: nat, q: nat ::
      && p <= q < |observed|
      && observed[p].clock.monotonic + observed[p].clock.uncertainty <= begin
      && end <= observed[q].clock.monotonic - observed[q].clock.uncertainty - observed[q].read
      && Unchanged(observed, p, q, objects, expected, workers)
  }

  lemma {:induction false} ProvenOwn(observed: seq<Row>, expected: Counts, workers: int, objects: Objects, span: Span)
    requires RowsAccepted(observed, |observed|, workers) && span.begin < span.end
    ensures Proven(MonotonicStarts(observed), MonotonicEnds(observed),
                   Own(Signatures(observed, expected, workers), objects), span)
            <==> OwnBracketed(observed, span.begin, span.end, objects, expected, workers)
  {
    var starts, ends := MonotonicStarts(observed), MonotonicEnds(observed);
    var own := Own(Signatures(observed, expected, workers), objects);
    WitnessOrdered(observed, workers);
    if Proven(starts, ends, own, span) {
      var p: nat, q: nat :| Brackets(starts, ends, own, span, p, q);
      BracketOrder(starts, ends, span, p, q);
      OwnIsUnchanged(observed, expected, workers, objects, p, q);
    }
    if OwnBracketed(observed, span.begin, span.end, objects, expected, workers) {
      var p: nat, q: nat :|
        && p <= q < |observed|
        && observed[p].clock.monotonic + observed[p].clock.uncertainty <= span.begin
        && span.end <= observed[q].clock.monotonic - observed[q].clock.uncertainty - observed[q].read
        && Unchanged(observed, p, q, objects, expected, workers);
      OwnIsUnchanged(observed, expected, workers, objects, p, q);
      assert Brackets(starts, ends, own, span, p, q);
    }
  }

  /** What the wall-clock search proves is what observations bracket. */
  lemma {:induction false} ProvenOnWall(observed: seq<Row>, expected: Counts, workers: int, span: Span)
    requires RowsAccepted(observed, |observed|, workers) && span.begin < span.end
    ensures Proven(WallStarts(observed), WallEnds(observed), Signatures(observed, expected, workers), span) <==>
            WallBracketed(observed, span.begin, span.end, expected, workers)
  {
    var starts, ends := WallStarts(observed), WallEnds(observed);
    var signatures := Signatures(observed, expected, workers);
    WitnessOrdered(observed, workers);
    if Proven(starts, ends, signatures, span) {
      var p: nat, q: nat :| Brackets(starts, ends, signatures, span, p, q);
      BracketOrder(starts, ends, span, p, q);
      ConstantIsUnchanged(observed, expected, workers, p, q);
    }
    if WallBracketed(observed, span.begin, span.end, expected, workers) {
      var p: nat, q: nat, objects :|
        && p <= q < |observed|
        && observed[p].clock.wall + observed[p].clock.uncertainty <= span.begin
        && span.end <= observed[q].clock.wall - observed[q].clock.uncertainty - observed[q].read
        && Unchanged(observed, p, q, objects, expected, workers);
      ConstantIsUnchanged(observed, expected, workers, p, q);
      assert Brackets(starts, ends, signatures, span, p, q);
    }
  }

  lemma {:induction false} ProvenOnMonotonic(observed: seq<Row>, expected: Counts, workers: int, span: Span)
    requires RowsAccepted(observed, |observed|, workers) && span.begin < span.end
    ensures Proven(MonotonicStarts(observed), MonotonicEnds(observed), Signatures(observed, expected, workers), span)
            <==> MonotonicBracketed(observed, span.begin, span.end, expected, workers)
  {
    var starts, ends := MonotonicStarts(observed), MonotonicEnds(observed);
    var signatures := Signatures(observed, expected, workers);
    WitnessOrdered(observed, workers);
    if Proven(starts, ends, signatures, span) {
      var p: nat, q: nat :| Brackets(starts, ends, signatures, span, p, q);
      BracketOrder(starts, ends, span, p, q);
      ConstantIsUnchanged(observed, expected, workers, p, q);
    }
    if MonotonicBracketed(observed, span.begin, span.end, expected, workers) {
      var p: nat, q: nat, objects :|
        && p <= q < |observed|
        && observed[p].clock.monotonic + observed[p].clock.uncertainty <= span.begin
        && span.end <= observed[q].clock.monotonic - observed[q].clock.uncertainty - observed[q].read
        && Unchanged(observed, p, q, objects, expected, workers);
      ConstantIsUnchanged(observed, expected, workers, p, q);
      assert Brackets(starts, ends, signatures, span, p, q);
    }
  }

  ghost predicate Increasing(windows: seq<Span>) {
    forall i | 0 <= i < |windows| :: windows[i].begin < windows[i].end
  }

  datatype Sample = Sample(wall: int, read: int)

  function SampleSpans(samples: seq<Sample>): (spans: seq<Span>)
    requires samples != []
    ensures |spans| == |samples| - 1
  {
    seq(|samples| - 1, i requires 0 <= i < |samples| - 1 =>
      Span(samples[i].wall, samples[i + 1].wall + samples[i + 1].read))
  }

  /** active_intervals: which resource intervals the wall-clock observations prove. */
  method ActiveIntervals(samples: seq<Sample>, observed: seq<Row>, seconds: int, expected: Counts, workers: int)
    returns (r: Option<seq<bool>>)
    ensures r.Some? <==> WitnessAccepted(observed, seconds, workers) && |samples| == seconds + 1
                         && 0 < expected.links <= 512 && 0 < expected.maps <= 512 && 0 < expected.progs <= 512
                         && forall i | 0 <= i < seconds :: samples[i].wall < samples[i + 1].wall + samples[i + 1].read
    ensures r.Some? ==> |r.value| == seconds
    ensures r.Some? ==> forall i | 0 <= i < seconds ::
              r.value[i] <==> WallBracketed(observed, samples[i].wall, samples[i + 1].wall + samples[i + 1].read,
                                            expected, workers)
  {
    var bounds := ValidateWitness(observed, seconds, workers);
    if bounds.None? || |samples| != seconds + 1 {
      return None;
    }
    var signatures := ActiveSignatures(observed, expected, workers);
    if signatures.None? {
      return None;
    }
    var windows := SampleSpans(samples);
    r := BracketWindows(bounds.value.0, bounds.value.1, signatures.value, windows);
    if r.Some? {
      forall i | 0 <= i < seconds
        ensures r.value[i] <==>
                WallBracketed(observed, samples[i].wall, samples[i + 1].wall + samples[i + 1].read, expected, workers) {
        ProvenOnWall(observed, expected, workers, windows[i]);
      }
    }
  }

  /** operation_activity: the same for operations timed on the monotonic clock. */
  method OperationActivity(operations: seq<Span>, observed: seq<Row>, seconds: int, expected: Counts, workers: int)
    returns (r: Option<seq<bool>>)
    ensures r.Some? <==> WitnessAccepted(observed, seconds, workers)
                         && 0 < expected.links <= 512 && 0 < expected.maps <= 512 && 0 < expected.progs <= 512
                         && Increasing(operations)
    ensures r.Some? ==> |r.value| == |operations|
    ensures r.Some? ==> forall i | 0 <= i < |operations| ::
              r.value[i] <==> MonotonicBracketed(observed, operations[i].begin, operations[i].end, expected, workers)
  {
    var bounds := ValidateWitness(observed, seconds, workers);
    if bounds.None? {
      return None;
    }
    var signatures := ActiveSignatures(observed, expected, workers);
    if signatures.None? {
      return None;
    }
    r := BracketWindows(MonotonicStarts(observed), MonotonicEnds(observed), signatures.value, operations);
    if r.Some? {
      forall i | 0 <= i < |operations|
        ensures r.value[i] <==>
                MonotonicBracketed(observed, operations[i].begin, operations[i].end, expected, workers) {
        ProvenOnMonotonic(observed, expected, workers, operations[i]);
      }
    }
  }

  function MissedRow(index: int, elapsed: int, monotonic: int, read: int, uncertainty: int): Row {
    Row(1, index, elapsed, read, Unavailable, None,
        None, Clock(monotonic, 1_000_000_000 + elapsed + read + uncertainty, uncertainty), 0, 1)
  }

  /** The 580 ms bound is attained: no larger gap follows from the checks. */
  lemma {:induction false} GapAttained() returns (rows: seq<Row>)
    ensures WitnessAccepted(rows, 2, 1)
    ensures MonotonicStart(rows[2]) - MonotonicEnd(rows[1]) == 580_000_000
  {
    rows := [MissedRow(0, 0, 1_000_000_000, 1, 5_000_000),
             MissedRow(1, 1_100_000_000, 2_205_000_000, 1, 5_000_000),
             MissedRow(2, 2_000_000_000, 2_895_000_000, 100_000_000, 5_000_000)];
    assert RowAt(rows, 0, 1) && RowAt(rows, 1, 1) && RowAt(rows, 2, 1);
  }
}
