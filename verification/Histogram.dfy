/** Power-of-two wait histograms (scheduler_window.py). A histogram record is
    accepted exactly when some finite sequence of waits produces it. */
module Histogram {
  import opened Limits
  import opened Wrappers
  import opened Sums

  const BUCKETS: nat := 65
  const LIMIT: nat := 100_000_000

  datatype Range = Range(lower: nat, upper: nat)

  datatype Histogram = Histogram(buckets: seq<int>, count: int, sum: int, maximum: int)

  // ---------------------------------------------------------------- buckets

  function Pow2(n: nat): (p: nat)
    ensures 0 < p
  {
    if n == 0 then 1 else 2 * Pow2(n - 1)
  }

  /** Python's int.bit_length on a non-negative integer. */
  function BitLength(n: nat): nat {
    if n == 0 then 0 else 1 + BitLength(n / 2)
  }

  function Lower(k: nat): nat {
    if k == 0 then 0 else Pow2(k - 1)
  }

  function Upper(k: nat): nat {
    if k == 0 then 0 else Pow2(k) - 1
  }

  /** A number lies in the range of bucket k exactly when k is its bit length:
      the ranges tile the natural numbers. */
  lemma {:induction false} BucketExact(w: nat, k: nat)
    ensures Lower(k) <= w <= Upper(k) <==> BitLength(w) == k
  {
    if w != 0 && k > 1 {
      BucketExact(w / 2, k - 1);
    }
  }

  lemma {:induction false} LowerMonotone(j: nat, k: nat)
    requires j <= k
    ensures Lower(j) <= Lower(k)
    ensures j < k ==> Upper(j) < Lower(k)
  {
    if j < k {
      LowerMonotone(j, k - 1);
    }
  }

  lemma {:induction false} BitLengthMonotone(v: nat, w: nat)
    requires v <= w
    ensures BitLength(v) <= BitLength(w)
  {
    BucketExact(v, BitLength(v));
    BucketExact(w, BitLength(w));
    if BitLength(w) < BitLength(v) {
      LowerMonotone(BitLength(w), BitLength(v));
    }
  }

  method BucketBounds(index: int) returns (r: Option<Range>)
    ensures r.None? <==> !(0 <= index < BUCKETS)
    ensures r.Some? ==> forall w: nat :: r.value.lower <= w <= r.value.upper <==> BitLength(w) == index
    ensures r.Some? ==> r.value == Range(Lower(index), Upper(index))
  {
    if !(0 <= index <= 64) {
      return None;
    }
    forall w: nat ensures Lower(index) <= w <= Upper(index) <==> BitLength(w) == index {
      BucketExact(w, index);
    }
    r := Some(if index == 0 then Range(0, 0) else Range(Pow2(index - 1), Pow2(index) - 1));
  }

  // ------------------------------------------------- waits and their buckets

  function Count(ws: seq<nat>, k: nat): nat {
    if ws == [] then 0 else (if BitLength(ws[0]) == k then 1 else 0) + Count(ws[1..], k)
  }

  ghost predicate Buckets(buckets: seq<int>) {
    && |buckets| == BUCKETS
    && forall k | 0 <= k < |buckets| :: 0 <= buckets[k]
  }

  /** The waits fall into exactly these buckets, and none falls outside them. */
  ghost predicate Fits(ws: seq<nat>, buckets: seq<int>) {
    && |buckets| == BUCKETS
    && (forall k | 0 <= k < BUCKETS :: FitsAt(ws, buckets, k))
    && (forall w | w in ws :: BitLength(w) < BUCKETS)
  }

  ghost predicate FitsAt(ws: seq<nat>, buckets: seq<int>, k: nat)
    requires k < |buckets|
  {
    buckets[k] == Count(ws, k)
  }

  lemma {:induction false} FitsCounts(ws: seq<nat>, buckets: seq<int>)
    requires Fits(ws, buckets)
    ensures Buckets(buckets) && forall k | 0 <= k < BUCKETS :: buckets[k] == Count(ws, k)
  {
    forall k | 0 <= k < BUCKETS ensures buckets[k] == Count(ws, k) {
      assert FitsAt(ws, buckets, k);
    }
  }

  /** The record is what a meter that saw exactly these waits reports. */
  ghost predicate Explains(ws: seq<nat>, h: Histogram) {
    Fits(ws, h.buckets) && h.count == |ws| && h.sum == Sum(ws) && h.maximum == Max(ws)
  }

  lemma {:induction false} CountConcat(xs: seq<nat>, ys: seq<nat>, k: nat)
    ensures Count(xs + ys, k) == Count(xs, k) + Count(ys, k)
  {
    if xs == [] {
      assert xs + ys == ys;
    } else {
      assert (xs + ys)[1..] == xs[1..] + ys;
      CountConcat(xs[1..], ys, k);
    }
  }

  lemma {:induction false} CountSame(ws: seq<nat>, j: nat, k: nat)
    requires forall w | w in ws :: BitLength(w) == j
    ensures Count(ws, k) == if j == k then |ws| else 0
  {
    if ws != [] {
      CountSame(ws[1..], j, k);
    }
  }

  function Plus(a: seq<int>, b: seq<int>): (c: seq<int>)
    requires |a| == |b|
    ensures |c| == |a|
  {
    seq(|a|, k requires 0 <= k < |a| => a[k] + b[k])
  }

  lemma {:induction false} FitsConcat(xs: seq<nat>, a: seq<int>, ys: seq<nat>, b: seq<int>)
    requires Fits(xs, a) && |b| == BUCKETS
    requires forall w | w in ys :: BitLength(w) < BUCKETS
    ensures Fits(ys, b) <==> Fits(xs + ys, Plus(a, b))
  {
    forall k: nat | k < BUCKETS ensures FitsAt(ys, b, k) <==> FitsAt(xs + ys, Plus(a, b), k) {
      CountConcat(xs, ys, k);
      assert FitsAt(xs, a, k);
    }
    assert forall w | w in xs + ys :: w in xs || w in ys;
  }

  /** Buckets of one wait more. */
  function Bump(buckets: seq<int>, k: nat): seq<int>
    requires k < |buckets|
  {
    buckets[k := buckets[k] + 1]
  }

  lemma {:induction false} FitsOne(w: nat, ws: seq<nat>, buckets: seq<int>)
    requires |buckets| == BUCKETS && BitLength(w) < BUCKETS
    ensures Fits([w] + ws, Bump(buckets, BitLength(w))) <==> Fits(ws, buckets)
    ensures Fits(ws + [w], Bump(buckets, BitLength(w))) <==> Fits(ws, buckets)
  {
    var c := Bump(buckets, BitLength(w));
    forall k: nat | k < BUCKETS
      ensures FitsAt([w] + ws, c, k) <==> FitsAt(ws, buckets, k)
      ensures FitsAt(ws + [w], c, k) <==> FitsAt(ws, buckets, k)
    {
      CountConcat([w], ws, k);
      CountConcat(ws, [w], k);
      CountSame([w], BitLength(w), k);
    }
    assert forall v | v in ws :: v in [w] + ws && v in ws + [w];
  }

  // --------------------------------------------------- extreme sums per bucket

  function Cap(k: nat, maximum: int): int {
    if Upper(k) < maximum then Upper(k) else maximum
  }

  function LowSum(buckets: seq<int>, n: nat): int
    requires n <= |buckets|
  {
    if n == 0 then 0 else LowSum(buckets, n - 1) + buckets[n - 1] * Lower(n - 1)
  }

  function HighSum(buckets: seq<int>, maximum: int, n: nat): int
    requires n <= |buckets|
  {
    if n == 0 then 0 else HighSum(buckets, maximum, n - 1) + buckets[n - 1] * Cap(n - 1, maximum)
  }

  lemma {:induction false} BumpSums(buckets: seq<int>, k: nat, maximum: int, n: nat)
    requires k < |buckets| && n <= |buckets|
    ensures LowSum(Bump(buckets, k), n) == LowSum(buckets, n) + if k < n then Lower(k) else 0
    ensures HighSum(Bump(buckets, k), maximum, n) == HighSum(buckets, maximum, n) + if k < n then Cap(k, maximum) else 0
    ensures Sum(Bump(buckets, k)[..n]) == Sum(buckets[..n]) + if k < n then 1 else 0
  {
    if n > 0 {
      BumpSums(buckets, k, maximum, n - 1);
      SumPrefixStep(buckets, n - 1);
      SumPrefixStep(Bump(buckets, k), n - 1);
      if k == n - 1 {
        Distribute(buckets[k], Lower(k));
        Distribute(buckets[k], Cap(k, maximum));
      }
    }
  }

  /** Waits no longer than the maximum sum to something between the two
      extremes of their buckets, and number as many as their buckets hold. */
  lemma {:induction false} SumsOfWaits(ws: seq<nat>, buckets: seq<int>, maximum: nat)
    requires Fits(ws, buckets)
    requires forall w | w in ws :: w <= maximum
    ensures LowSum(buckets, BUCKETS) <= Sum(ws) <= HighSum(buckets, maximum, BUCKETS)
    ensures Sum(buckets) == |ws|
  {
    assert buckets[..BUCKETS] == buckets;
    FitsCounts(ws, buckets);
    if ws == [] {
      EmptySums(buckets, maximum, BUCKETS);
    } else {
      var w, k := ws[0], BitLength(ws[0]);
      var rest := buckets[k := buckets[k] - 1];
      assert Bump(rest, k) == buckets && [w] + ws[1..] == ws && rest[..BUCKETS] == rest;
      FitsOne(w, ws[1..], rest);
      assert w in ws && forall v | v in ws[1..] :: v in ws;
      SumsOfWaits(ws[1..], rest, maximum);
      BumpSums(rest, k, maximum, BUCKETS);
      BucketExact(w, k);
    }
  }

  lemma {:induction false} EmptySums(buckets: seq<int>, maximum: int, n: nat)
    requires n <= |buckets|
    requires forall k | 0 <= k < n :: buckets[k] == 0
    ensures LowSum(buckets, n) == HighSum(buckets, maximum, n) == Sum(buckets[..n]) == 0
  {
    if n > 0 {
      EmptySums(buckets, maximum, n - 1);
      SumPrefixStep(buckets, n - 1);
    }
  }

  /** As above when one of the waits is the maximum itself. */
  lemma {:induction false} SumsWithMaximum(ws: seq<nat>, buckets: seq<int>, maximum: nat)
    requires Fits(ws, buckets)
    requires maximum in ws && forall w | w in ws :: w <= maximum
    ensures BitLength(maximum) < BUCKETS && buckets[BitLength(maximum)] > 0
    ensures LowSum(buckets, BUCKETS) + maximum - Lower(BitLength(maximum)) <= Sum(ws)
  {
    var i :| 0 <= i < |ws| && ws[i] == maximum;
    var k := BitLength(maximum);
    var others := ws[..i] + ws[i + 1..];
    var rest := buckets[k := buckets[k] - 1];
    assert Bump(rest, k) == buckets;
    Front(ws, i, buckets);
    FitsOne(maximum, others, rest);
    OthersBounded(ws, i, others, maximum);
    SumsOfWaits(others, rest, maximum);
    BumpSums(rest, k, maximum, BUCKETS);
    FitsCounts(others, rest);
  }

  lemma {:induction false} OthersBounded(ws: seq<nat>, i: nat, others: seq<nat>, maximum: nat)
    requires i < |ws| && others == ws[..i] + ws[i + 1..]
    requires forall w | w in ws :: w <= maximum
    ensures forall w | w in others :: w <= maximum
  {
    forall w | w in others ensures w <= maximum {
      assert w in ws;
    }
  }

  lemma {:induction false} CountFront(ws: seq<nat>, i: nat, k: nat)
    requires i < |ws|
    ensures Count(ws, k) == Count([ws[i]] + (ws[..i] + ws[i + 1..]), k)
  {
    var a, b, c := ws[..i], [ws[i]], ws[i + 1..];
    assert ws == a + (b + c);
    CountConcat(a, b + c, k);
    CountConcat(b, c, k);
    CountConcat(b, a + c, k);
    CountConcat(a, c, k);
  }

  /** Moving one wait to the front changes neither the buckets nor the sum. */
  lemma {:induction false} Front(ws: seq<nat>, i: nat, buckets: seq<int>)
    requires i < |ws| && Fits(ws, buckets)
    ensures Fits([ws[i]] + (ws[..i] + ws[i + 1..]), buckets)
    ensures Sum(ws) == ws[i] + Sum(ws[..i] + ws[i + 1..])
  {
    var a, b, c := ws[..i], [ws[i]], ws[i + 1..];
    forall k: nat | k < BUCKETS ensures FitsAt(b + (a + c), buckets, k) {
      CountFront(ws, i, k);
      assert FitsAt(ws, buckets, k);
    }
    forall w | w in b + (a + c) ensures BitLength(w) < BUCKETS {
      assert w in ws;
    }
    SumFront(ws, i);
  }

  lemma {:induction false} SumFront(ws: seq<nat>, i: nat)
    requires i < |ws|
    ensures Sum(ws) == ws[i] + Sum(ws[..i] + ws[i + 1..])
  {
    var a, b, c := ws[..i], [ws[i]], ws[i + 1..];
    assert ws == a + (b + c);
    SumConcat(a, b + c);
    SumConcat(b, c);
    SumConcat(a, c);
  }

  // ---------------------------------------------------------- realisability

  /** Only buckets up to the maximum's own are occupied. */
  ghost predicate Reachable(buckets: seq<int>, maximum: nat) {
    && Buckets(buckets)
    && forall k | 0 <= k < BUCKETS && 0 < buckets[k] :: k <= BitLength(maximum)
  }

  /** The bucket of each wait, bucket by bucket, for the first n buckets. */
  function Slots(buckets: seq<int>, n: nat): seq<nat>
    requires n <= |buckets| && forall k | 0 <= k < |buckets| :: 0 <= buckets[k]
  {
    if n == 0 then [] else Slots(buckets, n - 1) + seq(buckets[n - 1], _ => n - 1)
  }

  function Lows(slots: seq<nat>): seq<int> {
    seq(|slots|, i requires 0 <= i < |slots| => Lower(slots[i]))
  }

  function Caps(slots: seq<nat>, maximum: int): seq<int> {
    seq(|slots|, i requires 0 <= i < |slots| => Cap(slots[i], maximum))
  }

  lemma {:induction false} SlotSums(buckets: seq<int>, maximum: nat, n: nat)
    requires Buckets(buckets) && n <= BUCKETS
    ensures Sum(Lows(Slots(buckets, n))) == LowSum(buckets, n)
    ensures Sum(Caps(Slots(buckets, n), maximum)) == HighSum(buckets, maximum, n)
    ensures |Slots(buckets, n)| == Sum(buckets[..n])
  {
    if n > 0 {
      SlotSums(buckets, maximum, n - 1);
      var slots, c := Slots(buckets, n - 1), buckets[n - 1];
      SumPrefixStep(buckets, n - 1);
      assert Lows(Slots(buckets, n)) == Lows(slots) + Repeat(Lower(n - 1), c);
      assert Caps(Slots(buckets, n), maximum) == Caps(slots, maximum) + Repeat(Cap(n - 1, maximum), c);
      SumConcat(Lows(slots), Repeat(Lower(n - 1), c));
      SumConcat(Caps(slots, maximum), Repeat(Cap(n - 1, maximum), c));
      SumRepeat(Lower(n - 1), c);
      SumRepeat(Cap(n - 1, maximum), c);
    }
  }

  lemma {:induction false} SlotCounts(buckets: seq<int>, n: nat, k: nat)
    requires Buckets(buckets) && n <= BUCKETS
    ensures multiset(Slots(buckets, n))[k] == if k < n then buckets[k] else 0
  {
    if n > 0 {
      SlotCounts(buckets, n - 1, k);
      RepeatMultiset(n - 1, buckets[n - 1], k);
    }
  }

  lemma {:induction false} SlotRange(buckets: seq<int>, n: nat)
    requires Buckets(buckets) && n <= BUCKETS
    ensures forall i | 0 <= i < |Slots(buckets, n)| ::
              Slots(buckets, n)[i] < n && 0 < buckets[Slots(buckets, n)[i]]
  {
    if n > 0 {
      SlotRange(buckets, n - 1);
    }
  }

  lemma {:induction false} RepeatMultiset(x: nat, c: nat, k: nat)
    ensures multiset(seq(c, _ => x))[k] == if k == x then c else 0
  {
    if c > 0 {
      assert seq(c, _ => x) == [x] + seq(c - 1, _ => x);
      RepeatMultiset(x, c - 1, k);
    }
  }

  lemma {:induction false} CountSlots(ws: seq<nat>, slots: seq<nat>, k: nat)
    requires |ws| == |slots| && forall i | 0 <= i < |ws| :: BitLength(ws[i]) == slots[i]
    ensures Count(ws, k) == multiset(slots)[k]
  {
    if ws != [] {
      assert slots == [slots[0]] + slots[1..];
      CountSlots(ws[1..], slots[1..], k);
    }
  }

  /** Every sum between the extremes is attained by waits in those buckets that
      do not exceed the maximum. */
  lemma {:induction false} Realise(buckets: seq<int>, maximum: nat, total: int) returns (ws: seq<nat>)
    requires Reachable(buckets, maximum)
    requires LowSum(buckets, BUCKETS) <= total <= HighSum(buckets, maximum, BUCKETS)
    ensures Fits(ws, buckets) && Sum(ws) == total && |ws| == Sum(buckets)
    ensures forall w | w in ws :: w <= maximum
  {
    assert buckets[..BUCKETS] == buckets;
    SlotSums(buckets, maximum, BUCKETS);
    SlotRange(buckets, BUCKETS);
    var slots := Slots(buckets, BUCKETS);
    BucketExact(maximum, BitLength(maximum));
    forall i | 0 <= i < |slots| ensures 0 <= Lower(slots[i]) <= Cap(slots[i], maximum) <= maximum {
      LowerMonotone(slots[i], BitLength(maximum));
      BucketExact(Lower(slots[i]), slots[i]);
    }
    var xs := Fill(Lows(slots), Caps(slots, maximum), total);
    forall i | 0 <= i < |xs| ensures 0 <= xs[i] <= maximum && BitLength(xs[i]) == slots[i] {
      assert Lows(slots)[i] <= xs[i] <= Caps(slots, maximum)[i];
      BucketExact(xs[i], slots[i]);
    }
    ws := xs;
    forall k: nat ensures Count(ws, k) == multiset(slots)[k] {
      CountSlots(ws, slots, k);
    }
    forall k: nat | k < BUCKETS ensures FitsAt(ws, buckets, k) {
      SlotCounts(buckets, BUCKETS, k);
    }
  }

  /** As above with one wait pinned to the maximum. */
  lemma {:induction false} RealiseMaximum(buckets: seq<int>, maximum: nat, total: int) returns (ws: seq<nat>)
    requires Reachable(buckets, maximum)
    requires BitLength(maximum) < BUCKETS && buckets[BitLength(maximum)] > 0
    requires LowSum(buckets, BUCKETS) + maximum - Lower(BitLength(maximum)) <= total
    requires total <= HighSum(buckets, maximum, BUCKETS)
    ensures Fits(ws, buckets) && Sum(ws) == total && |ws| == Sum(buckets)
    ensures maximum in ws && Max(ws) == maximum
  {
    var k := BitLength(maximum);
    var rest := buckets[k := buckets[k] - 1];
    assert Bump(rest, k) == buckets && rest[..BUCKETS] == rest && buckets[..BUCKETS] == buckets;
    BumpSums(rest, k, maximum, BUCKETS);
    BucketExact(maximum, k);
    var others := Realise(rest, maximum, total - maximum);
    FitsOne(maximum, others, rest);
    ws := [maximum] + others;
    MaxUnique(ws, maximum);
  }

  // -------------------------------------------------------- the source's check

  /** The largest index below n whose bucket is occupied. */
  function Highest(buckets: seq<int>, n: nat): int
    requires n <= |buckets|
  {
    if n == 0 then -1 else if buckets[n - 1] != 0 then n - 1 else Highest(buckets, n - 1)
  }

  lemma {:induction false} HighestIsMax(buckets: seq<int>, n: nat)
    requires n <= |buckets|
    ensures var m := Highest(buckets, n);
            && -1 <= m < n
            && (0 <= m ==> buckets[m] != 0)
            && forall k | m < k < n :: buckets[k] == 0
  {
    if n > 0 {
      HighestIsMax(buckets, n - 1);
    }
  }

  function SumBounds(buckets: seq<int>, maximum: int, observedMaximum: bool): (int, int)
    requires |buckets| == BUCKETS && 0 <= maximum
  {
    (LowSum(buckets, BUCKETS) + (if observedMaximum then maximum - Lower(BitLength(maximum)) else 0),
     HighSum(buckets, maximum, BUCKETS))
  }

  method ComputeSumBounds(buckets: seq<int>, maximum: int, observedMaximum: bool) returns (low: int, high: int)
    requires |buckets| == BUCKETS && 0 <= maximum
    ensures (low, high) == SumBounds(buckets, maximum, observedMaximum)
  {
    low, high := 0, 0;
    for index := 0 to |buckets|
      invariant low == LowSum(buckets, index) && high == HighSum(buckets, maximum, index)
    {
      low := low + buckets[index] * Lower(index);
      high := high + buckets[index] * (if Upper(index) < maximum then Upper(index) else maximum);
    }
    if observedMaximum {
      low := low + maximum - Lower(BitLength(maximum));
    }
  }

  /** Every require of the source's histogram function, in its order. */
  ghost predicate Accepted(h: Histogram, elapsed: int) {
    && |h.buckets| == BUCKETS
    && (forall k | 0 <= k < BUCKETS :: 0 <= h.buckets[k] <= LIMIT)
    && 0 <= h.count <= LIMIT
    && Sum(h.buckets) == h.count
    && 0 <= h.sum <= U64_MAX
    && 0 <= h.maximum <= elapsed
    && if h.count == 0 then h.sum == 0 && h.maximum == 0
       else
         && BitLength(h.maximum) == Highest(h.buckets, BUCKETS)
         && var (low, high) := SumBounds(h.buckets, h.maximum, true);
            low <= h.sum <= high
  }

  ghost predicate Realisable(h: Histogram, elapsed: int) {
    exists ws: seq<nat> :: Explains(ws, h) && Max(ws) <= elapsed
  }

  lemma {:induction false} OccupiedBucketBelowSum(buckets: seq<int>, k: nat)
    requires forall i | 0 <= i < |buckets| :: 0 <= buckets[i]
    requires k < |buckets|
    ensures buckets[k] <= Sum(buckets)
  {
    PrefixSums(buckets, 0, k);
    PrefixSums(buckets, k + 1, |buckets|);
    SumPrefixStep(buckets, k);
    assert buckets[..|buckets|] == buckets;
  }

  lemma {:induction false} AcceptedIsRealisable(h: Histogram, elapsed: int) returns (ws: seq<nat>)
    requires Accepted(h, elapsed)
    ensures Explains(ws, h)
  {
    HighestIsMax(h.buckets, BUCKETS);
    if h.count == 0 {
      ws := [];
      forall k: nat | k < BUCKETS ensures FitsAt([], h.buckets, k) {
        OccupiedBucketBelowSum(h.buckets, k);
      }
    } else {
      ws := RealiseMaximum(h.buckets, h.maximum, h.sum);
    }
  }

  lemma {:induction false} RealisableIsAccepted(ws: seq<nat>, h: Histogram, elapsed: int)
    requires Explains(ws, h) && Max(ws) <= elapsed
    requires h.count <= LIMIT && h.sum <= U64_MAX
    ensures Accepted(h, elapsed)
  {
    FitsCounts(ws, h.buckets);
    MaxIsGreatest(ws);
    NonNegative(ws);
    SumsOfWaits(ws, h.buckets, h.maximum);
    forall k | 0 <= k < BUCKETS ensures 0 <= h.buckets[k] <= LIMIT {
      OccupiedBucketBelowSum(h.buckets, k);
    }
    if ws != [] {
      SumsWithMaximum(ws, h.buckets, h.maximum);
      HighestIsMax(h.buckets, BUCKETS);
      var m := Highest(h.buckets, BUCKETS);
      assert m >= BitLength(h.maximum);
      if m > BitLength(h.maximum) {
        NoneAbove(ws, h.maximum, m);
      }
    }
  }

  lemma {:induction false} NoneAbove(ws: seq<nat>, maximum: nat, k: nat)
    requires forall w | w in ws :: w <= maximum
    requires BitLength(maximum) < k
    ensures Count(ws, k) == 0
  {
    if ws != [] {
      assert ws[0] in ws && forall w | w in ws[1..] :: w in ws;
      BitLengthMonotone(ws[0], maximum);
      NoneAbove(ws[1..], maximum, k);
    }
  }

  /** The source's histogram function: it accepts a record exactly when, within
      the count and 64-bit limits, some waits of at most the elapsed time
      produce those buckets, that count, that sum and that maximum. */
  method CheckHistogram(h: Histogram, elapsed: int) returns (ok: bool)
    ensures ok <==> Accepted(h, elapsed)
    ensures ok <==> h.count <= LIMIT && h.sum <= U64_MAX && Realisable(h, elapsed)
  {
    ghost var exact := h.count <= LIMIT && h.sum <= U64_MAX && Realisable(h, elapsed);
    assert exact <==> Accepted(h, elapsed) by {
      if exact {
        var ws: seq<nat> :| Explains(ws, h) && Max(ws) <= elapsed;
        RealisableIsAccepted(ws, h, elapsed);
      }
      if Accepted(h, elapsed) {
        var ws := AcceptedIsRealisable(h, elapsed);
      }
    }
    if |h.buckets| != 65 || exists k | 0 <= k < |h.buckets| :: !(0 <= h.buckets[k] <= LIMIT) {
      return false;
    }
    if !(0 <= h.count <= LIMIT) || Sum(h.buckets) != h.count || !(0 <= h.sum <= U64_MAX)
       || !(0 <= h.maximum <= elapsed) {
      return false;
    }
    if h.count == 0 {
      return h.sum == 0 && h.maximum == 0;
    }
    if BitLength(h.maximum) != Highest(h.buckets, 65) {
      return false;
    }
    var low, high := ComputeSumBounds(h.buckets, h.maximum, true);
    return low <= h.sum <= high;
  }
}
