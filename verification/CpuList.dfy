/** The CPU roster parser (scheduler_capture.py) and a printer it inverts. */
module CpuList {
  import opened Wrappers

  /** The CPUs first, first + 1, ... last. */
  datatype Span = Span(first: nat, last: nat)

  // ----------------------------------------------------------------- the text

  /** str.split(','). */
  function Split(s: string): (parts: seq<string>)
    ensures parts != []
  {
    if s == "" then [""]
    else
      var rest := Split(s[1..]);
      if s[0] == ',' then [""] + rest else [[s[0]] + rest[0]] + rest[1..]
  }

  function Join(parts: seq<string>): string {
    if parts == [] then ""
    else if |parts| == 1 then parts[0]
    else parts[0] + "," + Join(parts[1..])
  }

  predicate Digits(s: string) {
    s != "" && forall i | 0 <= i < |s| :: '0' <= s[i] <= '9'
  }

  function DigitValue(c: char): nat {
    if '0' <= c <= '9' then c as int - '0' as int else 0
  }

  /** int() of a string of digits. */
  function Number(s: string): nat {
    if s == "" then 0 else Number(s[..|s| - 1]) * 10 + DigitValue(s[|s| - 1])
  }

  /** Where the first dash is, or the length. */
  function Dash(s: string): (k: nat)
    ensures k <= |s|
  {
    if s == "" || s[0] == '-' then 0 else 1 + Dash(s[1..])
  }

  /** [0-9]+(?:-[0-9]+)? */
  predicate Shape(part: string) {
    var k := Dash(part);
    if k == |part| then Digits(part) else Digits(part[..k]) && Digits(part[k + 1..])
  }

  function SpanOf(part: string): Span {
    var k := Dash(part);
    if k == |part| then Span(Number(part), Number(part)) else Span(Number(part[..k]), Number(part[k + 1..]))
  }

  predicate PartOk(part: string) {
    var span := SpanOf(part);
    Shape(part) && span.first <= span.last <= 4095 && (Dash(part) < |part| ==> span.first < span.last)
  }

  // ---------------------------------------------------------------- the parser

  function Range(span: Span): (s: seq<nat>)
    ensures span.first <= span.last ==> |s| == span.last - span.first + 1
  {
    if span.first <= span.last then seq(span.last - span.first + 1, i requires 0 <= i => span.first + i) else []
  }

  /** The CPUs of the spans, one span after the other. */
  function Cpus(spans: seq<Span>): seq<nat> {
    if spans == [] then [] else Cpus(spans[..|spans| - 1]) + Range(spans[|spans| - 1])
  }

  function ReadPart(part: string): Option<Span> {
    if PartOk(part) then Some(SpanOf(part)) else None
  }

  function Reads(parts: seq<string>): (s: seq<Option<Span>>)
    ensures |s| == |parts|
  {
    seq(|parts|, i requires 0 <= i < |parts| => ReadPart(parts[i]))
  }

  /** The spans read, or nothing when some part is not a CPU or a range. */
  function Gather(results: seq<Option<Span>>): (s: Option<seq<Span>>)
    ensures s.Some? ==> |s.value| == |results|
  {
    if results == [] then Some([]) else
      var front, last := Gather(results[..|results| - 1]), results[|results| - 1];
      if front.Some? && last.Some? then Some(front.value + [last.value]) else None
  }

  predicate After(spans: seq<Span>, i: nat) {
    0 < i < |spans| && spans[i - 1].last < spans[i].first
  }

  /** The spans ascend, and together they are at most 64 CPUs. */
  ghost predicate SpansOk(spans: seq<Span>) {
    (forall i | 0 < i < |spans| :: After(spans, i)) && |Cpus(spans)| <= 64
  }

  ghost predicate ListOk(results: seq<Option<Span>>) {
    Gather(results).Some? && SpansOk(Gather(results).value)
  }

  ghost predicate Accepted(value: string) {
    0 < |value| <= 512 && ListOk(Reads(Split(value)))
  }

  function Roster(value: string): seq<nat> {
    var spans := Gather(Reads(Split(value)));
    if spans.Some? then Cpus(spans.value) else []
  }

  lemma {:induction false} CpusSnoc(front: seq<Span>, span: Span)
    ensures Cpus(front + [span]) == Cpus(front) + Range(span)
  {
    assert (front + [span])[..|front|] == front;
  }

  lemma {:induction false} CpusGrow(spans: seq<Span>, n: nat)
    requires n <= |spans|
    ensures |Cpus(spans[..n])| <= |Cpus(spans)|
    decreases |spans|
  {
    if n < |spans| {
      var front := spans[..|spans| - 1];
      assert front[..n] == spans[..n];
      CpusGrow(front, n);
    } else {
      assert spans[..n] == spans;
    }
  }

  /** One pass of the loop of cpu_count over the CPUs read so far. */
  method ParsePart(part: string, cpus: seq<nat>) returns (r: Option<seq<nat>>)
    requires |cpus| <= 64
    ensures r.Some? <==> PartOk(part) && |cpus| + |Range(SpanOf(part))| <= 64
                         && (cpus != [] ==> cpus[|cpus| - 1] < SpanOf(part).first)
    ensures r.Some? ==> r.value == cpus + Range(SpanOf(part))
  {
    if !Shape(part) {
      return None;
    }
    var span := SpanOf(part);
    if !(span.first <= span.last <= 4095 && (Dash(part) == |part| || span.first < span.last)
         && span.last - span.first + 1 <= 64 - |cpus|) {
      return None;
    }
    if cpus != [] && span.first <= cpus[|cpus| - 1] {
      return None;
    }
    return Some(cpus + Range(span));
  }

  lemma {:induction false} GatherPrefix(results: seq<Option<Span>>, n: nat)
    requires n <= |results| && Gather(results).Some?
    ensures Gather(results[..n]) == Some(Gather(results).value[..n])
    decreases |results|
  {
    if n < |results| {
      var front := results[..|results| - 1];
      GatherPrefix(front, n);
      assert front[..n] == results[..n];
      assert Gather(results).value[..n] == Gather(front).value[..n];
    } else {
      assert results[..n] == results && Gather(results).value[..n] == Gather(results).value;
    }
  }

  lemma {:induction false} PrefixOk(spans: seq<Span>, n: nat)
    requires n <= |spans| && SpansOk(spans)
    ensures SpansOk(spans[..n])
  {
    CpusGrow(spans, n);
    forall i | 0 < i < n ensures After(spans[..n], i) {
      assert After(spans, i);
    }
  }

  lemma {:induction false} SpansOkSnoc(front: seq<Span>, span: Span)
    requires SpansOk(front)
    ensures SpansOk(front + [span]) <==>
            |Cpus(front)| + |Range(span)| <= 64 && (front != [] ==> front[|front| - 1].last < span.first)
  {
    CpusSnoc(front, span);
    var spans := front + [span];
    forall i | 0 < i < |front| ensures After(spans, i) {
      assert After(front, i);
    }
    if SpansOk(spans) && front != [] {
      assert After(spans, |front|);
    }
  }

  lemma {:induction false} GatherSnoc(front: seq<Option<Span>>, last: Option<Span>)
    ensures Gather(front + [last]) ==
            if Gather(front).Some? && last.Some? then Some(Gather(front).value + [last.value]) else None
  {
    assert (front + [last])[..|front|] == front;
  }

  /** An accepted list is accepted as far as any part of it. */
  lemma {:induction false} ListOkPrefix(results: seq<Option<Span>>, n: nat)
    requires n <= |results| && ListOk(results)
    ensures ListOk(results[..n])
  {
    GatherPrefix(results, n);
    PrefixOk(Gather(results).value, n);
  }

  /** What the next part must be for the list to be read that far, and all of it. */
  lemma {:induction false} ListOkSnoc(results: seq<Option<Span>>, index: nat, spans: seq<Span>)
    requires index < |results| && Gather(results[..index]) == Some(spans)
    ensures results[index].Some? ==> Gather(results[..index + 1]) == Some(spans + [results[index].value])
    ensures ListOk(results) ==> results[index].Some? && SpansOk(spans + [results[index].value])
  {
    assert results[..index + 1] == results[..index] + [results[index]];
    GatherSnoc(results[..index], results[index]);
    if ListOk(results) {
      ListOkPrefix(results, index + 1);
    }
  }

  predicate ReadsTo(parts: seq<string>, results: seq<Option<Span>>, i: nat) {
    i < |parts| && i < |results| && results[i] == ReadPart(parts[i])
  }

  /** The CPUs read so far are those of the spans, and the last CPU the last span's. */
  ghost predicate ReadSo(cpus: seq<nat>, spans: seq<Span>) {
    && SpansOk(spans) && cpus == Cpus(spans)
    && if spans == [] then cpus == [] else cpus != [] && cpus[|cpus| - 1] == spans[|spans| - 1].last
  }

  lemma {:induction false} ReadOn(cpus: seq<nat>, spans: seq<Span>, span: Span)
    requires ReadSo(cpus, spans) && span.first <= span.last
    ensures SpansOk(spans + [span]) <==>
            |cpus| + |Range(span)| <= 64 && (cpus != [] ==> cpus[|cpus| - 1] < span.first)
    ensures SpansOk(spans + [span]) ==> ReadSo(cpus + Range(span), spans + [span])
  {
    SpansOkSnoc(spans, span);
    CpusSnoc(spans, span);
  }

  /** One pass of the loop of cpu_count, over parts that read to these results. */
  method ParseNext(parts: seq<string>, index: nat, cpus: seq<nat>,
                   ghost results: seq<Option<Span>>, ghost spans: seq<Span>)
    returns (r: Option<seq<nat>>, ghost more: seq<Span>)
    requires index < |parts| == |results| && ReadsTo(parts, results, index)
    requires Gather(results[..index]) == Some(spans) && ReadSo(cpus, spans)
    ensures r.Some? ==> Gather(results[..index + 1]) == Some(more) && ReadSo(r.value, more)
    ensures r.None? ==> !ListOk(results)
  {
    more := spans + [SpanOf(parts[index])];
    ListOkSnoc(results, index, spans);
    if PartOk(parts[index]) {
      ReadOn(cpus, spans, SpanOf(parts[index]));
    }
    r := ParsePart(parts[index], cpus);
  }

  /** The loop of cpu_count. */
  method ParseParts(parts: seq<string>, ghost results: seq<Option<Span>>) returns (ok: bool, cpus: seq<nat>)
    requires |results| == |parts| && forall i | 0 <= i < |parts| :: ReadsTo(parts, results, i)
    ensures ok <==> ListOk(results)
    ensures ok ==> cpus == Cpus(Gather(results).value)
  {
    cpus := [];
    ghost var spans: seq<Span> := [];
    for index := 0 to |parts|
      invariant Gather(results[..index]) == Some(spans) && ReadSo(cpus, spans)
    {
      assert ReadsTo(parts, results, index);
      var read;
      read, spans := ParseNext(parts, index, cpus, results, spans);
      if read.None? {
        return false, [];
      }
      cpus := read.value;
    }
    assert results[..|parts|] == results;
    return true, cpus;
  }

  /** cpu_count. */
  method CpuCount(value: string) returns (r: Option<nat>)
    ensures r.Some? <==> Accepted(value)
    ensures r.Some? ==> r.value == |Roster(value)|
    ensures r.Some? <==> 0 < |value| <= 512 && exists tokens: seq<Token>, cpus: seq<nat> :: Lists(value, tokens, cpus)
    ensures forall tokens: seq<Token>, cpus: seq<nat> | r.Some? && Lists(value, tokens, cpus) :: r.value == |cpus|
  {
    AcceptedExact(value);
    forall tokens: seq<Token>, cpus: seq<nat> | 0 < |value| <= 512 && Lists(value, tokens, cpus)
      ensures Roster(value) == cpus {
      ListsIsAccepted(value, tokens, cpus);
    }
    if !(0 < |value| <= 512) {
      return None;
    }
    var parts := Split(value);
    ghost var results := Reads(parts);
    forall i | 0 <= i < |parts| ensures ReadsTo(parts, results, i) {
    }
    var ok, cpus := ParseParts(parts, results);
    return if ok then Some(|cpus|) else None;
  }

  // -------------------------------------------------------- what is accepted

  predicate Increasing(cpus: seq<nat>) {
    forall i | 0 < i < |cpus| :: cpus[i - 1] < cpus[i]
  }

  predicate Low(cpus: seq<nat>) {
    forall i | 0 <= i < |cpus| :: cpus[i] <= 4095
  }

  /** A set of at most 64 CPUs in 0..4095, in order. */
  predicate CpuSet(cpus: seq<nat>) {
    1 <= |cpus| <= 64 && Increasing(cpus) && Low(cpus)
  }

  predicate ProperAt(spans: seq<Span>, i: nat) {
    i < |spans| && spans[i].first <= spans[i].last <= 4095
  }

  lemma {:induction false} AppendIncreases(cpus: seq<nat>, span: Span)
    requires Increasing(cpus) && Low(cpus) && span.first <= span.last <= 4095
    requires cpus != [] ==> cpus[|cpus| - 1] < span.first
    ensures var more := cpus + Range(span);
            Increasing(more) && Low(more) && more != [] && more[|more| - 1] == span.last
  {
    var more, range := cpus + Range(span), Range(span);
    forall i | 0 < i < |more| ensures more[i - 1] < more[i] {
      if i > |cpus| {
        assert more[i - 1] == range[i - 1 - |cpus|] && more[i] == range[i - |cpus|];
      }
    }
  }

  lemma {:induction false} CpusIncrease(spans: seq<Span>)
    requires forall i | 0 <= i < |spans| :: ProperAt(spans, i)
    requires forall i | 0 < i < |spans| :: After(spans, i)
    ensures Increasing(Cpus(spans)) && Low(Cpus(spans))
    ensures spans != [] ==> Cpus(spans) != [] && Cpus(spans)[|Cpus(spans)| - 1] == spans[|spans| - 1].last
  {
    if spans != [] {
      var n := |spans| - 1;
      var front := spans[..n];
      forall i | 0 <= i < n ensures ProperAt(front, i) && (i > 0 ==> After(front, i)) {
        assert ProperAt(spans, i) && (i > 0 ==> After(spans, i));
      }
      CpusIncrease(front);
      assert ProperAt(spans, n) && (n > 0 ==> After(spans, n));
      AppendIncreases(Cpus(front), spans[n]);
    }
  }

  /** Whatever is accepted denotes a CPU set, and its size is what is returned. */
  lemma {:induction false} RosterIsCpuSet(value: string)
    requires Accepted(value)
    ensures CpuSet(Roster(value))
  {
    var results := Reads(Split(value));
    GatherHolds(results);
    var spans := Gather(results).value;
    forall i | 0 <= i < |spans| ensures ProperAt(spans, i) {
      assert results[i] == ReadPart(Split(value)[i]);
    }
    CpusIncrease(spans);
  }

  lemma {:induction false} GatherHolds(results: seq<Option<Span>>)
    requires Gather(results).Some?
    ensures forall i | 0 <= i < |results| :: results[i] == Some(Gather(results).value[i])
  {
    if results != [] {
      GatherHolds(results[..|results| - 1]);
    }
  }

  // ----------------------------------------------------------------- the printer

  function Text(n: nat): (s: string)
    ensures s != ""
  {
    (if n < 10 then "" else Text(n / 10)) + [('0' as int + n % 10) as char]
  }

  lemma {:induction false} TextIsNumber(n: nat)
    ensures Digits(Text(n)) && Number(Text(n)) == n
    ensures n < 10 ==> |Text(n)| == 1
  {
    var t := Text(n);
    var digit := ('0' as int + n % 10) as char;
    assert '0' <= digit <= '9' && DigitValue(digit) == n % 10;
    if n >= 10 {
      TextIsNumber(n / 10);
    }
    assert t[..|t| - 1] == if n < 10 then "" else Text(n / 10);
  }

  lemma {:induction false} TextIsShort(n: nat)
    requires n <= 9999
    ensures |Text(n)| <= 4
  {
    assert n / 10 <= 999 && n / 10 / 10 <= 99 && n / 10 / 10 / 10 <= 9;
    TextIsNumber(n);
    TextIsNumber(n / 10);
    TextIsNumber(n / 10 / 10);
    TextIsNumber(n / 10 / 10 / 10);
  }

  function PrintSpan(span: Span): string {
    if span.first == span.last then Text(span.first) else Text(span.first) + "-" + Text(span.last)
  }

  lemma {:induction false} DashIs(s: string, k: nat)
    requires k <= |s| && (forall i | 0 <= i < k :: s[i] != '-') && (k < |s| ==> s[k] == '-')
    ensures Dash(s) == k
  {
    if k > 0 {
      DashIs(s[1..], k - 1);
    }
  }

  lemma {:induction false} DashOf(a: string, b: string)
    requires Digits(a)
    ensures Dash(a) == |a|
    ensures Dash(a + "-" + b) == |a| && (a + "-" + b)[..|a|] == a && (a + "-" + b)[|a| + 1..] == b
  {
    var s := a + "-" + b;
    assert forall i | 0 <= i < |a| :: s[i] == a[i];
    DashIs(a, |a|);
    DashIs(s, |a|);
  }

  lemma {:induction false} SpanIsRead(a: string, b: string)
    requires Digits(a) && Digits(b)
    ensures Shape(a) && SpanOf(a) == Span(Number(a), Number(a)) && ',' !in a
    ensures Shape(a + "-" + b) && SpanOf(a + "-" + b) == Span(Number(a), Number(b)) && ',' !in a + "-" + b
  {
    DashOf(a, b);
  }

  /** A printed span is read back and holds no comma. */
  lemma {:induction false} PrintedSpanIsRead(span: Span)
    requires span.first <= span.last <= 4095
    ensures ReadPart(PrintSpan(span)) == Some(span) && ',' !in PrintSpan(span)
  {
    TextIsNumber(span.first);
    TextIsNumber(span.last);
    SpanIsRead(Text(span.first), Text(span.last));
    DashOf(Text(span.first), Text(span.last));
  }

  /** With the comma after it, it takes at most five characters a CPU. */
  lemma {:induction false} PrintedSpanLength(span: Span)
    requires span.first <= span.last <= 4095
    ensures 0 < |PrintSpan(span)| && |PrintSpan(span)| + 1 <= 5 * |Range(span)|
  {
    TextIsShort(span.first);
    TextIsShort(span.last);
  }

  /** Adding a CPU to the maximal runs of those below it. */
  function ExtendRuns(runs: seq<Span>, cpu: nat): seq<Span> {
    if runs != [] && runs[|runs| - 1].last + 1 == cpu
    then runs[..|runs| - 1] + [Span(runs[|runs| - 1].first, cpu)]
    else runs + [Span(cpu, cpu)]
  }

  /** The maximal runs of consecutive CPUs. */
  function Runs(cpus: seq<nat>): seq<Span> {
    if cpus == [] then [] else ExtendRuns(Runs(cpus[..|cpus| - 1]), cpus[|cpus| - 1])
  }

  /** The runs do not even touch. */
  predicate Apart(spans: seq<Span>, i: nat) {
    0 < i < |spans| && spans[i - 1].last + 1 < spans[i].first
  }

  ghost predicate Maximal(spans: seq<Span>) {
    && (forall i | 0 <= i < |spans| :: ProperAt(spans, i))
    && (forall i | 0 < i < |spans| :: Apart(spans, i))
  }

  lemma {:induction false} ExtendsMaximal(runs: seq<Span>, cpu: nat)
    requires Maximal(runs) && cpu <= 4095
    requires runs != [] ==> runs[|runs| - 1].last < cpu
    ensures Maximal(ExtendRuns(runs, cpu))
  {
    var longer := ExtendRuns(runs, cpu);
    forall i | 0 <= i < |longer| ensures ProperAt(longer, i) && (i > 0 ==> Apart(longer, i)) {
      if i < |runs| {
        assert ProperAt(runs, i) && (i > 0 ==> Apart(runs, i));
      }
    }
  }

  lemma {:induction false} RangeSnoc(first: nat, last: nat)
    requires first <= last
    ensures Range(Span(first, last + 1)) == Range(Span(first, last)) + [last + 1]
  {
  }

  lemma {:induction false} LongerLastRun(front: seq<Span>, last: Span)
    requires last.first <= last.last
    ensures Cpus(front + [Span(last.first, last.last + 1)]) == Cpus(front + [last]) + [last.last + 1]
  {
    CpusSnoc(front, last);
    CpusSnoc(front, Span(last.first, last.last + 1));
    RangeSnoc(last.first, last.last);
  }

  lemma {:induction false} NewLastRun(runs: seq<Span>, cpu: nat)
    ensures Cpus(runs + [Span(cpu, cpu)]) == Cpus(runs) + [cpu]
  {
    CpusSnoc(runs, Span(cpu, cpu));
    assert Range(Span(cpu, cpu)) == [cpu];
  }

  lemma {:induction false} ExtendsCpus(runs: seq<Span>, cpu: nat)
    requires Maximal(runs)
    ensures Cpus(ExtendRuns(runs, cpu)) == Cpus(runs) + [cpu]
  {
    var n := |runs| - 1;
    if runs != [] && runs[n].last + 1 == cpu {
      assert ProperAt(runs, n);
      LongerLastRun(runs[..n], runs[n]);
      assert runs == runs[..n] + [runs[n]];
    } else {
      NewLastRun(runs, cpu);
    }
  }

  /** The runs are proper and maximal, and denote the set. */
  lemma {:induction false} RunsDenote(cpus: seq<nat>)
    requires Increasing(cpus) && Low(cpus)
    ensures Maximal(Runs(cpus)) && Cpus(Runs(cpus)) == cpus
  {
    if cpus != [] {
      var front, cpu := cpus[..|cpus| - 1], cpus[|cpus| - 1];
      RunsDenote(front);
      var runs := Runs(front);
      MaximalIncreases(runs);
      assert runs != [] ==> runs[|runs| - 1].last < cpu;
      ExtendsMaximal(runs, cpu);
      ExtendsCpus(runs, cpu);
      assert cpus == front + [cpu];
    }
  }

  lemma {:induction false} MaximalIncreases(runs: seq<Span>)
    requires Maximal(runs)
    ensures forall i | 0 < i < |runs| :: After(runs, i)
    ensures runs != [] ==> Cpus(runs) != [] && Cpus(runs)[|Cpus(runs)| - 1] == runs[|runs| - 1].last
  {
    forall i | 0 < i < |runs| ensures After(runs, i) {
      assert Apart(runs, i);
    }
    CpusIncrease(runs);
  }

  function PrintSpans(spans: seq<Span>): (s: seq<string>)
    ensures |s| == |spans|
  {
    seq(|spans|, i requires 0 <= i < |spans| => PrintSpan(spans[i]))
  }

  function Print(cpus: seq<nat>): string {
    Join(PrintSpans(Runs(cpus)))
  }

  lemma {:induction false} SplitOne(p: string)
    requires ',' !in p
    ensures Split(p) == [p]
  {
    if p != "" {
      SplitOne(p[1..]);
      assert p == [p[0]] + p[1..];
    }
  }

  lemma {:induction false} SplitHead(p: string, t: string)
    requires ',' !in p
    ensures Split(p + "," + t) == [p] + Split(t)
  {
    var s := p + "," + t;
    if p == "" {
      assert s[1..] == t;
    } else {
      SplitHead(p[1..], t);
      assert s[1..] == p[1..] + "," + t;
      assert p == [p[0]] + p[1..];
    }
  }

  predicate CommaFree(parts: seq<string>) {
    forall i | 0 <= i < |parts| :: ',' !in parts[i]
  }

  lemma {:induction false} SplitOfJoin(parts: seq<string>)
    requires parts != [] && CommaFree(parts)
    ensures Split(Join(parts)) == parts
  {
    if |parts| == 1 {
      SplitOne(parts[0]);
    } else {
      SplitOfJoin(parts[1..]);
      SplitHead(parts[0], Join(parts[1..]));
      assert parts == [parts[0]] + parts[1..];
    }
  }

  /** Adding the last part to a joined text. */
  lemma {:induction false} JoinLast(parts: seq<string>, last: string)
    ensures |Join(parts + [last])| == (if parts == [] then 0 else |Join(parts)| + 1) + |last|
  {
    if parts == [] {
      assert parts + [last] == [last];
    } else {
      assert (parts + [last])[1..] == parts[1..] + [last];
      JoinLast(parts[1..], last);
    }
  }

  /** The whole text takes at most five characters a CPU, less one. */
  lemma {:induction false} PrintedLength(spans: seq<Span>)
    requires spans != [] && forall i | 0 <= i < |spans| :: ProperAt(spans, i)
    ensures 0 < |Join(PrintSpans(spans))|
    ensures |Join(PrintSpans(spans))| + 1 <= 5 * |Cpus(spans)|
  {
    var n := |spans| - 1;
    var front, last := spans[..n], spans[n];
    forall i | 0 <= i < n ensures ProperAt(front, i) {
      assert ProperAt(spans, i);
    }
    assert ProperAt(spans, n);
    PrintedSpanLength(last);
    assert PrintSpans(spans) == PrintSpans(front) + [PrintSpan(last)];
    JoinLast(PrintSpans(front), PrintSpan(last));
    if front != [] {
      PrintedLength(front);
    }
    assert |Cpus(spans)| == |Cpus(front)| + |Range(last)|;
  }

  lemma {:induction false} GatherAll(results: seq<Option<Span>>, spans: seq<Span>)
    requires |results| == |spans| && forall i | 0 <= i < |results| :: results[i] == Some(spans[i])
    ensures Gather(results) == Some(spans)
  {
    if results != [] {
      var n := |results| - 1;
      GatherAll(results[..n], spans[..n]);
      assert spans == spans[..n] + [spans[n]];
    }
  }

  lemma {:induction false} PrintedSpansAreRead(spans: seq<Span>)
    requires forall i | 0 <= i < |spans| :: ProperAt(spans, i)
    ensures Gather(Reads(PrintSpans(spans))) == Some(spans)
    ensures CommaFree(PrintSpans(spans))
  {
    var results := Reads(PrintSpans(spans));
    forall i | 0 <= i < |spans| ensures results[i] == Some(spans[i]) && ',' !in PrintSpans(spans)[i] {
      assert ProperAt(spans, i);
      PrintedSpanIsRead(spans[i]);
    }
    GatherAll(results, spans);
  }

  /** Parsing inverts the printer for every non-empty CPU set, whose text always
      fits the limit on its length. */
  lemma {:induction false} PrintedIsRead(cpus: seq<nat>)
    requires CpuSet(cpus)
    ensures |Print(cpus)| <= 319
    ensures Accepted(Print(cpus)) && Roster(Print(cpus)) == cpus
  {
    RunsDenote(cpus);
    var runs := Runs(cpus);
    MaximalIncreases(runs);
    PrintedSpansAreRead(runs);
    SplitOfJoin(PrintSpans(runs));
    PrintedLength(runs);
  }

  /** Equal printed texts are texts of equal sets, so the printed form is canonical:
      any two accepted rosters denote the same CPUs exactly when they print alike. */
  lemma {:induction false} PrintIsCanonical(a: string, b: string)
    requires Accepted(a) && Accepted(b)
    ensures Roster(a) == Roster(b) <==> Print(Roster(a)) == Print(Roster(b))
  {
    RosterIsCpuSet(a);
    RosterIsCpuSet(b);
    PrintedIsRead(Roster(a));
    PrintedIsRead(Roster(b));
  }

  // ------------------------------------------------------ the language, in full

  /** One CPU, or a range from a lower to a higher one. */
  datatype Token = One(cpu: string) | Pair(low: string, high: string)

  function TextOf(t: Token): string {
    match t
    case One(cpu) => cpu
    case Pair(low, high) => low + "-" + high
  }

  ghost predicate IsNumeral(s: string) {
    |s| > 0 && forall c | c in s :: c in "0123456789"
  }

  ghost predicate Proper(t: Token) {
    match t
    case One(cpu) => IsNumeral(cpu) && Number(cpu) < 4096
    case Pair(low, high) => IsNumeral(low) && IsNumeral(high) && Number(low) < Number(high) < 4096
  }

  function First(t: Token): nat {
    match t
    case One(cpu) => Number(cpu)
    case Pair(low, _) => Number(low)
  }

  function Last(t: Token): nat {
    match t
    case One(cpu) => Number(cpu)
    case Pair(_, high) => Number(high)
  }

  function Texts(tokens: seq<Token>): (texts: seq<string>)
    ensures |texts| == |tokens|
  {
    seq(|tokens|, i requires 0 <= i < |tokens| => TextOf(tokens[i]))
  }

  /** Proper tokens, each above the one before. */
  ghost predicate TokenAt(tokens: seq<Token>, i: nat) {
    && i < |tokens| && Proper(tokens[i]) && (i > 0 ==> Last(tokens[i - 1]) < First(tokens[i]))
  }

  ghost predicate Covers(t: Token, c: nat) {
    First(t) <= c <= Last(t)
  }

  /** The text is that of ascending tokens, which denote these CPUs. */
  ghost predicate Lists(value: string, tokens: seq<Token>, cpus: seq<nat>) {
    && value == Join(Texts(tokens)) && tokens != [] && (forall i | 0 <= i < |tokens| :: TokenAt(tokens, i))
    && CpuSet(cpus) && forall c: nat :: c in cpus <==> exists t :: t in tokens && Covers(t, c)
  }

  lemma {:induction false} NumeralIsDigits(s: string)
    ensures IsNumeral(s) <==> Digits(s)
  {
    forall i | 0 <= i < |s| ensures s[i] in "0123456789" <==> '0' <= s[i] <= '9' {
      DigitIn(s[i]);
    }
    if IsNumeral(s) {
      forall i | 0 <= i < |s| ensures '0' <= s[i] <= '9' {
        assert s[i] in s;
      }
    }
  }

  lemma {:induction false} DigitIn(c: char)
    ensures c in "0123456789" <==> '0' <= c <= '9'
  {
    var digits := "0123456789";
    if '0' <= c <= '9' {
      assert digits[c as int - '0' as int] == c;
    }
  }

  lemma {:induction false} ProperIsRead(t: Token)
    requires Proper(t)
    ensures ReadPart(TextOf(t)) == Some(Span(First(t), Last(t))) && ',' !in TextOf(t)
  {
    match t {
      case One(cpu) =>
        NumeralIsDigits(cpu);
        DashOf(cpu, cpu);
        SpanIsRead(cpu, cpu);
      case Pair(low, high) =>
        NumeralIsDigits(low);
        NumeralIsDigits(high);
        DashOf(low, high);
        SpanIsRead(low, high);
    }
  }

  /** The token that a readable part is the text of. */
  function TokenOf(part: string): Token {
    var k := Dash(part);
    if k == |part| then One(part) else Pair(part[..k], part[k + 1..])
  }

  lemma {:induction false} ReadIsProper(part: string)
    requires PartOk(part)
    ensures Proper(TokenOf(part)) && TextOf(TokenOf(part)) == part
    ensures SpanOf(part) == Span(First(TokenOf(part)), Last(TokenOf(part)))
  {
    var k := Dash(part);
    if k == |part| {
      NumeralIsDigits(part);
    } else {
      NumeralIsDigits(part[..k]);
      NumeralIsDigits(part[k + 1..]);
      DashThere(part);
      assert part == part[..k] + "-" + part[k + 1..];
    }
  }

  lemma {:induction false} DashThere(s: string)
    ensures Dash(s) < |s| ==> s[Dash(s)] == '-'
  {
    if s != "" && s[0] != '-' {
      DashThere(s[1..]);
    }
  }

  lemma {:induction false} JoinPrepend(c: char, parts: seq<string>)
    requires parts != []
    ensures Join([[c] + parts[0]] + parts[1..]) == [c] + Join(parts)
  {
    var more := [[c] + parts[0]] + parts[1..];
    assert more[0] == [c] + parts[0] && more[1..] == parts[1..];
    if |parts| > 1 {
      assert [c] + parts[0] + "," + Join(parts[1..]) == [c] + (parts[0] + "," + Join(parts[1..]));
    }
  }

  lemma {:induction false} JoinOfSplit(s: string)
    ensures Join(Split(s)) == s
  {
    if s != "" {
      var rest := Split(s[1..]);
      JoinOfSplit(s[1..]);
      assert s == [s[0]] + s[1..];
      if s[0] == ',' {
        assert ([""] + rest)[1..] == rest && Join([""] + rest) == "" + "," + Join(rest);
      } else {
        JoinPrepend(s[0], rest);
      }
    }
  }

  /** Leading zeros do not count. */
  lemma {:induction false} ZerosDoNotCount(s: string)
    ensures Number("0" + s) == Number(s)
  {
    var t := "0" + s;
    if s == "" {
      assert t[..0] == "" && Number(t[..0]) == 0;
    } else {
      ZerosDoNotCount(s[..|s| - 1]);
      assert t[..|t| - 1] == "0" + s[..|s| - 1];
    }
  }

  /** The spans that the tokens are read as. */
  function SpansOf(tokens: seq<Token>): (spans: seq<Span>)
    ensures |spans| == |tokens|
  {
    seq(|tokens|, i requires 0 <= i < |tokens| => Span(First(tokens[i]), Last(tokens[i])))
  }

  lemma {:induction false} TokensAreRead(tokens: seq<Token>)
    requires forall i | 0 <= i < |tokens| :: TokenAt(tokens, i)
    ensures Gather(Reads(Texts(tokens))) == Some(SpansOf(tokens)) && CommaFree(Texts(tokens))
  {
    var results := Reads(Texts(tokens));
    forall i | 0 <= i < |tokens|
      ensures results[i] == Some(SpansOf(tokens)[i]) && ',' !in Texts(tokens)[i] {
      assert TokenAt(tokens, i);
      ProperIsRead(tokens[i]);
    }
    GatherAll(results, SpansOf(tokens));
  }

  lemma {:induction false} RangeHolds(span: Span, c: nat)
    ensures c in Range(span) <==> span.first <= c <= span.last
  {
    if span.first <= c <= span.last {
      assert Range(span)[c - span.first] == c;
    }
  }

  lemma {:induction false} CpusHold(spans: seq<Span>, c: nat)
    ensures c in Cpus(spans) <==> exists i :: 0 <= i < |spans| && spans[i].first <= c <= spans[i].last
  {
    if spans != [] {
      var n := |spans| - 1;
      CpusHold(spans[..n], c);
      RangeHolds(spans[n], c);
    }
  }

  lemma {:induction false} Rises(cpus: seq<nat>, i: nat, j: nat)
    requires Increasing(cpus) && i < j < |cpus|
    ensures cpus[i] < cpus[j]
  {
    if i < j - 1 {
      Rises(cpus, i, j - 1);
    }
  }

  /** All but the last are the smaller ones. */
  lemma {:induction false} FrontHolds(cpus: seq<nat>, c: nat)
    requires cpus != [] && Increasing(cpus)
    ensures c in cpus[..|cpus| - 1] <==> c in cpus && c < cpus[|cpus| - 1]
    ensures c in cpus ==> c <= cpus[|cpus| - 1]
  {
    var n := |cpus| - 1;
    if c in cpus {
      var i :| 0 <= i < |cpus| && cpus[i] == c;
      if i < n {
        Rises(cpus, i, n);
        assert cpus[..n][i] == c;
      }
    }
    if c in cpus[..n] {
      var i :| 0 <= i < n && cpus[..n][i] == c;
      Rises(cpus, i, n);
    }
  }

  lemma {:induction false} FrontIncreases(cpus: seq<nat>)
    requires cpus != [] && Increasing(cpus)
    ensures Increasing(cpus[..|cpus| - 1])
  {}

  /** Increasing lists of the same numbers are the same list. */
  lemma {:induction false} SameIncreasing(a: seq<nat>, b: seq<nat>)
    requires Increasing(a) && Increasing(b) && forall c: nat :: c in a <==> c in b
    ensures a == b
    decreases |a|
  {
    assert b != [] ==> b[0] in b;
    if a != [] {
      var m, n := |a| - 1, |b| - 1;
      assert a[m] in b;
      assert b[n] in a;
      FrontHolds(a, b[n]);
      FrontHolds(b, a[m]);
      forall c: nat ensures c in a[..m] <==> c in b[..n] {
        FrontHolds(a, c);
        FrontHolds(b, c);
      }
      FrontIncreases(a);
      FrontIncreases(b);
      SameIncreasing(a[..m], b[..n]);
      assert a == a[..m] + [a[m]] && b == b[..n] + [b[n]];
    }
  }

  /** What ascending tokens denote increases, and is what they cover. */
  lemma {:induction false} TokensDenote(tokens: seq<Token>)
    requires forall i | 0 <= i < |tokens| :: TokenAt(tokens, i)
    ensures Increasing(Cpus(SpansOf(tokens))) && Low(Cpus(SpansOf(tokens)))
    ensures forall i | 0 < i < |tokens| :: After(SpansOf(tokens), i)
    ensures forall c: nat :: c in Cpus(SpansOf(tokens)) <==> exists t :: t in tokens && Covers(t, c)
  {
    var spans := SpansOf(tokens);
    forall i | 0 <= i < |tokens| ensures ProperAt(spans, i) && (i > 0 ==> After(spans, i)) {
      assert TokenAt(tokens, i);
    }
    CpusIncrease(spans);
    forall c: nat ensures c in Cpus(spans) <==> exists t :: t in tokens && Covers(t, c) {
      CpusHold(spans, c);
      if c in Cpus(spans) {
        var i :| 0 <= i < |spans| && spans[i].first <= c <= spans[i].last;
        assert tokens[i] in tokens && Covers(tokens[i], c);
      }
      if exists t :: t in tokens && Covers(t, c) {
        var t :| t in tokens && Covers(t, c);
        var i :| 0 <= i < |tokens| && tokens[i] == t;
        assert spans[i].first <= c <= spans[i].last;
      }
    }
  }

  /** A text lists a roster if and only if the parser accepts it, and reads just that. */
  lemma {:induction false} ListsIsAccepted(value: string, tokens: seq<Token>, cpus: seq<nat>)
    requires Lists(value, tokens, cpus) && 0 < |value| <= 512
    ensures Accepted(value) && Roster(value) == cpus
  {
    TokensAreRead(tokens);
    SplitOfJoin(Texts(tokens));
    TokensDenote(tokens);
    SameIncreasing(Cpus(SpansOf(tokens)), cpus);
  }

  function TokensOf(parts: seq<string>): (tokens: seq<Token>)
    ensures |tokens| == |parts|
  {
    seq(|parts|, i requires 0 <= i < |parts| => TokenOf(parts[i]))
  }

  /** Readable parts are the texts of proper tokens, and are read as their spans. */
  lemma {:induction false} PartsAreTokens(parts: seq<string>)
    requires Gather(Reads(parts)).Some?
    ensures Texts(TokensOf(parts)) == parts && Gather(Reads(parts)).value == SpansOf(TokensOf(parts))
    ensures forall i | 0 <= i < |parts| :: Proper(TokensOf(parts)[i])
  {
    var spans := Gather(Reads(parts)).value;
    GatherHolds(Reads(parts));
    forall i | 0 <= i < |parts|
      ensures Proper(TokensOf(parts)[i]) && Texts(TokensOf(parts))[i] == parts[i]
      ensures spans[i] == SpansOf(TokensOf(parts))[i]
    {
      assert Reads(parts)[i] == Some(spans[i]) && Reads(parts)[i] == ReadPart(parts[i]);
      ReadIsProper(parts[i]);
    }
  }

  lemma {:induction false} AcceptedLists(value: string) returns (tokens: seq<Token>)
    requires Accepted(value)
    ensures Lists(value, tokens, Roster(value))
  {
    tokens := TokensOf(Split(value));
    PartsAreTokens(Split(value));
    JoinOfSplit(value);
    var spans := SpansOf(tokens);
    forall i | 0 <= i < |tokens| ensures TokenAt(tokens, i) {
      assert i > 0 ==> After(spans, i);
    }
    TokensDenote(tokens);
    RosterIsCpuSet(value);
  }

  /** Within 512 characters a text is accepted if and only if it lists some roster of
      at most 64 CPUs below 4096: numerals and rising ranges of numerals, ascending and
      separated by commas. */
  lemma {:induction false} AcceptedExact(value: string)
    ensures Accepted(value) <==>
            0 < |value| <= 512 && exists tokens: seq<Token>, cpus: seq<nat> :: Lists(value, tokens, cpus)
  {
    if Accepted(value) {
      var tokens := AcceptedLists(value);
    }
    if 0 < |value| <= 512 && exists tokens: seq<Token>, cpus: seq<nat> :: Lists(value, tokens, cpus) {
      var tokens: seq<Token>, cpus: seq<nat> :| Lists(value, tokens, cpus);
      ListsIsAccepted(value, tokens, cpus);
    }
  }
}
