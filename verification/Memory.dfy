/** Conservative paired working-set accounting (memory.py, resources.py): the
    reported peak is the least bound that holds however the two streams are aligned. */
module Memory {
  import opened Wrappers
  import opened Sums

  datatype Role = Node | Api | Selected | SelectedPeer | Agent | Collector | Probe | NonSelected(index: nat)
  datatype Group = Group(current: nat, inactiveFile: nat)
  type Row = map<Role, Group>

  /** A sample stream, and whether its clocks, counters and fields pass validate_window. */
  datatype Stream = Stream(rows: seq<Row>, clean: bool)

  datatype Report = Report(
    sampleCount: nat, floors: map<Role, nat>, installationPeak: nat, sharedPeak: nat, peak: nat, passed: bool)

  const LIMIT: nat := 67_108_864

  function Tracer(): set<Role> {
    {Node, Api}
  }

  predicate RowAt(rows: seq<Row>, i: nat, roles: set<Role>) {
    i < |rows| && rows[i].Keys == roles
  }

  predicate WindowOk(s: Stream, seconds: nat, roles: set<Role>) {
    && 1 <= seconds <= 1800 && |s.rows| == seconds + 1 && s.clean
    && forall i | 0 <= i < |s.rows| :: RowAt(s.rows, i, roles)
  }

  // ---------------------------------------------------------------- working sets

  /** working_set of the role's group. */
  function WorkingSet(row: Row, role: Role): nat {
    if role in row && row[role].current > row[role].inactiveFile then row[role].current - row[role].inactiveFile else 0
  }

  /** It is the least number that with the inactive file pages covers what is charged. */
  lemma {:induction false} WorkingSetIsLeast(row: Row, role: Role, bound: nat)
    ensures WorkingSet(row, role) <= bound <==> role in row ==> row[role].current <= row[role].inactiveFile + bound
  {}

  function Installed(row: Row): nat {
    WorkingSet(row, Api) + WorkingSet(row, Node)
  }

  function Grown(now: nat, before: nat): nat {
    if now > before then now - before else 0
  }

  /** The sum over the shared roles of the growth above a baseline for each. */
  function Growth(row: Row, shared: seq<Role>, base: seq<nat>): nat
    requires |base| == |shared|
  {
    if shared == [] then 0
    else Grown(WorkingSet(row, shared[0]), base[0]) + Growth(row, shared[1..], base[1..])
  }

  /** Each role's increase over its baseline is covered, and none pays for another's. */
  ghost predicate Pays(row: Row, shared: seq<Role>, base: seq<nat>, increases: seq<nat>)
    requires |base| == |shared|
  {
    |increases| == |shared| && forall i | 0 <= i < |shared| :: WorkingSet(row, shared[i]) <= base[i] + increases[i]
  }

  /** The growth is the least sum of increases that covers every role. */
  lemma {:induction false} GrowthIsLeast(row: Row, shared: seq<Role>, base: seq<nat>, bound: nat)
    requires |base| == |shared|
    ensures Growth(row, shared, base) <= bound <==>
            exists increases: seq<nat> :: Pays(row, shared, base, increases) && Sum(increases) <= bound
  {
    if Growth(row, shared, base) <= bound {
      var increases := LeastIncreases(row, shared, base);
    }
    if exists increases: seq<nat> :: Pays(row, shared, base, increases) && Sum(increases) <= bound {
      var increases: seq<nat> :| Pays(row, shared, base, increases) && Sum(increases) <= bound;
      GrowthAtMost(row, shared, base, increases);
    }
  }

  lemma {:induction false} LeastIncreases(row: Row, shared: seq<Role>, base: seq<nat>) returns (increases: seq<nat>)
    requires |base| == |shared|
    ensures Pays(row, shared, base, increases) && Sum(increases) == Growth(row, shared, base)
  {
    if shared == [] {
      increases := [];
    } else {
      var rest := LeastIncreases(row, shared[1..], base[1..]);
      increases := [Grown(WorkingSet(row, shared[0]), base[0])] + rest;
      assert increases[1..] == rest;
      forall i | 0 <= i < |shared| ensures WorkingSet(row, shared[i]) <= base[i] + increases[i] {
        assert i > 0 ==> WorkingSet(row, shared[1..][i - 1]) <= base[1..][i - 1] + rest[i - 1];
      }
    }
  }

  lemma {:induction false} GrowthAtMost(row: Row, shared: seq<Role>, base: seq<nat>, increases: seq<nat>)
    requires |base| == |shared| && Pays(row, shared, base, increases)
    ensures Growth(row, shared, base) <= Sum(increases)
  {
    if shared != [] {
      GrowthAtMost(row, shared[1..], base[1..], increases[1..]);
    }
  }

  // ------------------------------------------------------------------ alignments

  /** Any control sample, chosen for each shared role on its own. */
  predicate Aligns(control: seq<Row>, shared: seq<Role>, pick: seq<nat>) {
    |pick| == |shared| && forall i | 0 <= i < |pick| :: pick[i] < |control|
  }

  /** What the shared roles used in the chosen control samples. */
  function Baseline(control: seq<Row>, shared: seq<Role>, pick: seq<nat>): (b: seq<nat>)
    requires Aligns(control, shared, pick)
    ensures |b| == |shared|
  {
    seq(|shared|, i requires 0 <= i < |shared| => WorkingSet(control[pick[i]], shared[i]))
  }

  /** Tracer working set plus positive increases of an enabled sample against them. */
  function Incremental(control: seq<Row>, enabled: seq<Row>, shared: seq<Role>, e: nat, pick: seq<nat>): nat
    requires e < |enabled| && Aligns(control, shared, pick)
  {
    WorkingSet(enabled[e], Node) + WorkingSet(enabled[e], Api)
    + Growth(enabled[e], shared, Baseline(control, shared, pick))
  }

  /** The lowest working set of the role in any control sample. */
  predicate IsFloor(control: seq<Row>, role: Role, floor: nat) {
    && (exists i | 0 <= i < |control| :: WorkingSet(control[i], role) == floor)
    && (forall i | 0 <= i < |control| :: floor <= WorkingSet(control[i], role))
  }

  ghost predicate AreFloors(control: seq<Row>, shared: seq<Role>, floors: seq<nat>) {
    |floors| == |shared| && forall i | 0 <= i < |shared| :: IsFloor(control, shared[i], floors[i])
  }

  /** A lower baseline is never less growth. */
  lemma {:induction false} GrowthFalls(row: Row, shared: seq<Role>, low: seq<nat>, high: seq<nat>)
    requires |low| == |high| == |shared|
    requires forall i | 0 <= i < |shared| :: low[i] <= high[i]
    ensures Growth(row, shared, high) <= Growth(row, shared, low)
  {
    if shared != [] {
      GrowthFalls(row, shared[1..], low[1..], high[1..]);
    }
  }

  /** Every alignment is dominated by the floors. */
  lemma {:induction false} FloorsDominate(
    control: seq<Row>, row: Row, shared: seq<Role>, floors: seq<nat>, pick: seq<nat>)
    requires AreFloors(control, shared, floors) && Aligns(control, shared, pick)
    ensures Growth(row, shared, Baseline(control, shared, pick)) <= Growth(row, shared, floors)
  {
    forall i | 0 <= i < |shared| ensures floors[i] <= Baseline(control, shared, pick)[i] {
      assert IsFloor(control, shared[i], floors[i]);
    }
    GrowthFalls(row, shared, floors, Baseline(control, shared, pick));
  }

  ghost function Lowest(control: seq<Row>, role: Role, floor: nat): (k: nat)
    requires IsFloor(control, role, floor)
    ensures k < |control| && WorkingSet(control[k], role) == floor
  {
    var k :| 0 <= k < |control| && WorkingSet(control[k], role) == floor;
    k
  }

  /** One alignment is the floors. */
  lemma {:induction false} FloorsAttained(
    control: seq<Row>, shared: seq<Role>, floors: seq<nat>) returns (pick: seq<nat>)
    requires AreFloors(control, shared, floors)
    ensures Aligns(control, shared, pick) && Baseline(control, shared, pick) == floors
  {
    pick := seq(|shared|, i requires 0 <= i < |shared| => Lowest(control, shared[i], floors[i]));
  }

  // --------------------------------------------------------------- paired_memory

  ghost predicate Bounds(control: seq<Row>, enabled: seq<Row>, shared: seq<Role>, bound: nat) {
    forall e, pick | 0 <= e < |enabled| && Aligns(control, shared, pick) ::
      Incremental(control, enabled, shared, e, pick) <= bound
  }

  ghost predicate Attained(control: seq<Row>, enabled: seq<Row>, shared: seq<Role>, value: nat) {
    exists e, pick | 0 <= e < |enabled| && Aligns(control, shared, pick) ::
      Incremental(control, enabled, shared, e, pick) == value
  }

  function Shared(control: seq<Row>, enabled: seq<Row>, shared: seq<Role>, e: nat, pick: seq<nat>): nat
    requires e < |enabled| && Aligns(control, shared, pick)
  {
    Growth(enabled[e], shared, Baseline(control, shared, pick))
  }

  /** The greatest growth of the shared roles over all alignments. */
  ghost predicate IsSharedPeak(control: seq<Row>, enabled: seq<Row>, shared: seq<Role>, peak: nat) {
    && (forall e, pick | 0 <= e < |enabled| && Aligns(control, shared, pick) ::
          Shared(control, enabled, shared, e, pick) <= peak)
    && (exists e, pick | 0 <= e < |enabled| && Aligns(control, shared, pick) ::
          Shared(control, enabled, shared, e, pick) == peak)
  }

  ghost predicate IsInstallationPeak(enabled: seq<Row>, peak: nat) {
    && (exists e | 0 <= e < |enabled| :: WorkingSet(enabled[e], Node) + WorkingSet(enabled[e], Api) == peak)
    && (forall e | 0 <= e < |enabled| :: WorkingSet(enabled[e], Node) + WorkingSet(enabled[e], Api) <= peak)
  }

  /** min(...) over the control samples. */
  method LowestWorkingSet(control: seq<Row>, role: Role) returns (floor: nat)
    requires control != []
    ensures IsFloor(control, role, floor)
  {
    floor := WorkingSet(control[0], role);
    for i := 1 to |control|
      invariant exists k | 0 <= k < |control| :: WorkingSet(control[k], role) == floor
      invariant forall k | 0 <= k < i :: floor <= WorkingSet(control[k], role)
    {
      if WorkingSet(control[i], role) < floor {
        floor := WorkingSet(control[i], role);
      }
    }
  }

  method Floors(control: seq<Row>, shared: seq<Role>) returns (floors: map<Role, nat>, ghost base: seq<nat>)
    requires control != []
    ensures floors.Keys == (set r | r in shared)
    ensures forall r | r in shared :: IsFloor(control, r, floors[r])
    ensures AreFloors(control, shared, base)
    ensures forall i | 0 <= i < |shared| :: floors[shared[i]] == base[i]
  {
    floors := map[];
    for i := 0 to |shared|
      invariant floors.Keys == (set r | r in shared[..i])
      invariant forall r | r in floors :: IsFloor(control, r, floors[r])
    {
      var floor := LowestWorkingSet(control, shared[i]);
      assert shared[..i + 1] == shared[..i] + [shared[i]];
      floors := floors[shared[i] := floor];
    }
    assert shared[..|shared|] == shared;
    base := seq(|shared|, i requires 0 <= i < |shared| => floors[shared[i]]);
  }

  /** sum(max(0, working set - floor) for role in shared_roles). */
  method SumGrowth(row: Row, shared: seq<Role>, floors: map<Role, nat>, ghost base: seq<nat>) returns (sum: nat)
    requires |base| == |shared| && forall i | 0 <= i < |shared| :: shared[i] in floors && floors[shared[i]] == base[i]
    ensures sum == Growth(row, shared, base)
  {
    sum := 0;
    for i := 0 to |shared|
      invariant sum + Growth(row, shared[i..], base[i..]) == Growth(row, shared, base)
    {
      sum := sum + Grown(WorkingSet(row, shared[i]), floors[shared[i]]);
      assert shared[i..][1..] == shared[i + 1..] && base[i..][1..] == base[i + 1..];
    }
  }

  /** The loop over the enabled rows. */
  method Accumulate(enabled: seq<Row>, shared: seq<Role>, floors: map<Role, nat>, ghost base: seq<nat>)
    returns (tracer: seq<nat>, additional: seq<nat>, totals: seq<nat>)
    requires |base| == |shared| && forall i | 0 <= i < |shared| :: shared[i] in floors && floors[shared[i]] == base[i]
    ensures |tracer| == |additional| == |totals| == |enabled|
    ensures forall e | 0 <= e < |enabled| ::
              && tracer[e] == Installed(enabled[e]) && additional[e] == Growth(enabled[e], shared, base)
              && totals[e] == tracer[e] + additional[e]
  {
    tracer, additional, totals := [], [], [];
    for i := 0 to |enabled|
      invariant |tracer| == |additional| == |totals| == i
      invariant forall e | 0 <= e < i ::
                  && tracer[e] == Installed(enabled[e]) && additional[e] == Growth(enabled[e], shared, base)
                  && totals[e] == tracer[e] + additional[e]
    {
      var installed := Installed(enabled[i]);
      var grown := SumGrowth(enabled[i], shared, floors, base);
      tracer := tracer + [installed];
      additional := additional + [grown];
      totals := totals + [installed + grown];
    }
  }

  /** The greatest total bounds every alignment, and some alignment reaches it. */
  lemma {:induction false} PeakIsLeastBound(
    control: seq<Row>, enabled: seq<Row>, shared: seq<Role>, base: seq<nat>, totals: seq<nat>)
    requires enabled != [] && AreFloors(control, shared, base) && |totals| == |enabled|
    requires forall e | 0 <= e < |enabled| :: totals[e] == Installed(enabled[e]) + Growth(enabled[e], shared, base)
    ensures Bounds(control, enabled, shared, Max(totals)) && Attained(control, enabled, shared, Max(totals))
  {
    MaxIsGreatest(totals);
    forall e, pick | 0 <= e < |enabled| && Aligns(control, shared, pick)
      ensures Incremental(control, enabled, shared, e, pick) <= Max(totals) {
      FloorsDominate(control, enabled[e], shared, base, pick);
      assert totals[e] in totals;
    }
    var e :| 0 <= e < |totals| && totals[e] == Max(totals);
    var pick := FloorsAttained(control, shared, base);
    assert Incremental(control, enabled, shared, e, pick) == Max(totals);
  }

  lemma {:induction false} SharedPeakIsGreatest(
    control: seq<Row>, enabled: seq<Row>, shared: seq<Role>, base: seq<nat>, additional: seq<nat>)
    requires enabled != [] && AreFloors(control, shared, base) && |additional| == |enabled|
    requires forall e | 0 <= e < |enabled| :: additional[e] == Growth(enabled[e], shared, base)
    ensures IsSharedPeak(control, enabled, shared, Max(additional))
  {
    MaxIsGreatest(additional);
    forall e, pick | 0 <= e < |enabled| && Aligns(control, shared, pick)
      ensures Shared(control, enabled, shared, e, pick) <= Max(additional) {
      FloorsDominate(control, enabled[e], shared, base, pick);
      assert additional[e] in additional;
    }
    var e :| 0 <= e < |additional| && additional[e] == Max(additional);
    var pick := FloorsAttained(control, shared, base);
    assert Shared(control, enabled, shared, e, pick) == Max(additional);
  }

  lemma {:induction false} InstallationPeakIsGreatest(enabled: seq<Row>, tracer: seq<nat>)
    requires enabled != [] && |tracer| == |enabled|
    requires forall e | 0 <= e < |enabled| :: tracer[e] == Installed(enabled[e])
    ensures IsInstallationPeak(enabled, Max(tracer))
  {
    MaxIsGreatest(tracer);
    var e :| 0 <= e < |tracer| && tracer[e] == Max(tracer);
    assert Installed(enabled[e]) == Max(tracer);
    forall e | 0 <= e < |enabled| ensures Installed(enabled[e]) <= Max(tracer) {
      assert tracer[e] in tracer;
    }
  }

  /** A bound holds of every alignment exactly when it is no less than the peak. */
  lemma {:induction false} PassedMeansBounded(
    control: seq<Row>, enabled: seq<Row>, shared: seq<Role>, peak: nat, bound: nat)
    requires Bounds(control, enabled, shared, peak) && Attained(control, enabled, shared, peak)
    ensures peak <= bound <==> Bounds(control, enabled, shared, bound)
  {
    var e, pick :| 0 <= e < |enabled| && Aligns(control, shared, pick)
      && Incremental(control, enabled, shared, e, pick) == peak;
  }

  /** What paired_memory reports of two valid streams. */
  ghost predicate Summarises(report: Report, control: seq<Row>, enabled: seq<Row>, shared: seq<Role>) {
    && report.sampleCount == |enabled|
    && report.floors.Keys == (set x | x in shared)
    && (forall x | x in shared :: IsFloor(control, x, report.floors[x]))
    && IsInstallationPeak(enabled, report.installationPeak)
    && IsSharedPeak(control, enabled, shared, report.sharedPeak)
    && Bounds(control, enabled, shared, report.peak) && Attained(control, enabled, shared, report.peak)
    && (report.passed <==> Bounds(control, enabled, shared, 64 * 1024 * 1024))
  }

  predicate Pairable(control: Stream, enabled: Stream, seconds: nat, shared: seq<Role>) {
    var roles := set x | x in shared;
    && Selected in shared && roles * Tracer() == {}
    && WindowOk(control, seconds, roles) && WindowOk(enabled, seconds, roles + Tracer())
  }

  lemma {:induction false} PairableExact(control: Stream, enabled: Stream, seconds: nat, shared: seq<Role>)
    ensures Pairable(control, enabled, seconds, shared) <==>
            && Selected in shared && Node !in shared && Api !in shared && 1 <= seconds <= 1800
            && control.clean && enabled.clean && |control.rows| == |enabled.rows| == seconds + 1
            && (forall row | row in control.rows :: forall role :: role in row <==> role in shared)
            && (forall row | row in enabled.rows ::
                  forall role :: role in row <==> role in shared || role == Node || role == Api)
  {
    var roles := set x | x in shared;
    RowsExact(control.rows, roles);
    RowsExact(enabled.rows, roles + Tracer());
    assert forall x :: x in roles * Tracer() <==> x in shared && (x == Node || x == Api);
    assert Node in shared ==> Node in roles * Tracer();
    assert Api in shared ==> Api in roles * Tracer();
  }

  lemma {:induction false} RowsExact(rows: seq<Row>, roles: set<Role>)
    ensures (forall i | 0 <= i < |rows| :: RowAt(rows, i, roles)) <==>
            forall row | row in rows :: forall role :: role in row <==> role in roles
  {
    if forall i | 0 <= i < |rows| :: RowAt(rows, i, roles) {
      forall row | row in rows ensures forall role :: role in row <==> role in roles {
        var i :| 0 <= i < |rows| && rows[i] == row;
        assert RowAt(rows, i, roles) && row.Keys == roles;
      }
    }
    if forall row | row in rows :: forall role :: role in row <==> role in roles {
      forall i | 0 <= i < |rows| ensures RowAt(rows, i, roles) {
        assert rows[i] in rows;
        assert forall role :: role in rows[i].Keys <==> role in roles;
      }
    }
  }

  /** The accounting of paired_memory over validated rows. */
  method Account(control: seq<Row>, enabled: seq<Row>, shared: seq<Role>) returns (r: Report)
    requires control != [] && enabled != []
    ensures Summarises(r, control, enabled, shared)
  {
    var floors, base := Floors(control, shared);
    var tracer, additional, totals := Accumulate(enabled, shared, floors, base);
    InstallationPeakIsGreatest(enabled, tracer);
    SharedPeakIsGreatest(control, enabled, shared, base, additional);
    PeakIsLeastBound(control, enabled, shared, base, totals);
    var peak := Max(totals);
    PassedMeansBounded(control, enabled, shared, peak, LIMIT);
    r := Report(|enabled|, floors, Max(tracer), Max(additional), peak, peak <= LIMIT);
  }

  /** paired_memory; shared lists the set of shared roles in the order it is walked. */
  method PairedMemory(control: Stream, enabled: Stream, seconds: nat, shared: seq<Role>) returns (r: Option<Report>)
    ensures r.Some? <==>
              && Selected in shared && Node !in shared && Api !in shared && 1 <= seconds <= 1800
              && control.clean && enabled.clean && |control.rows| == |enabled.rows| == seconds + 1
              && (forall row | row in control.rows :: forall role :: role in row <==> role in shared)
              && (forall row | row in enabled.rows ::
                    forall role :: role in row <==> role in shared || role == Node || role == Api)
    ensures r.Some? ==> Summarises(r.value, control.rows, enabled.rows, shared)
  {
    PairableExact(control, enabled, seconds, shared);
    if !Pairable(control, enabled, seconds, shared) {
      return None;
    }
    var report := Account(control.rows, enabled.rows, shared);
    return Some(report);
  }

  // ------------------------------------------------------- against net increases

  function Total(row: Row, shared: seq<Role>): nat {
    if shared == [] then 0 else WorkingSet(row, shared[0]) + Total(row, shared[1..])
  }

  lemma {:induction false} GrowthCoversDifference(row: Row, shared: seq<Role>, before: Row, base: seq<nat>)
    requires |base| == |shared| && forall i | 0 <= i < |shared| :: base[i] == WorkingSet(before, shared[i])
    ensures Total(row, shared) - Total(before, shared) <= Growth(row, shared, base)
  {
    if shared != [] {
      GrowthCoversDifference(row, shared[1..], before, base[1..]);
    }
  }

  /** A bound on every alignment bounds the net increase between any one control
      sample and any one enabled sample, reductions credited. */
  lemma {:induction false} NetIncreaseBounded(
    control: seq<Row>, enabled: seq<Row>, shared: seq<Role>, bound: nat, k: nat, e: nat)
    requires Bounds(control, enabled, shared, bound) && k < |control| && e < |enabled|
    ensures Installed(enabled[e]) + Total(enabled[e], shared) - Total(control[k], shared) <= bound
  {
    var pick := seq(|shared|, _ => k);
    assert Aligns(control, shared, pick);
    GrowthCoversDifference(enabled[e], shared, control[k], Baseline(control, shared, pick));
    assert Incremental(control, enabled, shared, e, pick) <= bound;
  }
}
