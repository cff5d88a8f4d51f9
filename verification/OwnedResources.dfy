/** Deletion of exactly the objects a run created (owned_resources.py), while
    other actors change the same cluster and any response may be lost. */
module OwnedResources {
  import opened Wrappers

  datatype Kind = Namespace | Other(name: string)
  datatype Resource = Resource(kind: Kind, name: string, namespace: string)

  /** What a cluster call gives back: an answer, an error that cleanup handles,
      or an interruption that it does not. A lost answer is one of the last two. */
  datatype Reply<+T> = Answer(value: T) | Failed | Interrupted

  /** What was asked of the cluster and what came of it. */
  datatype Call =
    | Read(resource: Resource, found: Option<string>)
    | ReadFailed(resource: Resource)
    | Creation(resource: Resource, made: Option<string>, answer: Option<string>)
    | Deletion(resource: Resource, uid: string, removed: Option<string>, acknowledged: bool)

  /** The API server and everyone else who uses it. */
  class Cluster {
    var objects: map<Resource, string>
    ghost var log: seq<Call>

    constructor ()
      ensures log == []
    {
      objects, log := map[], [];
    }

    /** Any number of steps by other actors. */
    method Others()
      modifies this`objects
    {
      objects := *;
    }

    /** A read answers what is there after any steps of others, or its answer is lost. */
    method Get(resource: Resource) returns (r: Reply<Option<string>>)
      modifies this
      ensures r.Answer? ==> r.value == if resource in objects then Some(objects[resource]) else None
      ensures log == old(log) + [if r.Answer? then Read(resource, r.value) else ReadFailed(resource)]
    {
      Others();
      var lost: bool, interrupted: bool := *, *;
      if lost {
        r := if interrupted then Interrupted else Failed;
        log := log + [ReadFailed(resource)];
      } else {
        r := Answer(if resource in objects then Some(objects[resource]) else None);
        log := log + [Read(resource, r.value)];
      }
    }

    /** The server may create the object and the answer still be lost or wrong. */
    method Create(resource: Resource) returns (r: Reply<string>)
      modifies this
      ensures |log| == |old(log)| + 1 && old(log) <= log
      ensures var call := log[|old(log)|];
              && call.Creation? && call.resource == resource
              && call.answer == (if r.Answer? then Some(r.value) else None)
              && (call.made.Some? ==> resource in objects && objects[resource] == call.made.value)
              && (r.Answer? ==> call.made == Some(r.value))
    {
      Others();
      var rejected: bool, lost: bool, interrupted: bool, uid: string := *, *, *, *;
      ghost var made: Option<string> := None;
      if !rejected && resource !in objects {
        objects := objects[resource := uid];
        made := Some(uid);
        r := Answer(uid);
      } else {
        r := Failed;
      }
      if lost {
        r := if interrupted then Interrupted else Failed;
      }
      log := log + [Creation(resource, made, if r.Answer? then Some(r.value) else None)];
    }

    /** A delete with a UID precondition removes nothing but that very object. */
    method Delete(resource: Resource, uid: string) returns (r: Reply<()>)
      modifies this
      ensures exists removed: Option<string> ::
                && log == old(log) + [Deletion(resource, uid, removed, r.Answer?)]
                && (removed.Some? ==> removed.value == uid)
    {
      Others();
      var rejected: bool, lost: bool, interrupted: bool := *, *, *;
      ghost var removed: Option<string> := None;
      if !rejected && resource in objects && objects[resource] == uid {
        removed := Some(uid);
        objects := objects - {resource};
        r := Answer(());
      } else {
        r := Failed;
      }
      if lost {
        r := if interrupted then Interrupted else Failed;
      }
      log := log + [Deletion(resource, uid, removed, r.Answer?)];
    }
  }

  // ------------------------------------------------------------------ the ledger

  datatype Receipt = Receipt(resource: Resource, uid: string)

  /** The call may be traced back to an ownership record. */
  ghost predicate Owns(owned: map<Resource, string>, call: Call) {
    call.Deletion? ==>
      && call.resource in owned && owned[call.resource] == call.uid
      && (call.removed.Some? ==> call.removed.value == call.uid)
  }

  /** Nothing was deleted, or asked to be, but recorded objects under their UIDs. */
  ghost predicate OnlyOwned(owned: map<Resource, string>, log: seq<Call>) {
    forall k | 0 <= k < |log| :: Owns(owned, log[k])
  }

  /** A creation was answered with the UID on record, or is a conflict. */
  ghost predicate Accounted(owned: map<Resource, string>, conflicts: set<Resource>, call: Call) {
    call.Creation? ==>
      call.resource in conflicts || (call.resource in owned && call.answer == Some(owned[call.resource]))
  }

  /** The creation was answered, and its resource is on record under that UID. */
  ghost predicate Confirmed(owned: map<Resource, string>, call: Call)
    requires call.Creation?
  {
    call.resource in owned && call.answer == Some(owned[call.resource])
  }

  ghost predicate AllAccounted(owned: map<Resource, string>, conflicts: set<Resource>, log: seq<Call>) {
    forall k | 0 <= k < |log| :: Accounted(owned, conflicts, log[k])
  }

  /** Creations stay accounted for as records and conflicts are added. */
  lemma {:induction false} AccountedMore(
    before: map<Resource, string>, fewer: set<Resource>, log: seq<Call>,
    owned: map<Resource, string>, conflicts: set<Resource>, calls: seq<Call>)
    requires AllAccounted(before, fewer, log) && fewer <= conflicts
    requires forall r | r in before :: r in owned && owned[r] == before[r]
    requires forall k | 0 <= k < |calls| :: Accounted(owned, conflicts, calls[k])
    ensures AllAccounted(owned, conflicts, log + calls)
  {
    forall k | 0 <= k < |log + calls| ensures Accounted(owned, conflicts, (log + calls)[k]) {
      if k < |log| {
        assert Accounted(before, fewer, log[k]);
      }
    }
  }

  /** Every owned resource once, in the order of recording. */
  ghost predicate Ordered(owned: map<Resource, string>, order: seq<Resource>) {
    && (forall r | r in order :: r in owned) && (forall r | r in owned :: r in order)
    && (forall i, j | 0 <= i < j < |order| :: order[i] != order[j])
  }

  ghost predicate Receipted(owned: map<Resource, string>, order: seq<Resource>, receipts: map<nat, Receipt>) {
    forall i | i in receipts ::
      i < |order| && order[i] in owned && receipts[i] == Receipt(order[i], owned[order[i]])
  }

  /** The call shows the resource gone or its deletion accepted. */
  ghost predicate Settles(call: Call, resource: Resource, uid: string) {
    || call == Read(resource, None)
    || (call.Deletion? && call.resource == resource && call.uid == uid && call.acknowledged)
  }

  /** The resource was read and, being found under its recorded UID, asked to be deleted. */
  ghost predicate TriedAt(log: seq<Call>, k: nat, resource: Resource, uid: string) {
    && k < |log| && (log[k] == ReadFailed(resource) || (log[k].Read? && log[k].resource == resource))
    && (log[k] == Read(resource, Some(uid)) ==>
          k + 1 < |log| && log[k + 1].Deletion? && log[k + 1].resource == resource && log[k + 1].uid == uid)
  }

  ghost predicate Tried(log: seq<Call>, from: nat, resource: Resource, uid: string) {
    exists k | from <= k < |log| :: TriedAt(log, k, resource, uid)
  }

  lemma {:induction false} TriedKept(log: seq<Call>, all: seq<Call>, from: nat, resource: Resource, uid: string)
    requires Tried(log, from, resource, uid) && log <= all
    ensures Tried(all, from, resource, uid)
  {
    var k :| from <= k < |log| && TriedAt(log, k, resource, uid);
    assert all[k] == log[k] && (k + 1 < |log| ==> all[k + 1] == log[k + 1]);
    assert TriedAt(all, k, resource, uid);
  }

  ghost predicate SettledBetween(log: seq<Call>, from: nat, to: nat, resource: Resource, uid: string) {
    exists j | from <= j < to && j < |log| :: Settles(log[j], resource, uid)
  }

  /** If call k asks to delete a namespace, every owned object that is not one was
      settled before, since the clean-up began. */
  ghost predicate NamespaceLast(owned: map<Resource, string>, log: seq<Call>, from: nat, k: nat)
    requires k < |log|
  {
    log[k].Deletion? && log[k].resource.kind.Namespace? ==>
      forall r | r in owned && !r.kind.Namespace? :: SettledBetween(log, from, k, r, owned[r])
  }

  ghost predicate NamespacesLast(owned: map<Resource, string>, log: seq<Call>, from: nat) {
    forall k | from <= k < |log| :: NamespaceLast(owned, log, from, k)
  }

  /** Appending calls keeps the order of deletions, if every owned object that is
      not a namespace was settled before any namespace among them is deleted. */
  lemma {:induction false} NamespacesExtended(owned: map<Resource, string>, log: seq<Call>, all: seq<Call>, from: nat)
    requires NamespacesLast(owned, log, from) && log <= all && from <= |log|
    requires (exists k | |log| <= k < |all| :: all[k].Deletion? && all[k].resource.kind.Namespace?) ==>
               forall r | r in owned && !r.kind.Namespace? :: SettledBetween(log, from, |log|, r, owned[r])
    ensures NamespacesLast(owned, all, from)
  {
    forall k | from <= k < |all| ensures NamespaceLast(owned, all, from, k) {
      if all[k].Deletion? && all[k].resource.kind.Namespace? {
        assert k < |log| ==> log[k] == all[k] && NamespaceLast(owned, log, from, k);
        forall r | r in owned && !r.kind.Namespace? ensures SettledBetween(all, from, k, r, owned[r]) {
          var j :| from <= j < k && j < |log| && Settles(log[j], r, owned[r]);
          assert all[j] == log[j];
        }
      }
    }
  }

  lemma {:induction false} SettledWider(log: seq<Call>, all: seq<Call>, from: nat, resource: Resource, uid: string)
    requires SettledBetween(log, from, |log|, resource, uid) && log <= all
    ensures SettledBetween(all, from, |all|, resource, uid)
  {
    var j :| from <= j < |log| && Settles(log[j], resource, uid);
    assert all[j] == log[j];
  }

  lemma {:induction false} SettledEarlier(log: seq<Call>, early: nat, late: nat, resource: Resource, uid: string)
    requires early <= late && SettledBetween(log, late, |log|, resource, uid)
    ensures SettledBetween(log, early, |log|, resource, uid)
  {
    var j :| late <= j < |log| && Settles(log[j], resource, uid);
    assert early <= j && Settles(log[j], resource, uid);
  }

  ghost predicate NoNamespace(log: seq<Call>, from: nat) {
    forall k | from <= k < |log| :: !(log[k].Deletion? && log[k].resource.kind.Namespace?)
  }

  ghost predicate NoDeletion(log: seq<Call>, from: nat) {
    forall k | from <= k < |log| :: !log[k].Deletion?
  }

  ghost predicate SeenAbsent(log: seq<Call>, from: nat, resource: Resource) {
    exists k | from <= k < |log| :: log[k] == Read(resource, None)
  }

  /** After the last deletion every owned resource was read absent. */
  ghost predicate AllGone(owned: map<Resource, string>, log: seq<Call>, start: nat) {
    exists from | start <= from <= |log| :: NoDeletion(log, from) && forall r | r in owned :: SeenAbsent(log, from, r)
  }

  function Reverse(s: seq<Resource>): (r: seq<Resource>)
    ensures |r| == |s|
  {
    if s == [] then [] else Reverse(s[1..]) + [s[0]]
  }

  /** A stable sort on one boolean key. */
  function Pick(s: seq<Resource>, namespaces: bool): seq<Resource> {
    if s == [] then []
    else (if s[0].kind.Namespace? == namespaces then [s[0]] else []) + Pick(s[1..], namespaces)
  }

  function CleanupOrder(order: seq<Resource>): seq<Resource> {
    Pick(Reverse(order), false) + Pick(Reverse(order), true)
  }

  lemma {:induction false} ReverseMembers(s: seq<Resource>, r: Resource)
    ensures r in Reverse(s) <==> r in s
  {
    if s != [] {
      ReverseMembers(s[1..], r);
      assert s == [s[0]] + s[1..];
    }
  }

  lemma {:induction false} PickMembers(s: seq<Resource>, namespaces: bool, r: Resource)
    ensures r in Pick(s, namespaces) <==> r in s && r.kind.Namespace? == namespaces
  {
    if s != [] {
      PickMembers(s[1..], namespaces, r);
      assert s == [s[0]] + s[1..];
    }
  }

  /** In clean-up order, whatever precedes a namespace includes every owned object
      that is not one. */
  lemma {:induction false} ChildrenFirst(order: seq<Resource>, i: nat, r: Resource)
    requires i < |CleanupOrder(order)| && CleanupOrder(order)[i].kind.Namespace?
    requires r in order && !r.kind.Namespace?
    ensures r in CleanupOrder(order)[..i]
  {
    var children := Pick(Reverse(order), false);
    ReverseMembers(order, r);
    PickMembers(Reverse(order), false, r);
    PickMembers(Reverse(order), false, CleanupOrder(order)[i]);
    assert forall j | 0 <= j < |children| :: children[j] in children;
    assert i >= |children|;
    assert children <= CleanupOrder(order)[..i];
  }

  lemma {:induction false} CleanupMembers(order: seq<Resource>, r: Resource)
    ensures r in CleanupOrder(order) <==> r in order
  {
    ReverseMembers(order, r);
    PickMembers(Reverse(order), false, r);
    PickMembers(Reverse(order), true, r);
  }

  /** In clean-up order, of two objects of the same class the one recorded later
      comes first. */
  ghost predicate RecordedLater(order: seq<Resource>, first: Resource, second: Resource) {
    exists i, j | 0 <= j < i < |order| :: order[i] == first && order[j] == second
  }

  lemma {:induction false} ReverseAt(s: seq<Resource>, k: nat)
    requires k < |s|
    ensures Reverse(s)[k] == s[|s| - 1 - k]
  {
    if |s| > 1 {
      ReverseAt(s[1..], if k < |s| - 1 then k else 0);
    }
  }

  /** What is picked keeps its order. */
  lemma {:induction false} PickKeepsOrder(s: seq<Resource>, namespaces: bool, a: nat, b: nat) returns (i: nat, j: nat)
    requires a < b < |Pick(s, namespaces)|
    ensures i < j < |s| && s[i] == Pick(s, namespaces)[a] && s[j] == Pick(s, namespaces)[b]
  {
    var tail := Pick(s[1..], namespaces);
    if s[0].kind.Namespace? != namespaces {
      i, j := PickKeepsOrder(s[1..], namespaces, a, b);
      i, j := i + 1, j + 1;
    } else if a > 0 {
      i, j := PickKeepsOrder(s[1..], namespaces, a - 1, b - 1);
      i, j := i + 1, j + 1;
    } else {
      PickMembers(s[1..], namespaces, tail[b - 1]);
      assert tail[b - 1] in tail;
      var k :| 0 <= k < |s| - 1 && s[1..][k] == tail[b - 1];
      i, j := 0, k + 1;
    }
  }

  lemma {:induction false} PickDescends(order: seq<Resource>, namespaces: bool, a: nat, b: nat)
    requires a < b < |Pick(Reverse(order), namespaces)|
    ensures var p := Pick(Reverse(order), namespaces); RecordedLater(order, p[a], p[b])
  {
    var i, j := PickKeepsOrder(Reverse(order), namespaces, a, b);
    ReverseAt(order, i);
    ReverseAt(order, j);
    assert order[|order| - 1 - i] == Pick(Reverse(order), namespaces)[a];
  }

  lemma {:induction false} CleanupDescends(order: seq<Resource>, a: nat, b: nat)
    requires a < b < |CleanupOrder(order)|
    requires CleanupOrder(order)[a].kind.Namespace? == CleanupOrder(order)[b].kind.Namespace?
    ensures RecordedLater(order, CleanupOrder(order)[a], CleanupOrder(order)[b])
  {
    var all, children := CleanupOrder(order), Pick(Reverse(order), false);
    var namespaces := Pick(Reverse(order), true);
    PickMembers(Reverse(order), false, all[a]);
    PickMembers(Reverse(order), true, all[b]);
    if a < |children| {
      assert all[a] in children;
    }
    if b < |children| {
      PickDescends(order, false, a, b);
    } else {
      assert all[b] == namespaces[b - |children|] && all[b] in namespaces;
      PickDescends(order, true, a - |children|, b - |children|);
    }
  }

  /** Every call since then concerns one of the first n resources. */
  ghost predicate CallsAmong(log: seq<Call>, from: nat, resources: seq<Resource>, n: nat)
    requires n <= |resources|
  {
    forall k | from <= k < |log| :: log[k].resource in resources[..n]
  }

  ghost predicate InOrder(order: seq<Resource>, first: Call, second: Call) {
    first.Deletion? && second.Deletion? && first.resource.kind.Namespace? == second.resource.kind.Namespace? ==>
      RecordedLater(order, first.resource, second.resource)
  }

  /** Of two deletions of the same class the one asked for first is of the object
      recorded later, so in particular of another object. */
  ghost predicate LatestFirst(log: seq<Call>, from: nat, order: seq<Resource>) {
    forall k, m | from <= k < m < |log| :: InOrder(order, log[k], log[m])
  }

  /** The calls that CleanupOne appends: of the next resource in clean-up order, and
      at most one of them, the last, a deletion. */
  ghost predicate NextCalls(log: seq<Call>, all: seq<Call>, resource: Resource) {
    && log <= all
    && forall k | |log| <= k < |all| :: all[k].resource == resource && (all[k].Deletion? ==> k == |all| - 1)
  }

  lemma {:induction false} LatestFirstExtended(
    log: seq<Call>, all: seq<Call>, from: nat, order: seq<Resource>, n: nat)
    requires n < |CleanupOrder(order)| && from <= |log| && NextCalls(log, all, CleanupOrder(order)[n])
    requires LatestFirst(log, from, order) && CallsAmong(log, from, CleanupOrder(order), n)
    ensures LatestFirst(all, from, order) && CallsAmong(all, from, CleanupOrder(order), n + 1)
  {
    var resources := CleanupOrder(order);
    assert resources[..n + 1] == resources[..n] + [resources[n]];
    forall k | from <= k < |all| ensures all[k].resource in resources[..n + 1] {
      assert k < |log| ==> log[k] == all[k];
    }
    forall k, m | from <= k < m < |all| ensures InOrder(order, all[k], all[m]) {
      if m < |log| {
        assert InOrder(order, log[k], log[m]);
      } else if all[k].Deletion? && all[m].Deletion?
             && all[k].resource.kind.Namespace? == all[m].resource.kind.Namespace? {
        assert all[k] == log[k];
        var a :| 0 <= a < n && resources[a] == all[k].resource;
        CleanupDescends(order, a, n);
      }
    }
  }

  lemma {:induction false} LatestFirstKept(log: seq<Call>, all: seq<Call>, from: nat, order: seq<Resource>)
    requires LatestFirst(log, from, order) && log <= all && NoDeletion(all, |log|)
    ensures LatestFirst(all, from, order)
  {
    forall k, m | from <= k < m < |all| ensures InOrder(order, all[k], all[m]) {
      assert m < |log| ==> InOrder(order, log[k], log[m]);
    }
  }

  lemma {:induction false} CleanupDistinct(owned: map<Resource, string>, order: seq<Resource>, a: nat, b: nat)
    requires Ordered(owned, order) && a < b < |CleanupOrder(order)|
    ensures CleanupOrder(order)[a] != CleanupOrder(order)[b]
  {
    if CleanupOrder(order)[a] == CleanupOrder(order)[b] {
      CleanupDescends(order, a, b);
    }
  }

  // ------------------------------------------------- how thorough a clean-up was

  ghost predicate Settled(owned: map<Resource, string>, log: seq<Call>, from: nat, r: Resource) {
    r in owned && SettledBetween(log, from, |log|, r, owned[r])
  }

  ghost predicate SettledUpTo(owned: map<Resource, string>, log: seq<Call>, from: nat, resources: seq<Resource>, n: nat)
    requires n <= |resources|
  {
    forall i | 0 <= i < n :: Settled(owned, log, from, resources[i])
  }

  /** A resource before which everything was settled was tried, namespace or not. */
  ghost predicate Reached(owned: map<Resource, string>, log: seq<Call>, from: nat, resources: seq<Resource>, i: nat)
    requires i < |resources|
  {
    SettledUpTo(owned, log, from, resources, i) ==>
      resources[i] in owned && Tried(log, from, resources[i], owned[resources[i]])
  }

  /** After n resources there is an error exactly if one of them is not settled. */
  ghost predicate Thorough(owned: map<Resource, string>, log: seq<Call>, from: nat, resources: seq<Resource>, n: nat,
                           failed: bool)
    requires n <= |resources|
  {
    && (failed <==> !SettledUpTo(owned, log, from, resources, n))
    && forall i | 0 <= i < n :: Reached(owned, log, from, resources, i)
  }

  lemma {:induction false} SettledAlready(
    owned: map<Resource, string>, log: seq<Call>, all: seq<Call>, from: nat, r: Resource)
    requires log <= all && from <= |log| && forall k | |log| <= k < |all| :: all[k].resource != r
    ensures Settled(owned, log, from, r) <==> Settled(owned, all, from, r)
  {
    if Settled(owned, log, from, r) {
      SettledWider(log, all, from, r, owned[r]);
    }
    if Settled(owned, all, from, r) {
      var j :| from <= j < |all| && Settles(all[j], r, owned[r]);
      assert j < |log| && log[j] == all[j];
    }
  }

  /** One more resource, tried or skipped after a failure, keeps the clean-up thorough. */
  lemma {:induction false} ThoroughExtended(
    owned: map<Resource, string>, order: seq<Resource>, log: seq<Call>, all: seq<Call>, from: nat, n: nat,
    failed: bool, after: bool)
    requires Ordered(owned, order) && n < |CleanupOrder(order)| && from <= |log|
    requires Thorough(owned, log, from, CleanupOrder(order), n, failed)
    requires CallsAmong(log, from, CleanupOrder(order), n) && NextCalls(log, all, CleanupOrder(order)[n])
    requires CleanupOrder(order)[n] in owned
    requires failed || Tried(all, |log|, CleanupOrder(order)[n], owned[CleanupOrder(order)[n]])
    requires after <==> failed || !Settled(owned, all, |log|, CleanupOrder(order)[n])
    ensures Thorough(owned, all, from, CleanupOrder(order), n + 1, after)
  {
    var resources := CleanupOrder(order);
    forall i | 0 <= i < n
      ensures resources[i] != resources[n]
      ensures Settled(owned, log, from, resources[i]) <==> Settled(owned, all, from, resources[i])
    {
      CleanupDistinct(owned, order, i, n);
      SettledAlready(owned, log, all, from, resources[i]);
    }
    SettledFirstNow(owned, log, all, from, resources[n]);
    forall i | 0 <= i < n + 1 ensures Reached(owned, all, from, resources, i) {
      if i < n && SettledUpTo(owned, all, from, resources, i) {
        assert Reached(owned, log, from, resources, i);
        TriedKept(log, all, from, resources[i], owned[resources[i]]);
      } else if i == n && !failed {
        var k :| |log| <= k < |all| && TriedAt(all, k, resources[n], owned[resources[n]]);
      }
    }
    assert SettledUpTo(owned, all, from, resources, n) <==> SettledUpTo(owned, log, from, resources, n);
  }

  lemma {:induction false} SettledFirstNow(
    owned: map<Resource, string>, log: seq<Call>, all: seq<Call>, from: nat, r: Resource)
    requires from <= |log| && log <= all && forall k | from <= k < |log| :: log[k].resource != r
    ensures Settled(owned, all, |log|, r) <==> Settled(owned, all, from, r)
  {
    if Settled(owned, all, |log|, r) {
      SettledEarlier(all, from, |log|, r, owned[r]);
    }
    if Settled(owned, all, from, r) {
      var j :| from <= j < |all| && Settles(all[j], r, owned[r]);
      assert j < |log| ==> log[j] == all[j];
    }
  }

  /** Nothing was deleted since then, and after that either a read failed last, or so
      many polls found something still there. */
  ghost predicate Unfinished(log: seq<Call>, from: nat, polls: nat) {
    && from <= |log| && NoDeletion(log, from)
    && ((|log| > from && log[|log| - 1].ReadFailed?)
        || exists seen: seq<nat> :: |seen| == polls && Presence(log, from, seen))
  }

  ghost predicate FoundAt(log: seq<Call>, from: nat, k: nat) {
    from <= k < |log| && log[k].Read? && log[k].found.Some?
  }

  /** Successive calls that found something. */
  ghost predicate Presence(log: seq<Call>, from: nat, seen: seq<nat>) {
    && (forall p | 0 <= p < |seen| :: FoundAt(log, from, seen[p]))
    && forall p, q | 0 <= p < q < |seen| :: seen[p] < seen[q]
  }

  lemma {:induction false} FoundKept(log: seq<Call>, all: seq<Call>, from: nat)
    requires log <= all && exists k :: FoundAt(log, from, k)
    ensures exists k :: FoundAt(all, from, k)
  {
    var k :| FoundAt(log, from, k);
    assert FoundAt(all, from, k);
  }

  lemma {:induction false} PresenceGrows(log: seq<Call>, all: seq<Call>, from: nat, seen: seq<nat>, k: nat)
    requires log <= all && from <= |log| && Presence(log, from, seen) && FoundAt(all, |log|, k)
    ensures Presence(all, from, seen + [k])
  {
    forall p | 0 <= p < |seen| ensures FoundAt(all, from, seen[p]) && seen[p] < |log| {
      assert FoundAt(log, from, seen[p]);
    }
    assert FoundAt(all, from, k);
  }

  datatype Status = Done | Raised | Broken

  class OwnedResources {
    const api: Cluster
    var owned: map<Resource, string>
    var order: seq<Resource>
    var conflicts: set<Resource>
    var receipts: map<nat, Receipt>

    ghost predicate Ledger()
      reads this, api
    {
      Ordered(owned, order) && OnlyOwned(owned, api.log) && Receipted(owned, order, receipts)
    }

    /** Besides, no creation of this run is forgotten: whatever was not confirmed and
        recorded is a conflict. */
    ghost predicate Valid()
      reads this, api
    {
      Ledger() && AllAccounted(owned, conflicts, api.log)
    }

    constructor (api: Cluster)
      requires api.log == []
      ensures Valid() && this.api == api && owned == map[] && conflicts == {}
    {
      this.api := api;
      owned, order, conflicts, receipts := map[], [], {}, map[];
    }

    /** remember: the record is kept even if its receipt cannot be written, and no
        earlier record or receipt is ever replaced. */
    method Remember(resource: Resource, uid: string, writes: bool) returns (ok: bool)
      requires Ledger()
      modifies this
      ensures Ledger() && (old(Valid()) ==> Valid())
      ensures conflicts == old(conflicts) && api.log == old(api.log)
      ensures owned == if resource !in old(owned) && 0 < |uid| <= 128 then old(owned)[resource := uid] else old(owned)
      ensures order == if resource !in old(owned) && 0 < |uid| <= 128 then old(order) + [resource] else old(order)
      ensures ok <==> resource !in old(owned) && 0 < |uid| <= 128 && writes
      ensures ok ==> |old(order)| in receipts && receipts[|old(order)|] == Receipt(resource, uid)
      ensures forall i | i in old(receipts) :: i in receipts && receipts[i] == old(receipts)[i]
    {
      if !(0 < |uid| <= 128) || resource in owned {
        return false;
      }
      var index := |order|;
      owned, order := owned[resource := uid], order + [resource];
      OrderedMore(old(owned), old(order), resource, uid);
      OwnsMore(old(owned), resource, uid, api.log);
      if old(Valid()) {
        AccountedMore(old(owned), conflicts, api.log, owned, conflicts, []);
        assert api.log + [] == api.log;
      }
      if !writes {
        return false;
      }
      receipts := receipts[index := Receipt(resource, uid)];
      return true;
    }

    lemma {:induction false} OrderedMore(
      before: map<Resource, string>, earlier: seq<Resource>, resource: Resource, uid: string)
      requires resource !in before && Ordered(before, earlier)
      ensures Ordered(before[resource := uid], earlier + [resource])
    {
      var later := earlier + [resource];
      forall r | r in before[resource := uid] ensures r in later {
        assert r == resource ==> later[|earlier|] == r;
      }
    }

    lemma {:induction false} OwnsMore(before: map<Resource, string>, resource: Resource, uid: string, log: seq<Call>)
      requires resource !in before && OnlyOwned(before, log)
      ensures OnlyOwned(before[resource := uid], log)
    {
      forall k | 0 <= k < |log| ensures Owns(before[resource := uid], log[k]) {
        assert Owns(before, log[k]);
      }
    }

    /** create: unless the resource was already owned, every outcome but a complete
        success leaves the resource among the conflicts. */
    method Create(resource: Resource, writes: bool) returns (r: Reply<string>)
      requires Valid()
      modifies this, api
      ensures Valid()
      ensures resource in old(owned) ==> api.log == old(api.log)
      ensures resource !in old(owned) ==>
                && |api.log| == |old(api.log)| + 1 && old(api.log) <= api.log
                && var call := api.log[|old(api.log)|];
                   && call.Creation? && call.resource == resource
                   && (r.Answer? <==> call.answer.Some? && 0 < |call.answer.value| <= 128 && writes)
                   && (r.Answer? ==> r.value == call.answer.value)
      ensures resource in old(owned) ==> !r.Answer? && owned == old(owned) && conflicts == old(conflicts)
      ensures resource !in old(owned) && !r.Answer? ==> conflicts == old(conflicts) + {resource}
      ensures r.Answer? ==> owned == old(owned)[resource := r.value] && conflicts == old(conflicts)
                            && exists i :: i in receipts && receipts[i] == Receipt(resource, r.value)
      ensures forall o | o in old(owned) :: o in owned && owned[o] == old(owned)[o]
    {
      if resource in owned {
        return Failed;
      }
      r := api.Create(resource);
      ghost var call := api.log[|old(api.log)|];
      assert api.log == old(api.log) + [call] && call.Creation?;
      OnlyOwnedMore(owned, old(api.log), call);
      if r.Answer? {
        var kept := Remember(resource, r.value, writes);
        if !kept {
          r := Failed;
        }
      }
      if !r.Answer? {
        Conflict(resource);
      }
      AccountedMore(old(owned), old(conflicts), old(api.log), owned, conflicts, [call]);
    }

    /** conflict: recorded before its receipt is written; no conflict is removed. */
    method Conflict(resource: Resource)
      modifies this`conflicts
      ensures conflicts == old(conflicts) + {resource}
    {
      conflicts := conflicts + {resource};
    }

    lemma {:induction false} OnlyOwnedMore(records: map<Resource, string>, log: seq<Call>, call: Call)
      requires OnlyOwned(records, log) && Owns(records, call)
      ensures OnlyOwned(records, log + [call])
    {
      forall k | 0 <= k < |log + [call]| ensures Owns(records, (log + [call])[k]) {
        if k < |log| {
          assert Owns(records, log[k]);
        }
      }
    }

    method ReadObject(resource: Resource) returns (r: Reply<Option<string>>)
      requires Valid()
      modifies api
      ensures Valid()
      ensures api.log == old(api.log) + [if r.Answer? then Read(resource, r.value) else ReadFailed(resource)]
    {
      r := api.Get(resource);
      ghost var call := if r.Answer? then Read(resource, r.value) else ReadFailed(resource);
      OnlyOwnedMore(owned, old(api.log), call);
      AccountedMore(owned, conflicts, old(api.log), owned, conflicts, [call]);
    }

    /** verify: succeeds only on reading the recorded UID. */
    method Verify(resource: Resource) returns (r: Reply<string>)
      requires Valid()
      modifies api
      ensures Valid()
      ensures resource !in owned ==> !r.Answer? && api.log == old(api.log)
      ensures resource in owned ==>
                && |api.log| == |old(api.log)| + 1 && old(api.log) <= api.log
                && (r.Answer? <==> api.log[|old(api.log)|] == Read(resource, Some(owned[resource])))
                && (r.Answer? ==> r.value == owned[resource])
    {
      if resource !in owned {
        return Failed;
      }
      var document := ReadObject(resource);
      if document.Answer? && document.value == Some(owned[resource]) {
        return Answer(owned[resource]);
      }
      return if document.Interrupted? then Interrupted else Failed;
    }

    /** delete: at most one deletion is asked for, of the recorded UID, and only
        after reading it; success means gone or accepted. */
    method Delete(resource: Resource) returns (status: Status)
      requires Valid()
      modifies api
      ensures Valid() && old(api.log) <= api.log && |api.log| <= |old(api.log)| + 2
      ensures resource !in owned ==> api.log == old(api.log) && status == Raised
      ensures resource in owned ==> TriedAt(api.log, |old(api.log)|, resource, owned[resource])
      ensures NextCalls(old(api.log), api.log, resource)
      ensures forall k | |old(api.log)| <= k < |api.log| && api.log[k].Deletion? ::
                k == |old(api.log)| + 1 && resource in owned && api.log[k].resource == resource
                && api.log[k - 1] == Read(resource, Some(owned[resource]))
      ensures status == Done <==> Settled(owned, api.log, |old(api.log)|, resource)
    {
      if resource !in owned {
        return Raised;
      }
      ghost var start := |api.log|;
      var document := ReadObject(resource);
      if !document.Answer? {
        return if document.Interrupted? then Broken else Raised;
      }
      if document.value.None? {
        assert Settles(api.log[start], resource, owned[resource]);
        return Done;
      }
      if document.value.value != owned[resource] {
        return Raised;
      }
      ghost var read := api.log;
      var reply := api.Delete(resource, owned[resource]);
      OnlyOwnedMore(owned, read, api.log[|read|]);
      AccountedMore(owned, conflicts, read, owned, conflicts, [api.log[|read|]]);
      assert api.log == read + [api.log[|read|]];
      if reply.Answer? {
        assert Settles(api.log[start + 1], resource, owned[resource]);
        return Done;
      }
      return if reply.Interrupted? then Broken else Raised;
    }

    ghost predicate Progress(start: nat, resources: seq<Resource>, n: nat, errors: set<Resource>)
      requires n <= |resources|
      reads this, api
    {
      && start <= |api.log| && conflicts <= errors
      && NamespacesLast(owned, api.log, start)
      && (conflicts != {} ==> NoNamespace(api.log, start))
      && (errors == {} ==> forall r | r in resources[..n] && r in owned ::
            SettledBetween(api.log, start, |api.log|, r, owned[r]))
      && AllTried(start, resources[..n])
    }

    /** Every owned object but namespaces was tried, whatever became of the others. */
    ghost predicate AllTried(start: nat, resources: seq<Resource>)
      reads this, api
    {
      forall r | r in resources && r in owned && !r.kind.Namespace? :: Tried(api.log, start, r, owned[r])
    }

    /** One iteration of the clean-up's first loop. */
    method CleanupOne(ghost start: nat, resources: seq<Resource>, n: nat, errors: set<Resource>)
      returns (interrupted: bool, after: set<Resource>)
      requires Valid() && n < |resources| && resources == CleanupOrder(order) && Progress(start, resources, n, errors)
      modifies api
      ensures Valid() && old(api.log) <= api.log && errors <= after
      ensures NextCalls(old(api.log), api.log, resources[n])
      ensures !interrupted ==>
                && resources[n] in owned
                && (errors != {} || Tried(api.log, |old(api.log)|, resources[n], owned[resources[n]]))
                && (after == {} <==> errors == {} && Settled(owned, api.log, |old(api.log)|, resources[n]))
      ensures NamespacesLast(owned, api.log, start) && (conflicts != {} ==> NoNamespace(api.log, start))
      ensures !interrupted ==> Progress(start, resources, n + 1, after)
    {
      interrupted, after := false, errors;
      var resource := resources[n];
      assert resources[..n + 1] == resources[..n] + [resource];
      CleanupMembers(order, resource);
      if resource.kind.Namespace? && errors != {} {
        return;
      }
      ghost var before := api.log;
      if resource.kind.Namespace? {
        forall r | r in owned && !r.kind.Namespace? ensures SettledBetween(before, start, |before|, r, owned[r]) {
          ChildrenFirst(order, n, r);
        }
      }
      var status := Delete(resource);
      NamespacesExtended(owned, before, api.log, start);
      forall r | r in resources[..n + 1] && r in owned && !r.kind.Namespace?
        ensures Tried(api.log, start, r, owned[r])
      {
        if r != resource {
          TriedKept(before, api.log, start, r, owned[r]);
        }
      }
      if status.Broken? {
        interrupted := true;
      } else if status.Raised? {
        after := errors + {resource};
      } else if errors == {} {
        SettledEarlier(api.log, start, |before|, resource, owned[resource]);
        forall r | r in resources[..n + 1] && r in owned
          ensures SettledBetween(api.log, start, |api.log|, r, owned[r])
        {
          if r != resource {
            SettledWider(before, api.log, start, r, owned[r]);
          }
        }
      }
    }

    /** The reads of one poll: which of the owned resources are still there. */
    method Remaining(ghost from: nat) returns (r: Reply<bool>)
      requires Valid() && from <= |api.log| && NoDeletion(api.log, from)
      modifies api
      ensures Valid() && old(api.log) <= api.log && NoDeletion(api.log, from)
      ensures r == Answer(false) ==> forall o | o in owned :: SeenAbsent(api.log, from, o)
      ensures r == Answer(true) ==> exists k :: FoundAt(api.log, |old(api.log)|, k)
      ensures r.Failed? ==> |api.log| > |old(api.log)| && api.log[|api.log| - 1].ReadFailed?
    {
      var present := false;
      for i := 0 to |order|
        invariant Valid() && old(api.log) <= api.log && NoDeletion(api.log, from)
        invariant !present ==> forall j | 0 <= j < i :: SeenAbsent(api.log, from, order[j])
        invariant present ==> exists k :: FoundAt(api.log, |old(api.log)|, k)
      {
        ghost var before := api.log;
        var document := ReadObject(order[i]);
        if !document.Answer? {
          return if document.Interrupted? then Interrupted else Failed;
        }
        if present {
          FoundKept(before, api.log, |old(api.log)|);
        }
        if document.value.Some? {
          present := true;
          assert FoundAt(api.log, |old(api.log)|, |before|);
        } else {
          assert api.log[|before|] == Read(order[i], None);
        }
        if !present {
          forall j | 0 <= j < i + 1 ensures SeenAbsent(api.log, from, order[j]) {
            if j < i {
              AbsentKept(before, api.log, from, order[j]);
            }
          }
        }
      }
      return Answer(present);
    }

    lemma {:induction false} AbsentKept(log: seq<Call>, all: seq<Call>, from: nat, resource: Resource)
      requires log <= all && SeenAbsent(log, from, resource)
      ensures SeenAbsent(all, from, resource)
    {
      var k :| from <= k < |log| && log[k] == Read(resource, None);
      assert all[k] == log[k];
    }

    lemma {:induction false} AllTriedKept(start: nat, resources: seq<Resource>, log: seq<Call>)
      requires log <= api.log
      requires forall r | r in resources && r in owned && !r.kind.Namespace? :: Tried(log, start, r, owned[r])
      ensures AllTried(start, order) || exists r :: r in order && r !in resources
    {
      if forall r | r in order :: r in resources {
        forall r | r in order && r in owned && !r.kind.Namespace? ensures Tried(api.log, start, r, owned[r]) {
          TriedKept(log, api.log, start, r, owned[r]);
        }
      }
    }

    /** The last loop of cleanup: nothing but reads, until all are absent in one poll. */
    method AwaitGone(polls: nat) returns (status: Status)
      requires Valid()
      modifies api
      ensures Valid() && old(api.log) <= api.log && NoDeletion(api.log, |old(api.log)|)
      ensures status == Done ==> forall o | o in owned :: SeenAbsent(api.log, |old(api.log)|, o)
      ensures status == Raised ==> Unfinished(api.log, |old(api.log)|, polls)
    {
      ghost var from := |api.log|;
      ghost var seen: seq<nat> := [];
      for poll := 0 to polls
        invariant Valid() && old(api.log) <= api.log && NoDeletion(api.log, from)
        invariant |seen| == poll && Presence(api.log, from, seen)
      {
        ghost var before := api.log;
        var remaining := Remaining(from);
        if !remaining.Answer? {
          return if remaining.Interrupted? then Broken else Raised;
        }
        if !remaining.value {
          return Done;
        }
        ghost var k :| FoundAt(api.log, |before|, k);
        PresenceGrows(before, api.log, from, seen, k);
        seen := seen + [k];
      }
      return Raised;
    }

    /** cleanup; polls is how often the clock is found before the deadline. It
        returns normally only without conflicts and with every owned resource read
        absent after the last deletion, so never after a creation of unknown outcome,
        in whatever earlier call; it tries every owned object that is not a
        namespace, and never asks to delete a namespace while a conflict exists or
        before every other owned object was settled. */
    method Cleanup(polls: nat) returns (status: Status)
      requires Valid()
      modifies api
      ensures Valid() && old(api.log) <= api.log
      ensures conflicts != {} ==> status != Done && NoNamespace(api.log, |old(api.log)|)
      ensures status == Done ==> forall k | 0 <= k < |api.log| && api.log[k].Creation? :: Confirmed(owned, api.log[k])
      ensures NamespacesLast(owned, api.log, |old(api.log)|)
      ensures status != Broken ==> AllTried(|old(api.log)|, order)
      ensures status == Done ==> AllGone(owned, api.log, |old(api.log)|)
      ensures LatestFirst(api.log, |old(api.log)|, order)
      ensures status != Broken && conflicts == {} ==>
                forall i | 0 <= i < |CleanupOrder(order)| ::
                  Reached(owned, api.log, |old(api.log)|, CleanupOrder(order), i)
      ensures status == Raised && conflicts == {} ==>
                || (exists r :: r in owned && !Settled(owned, api.log, |old(api.log)|, r))
                || exists from :: |old(api.log)| <= from && Unfinished(api.log, from, polls)
    {
      ghost var start := |api.log|;
      var interrupted, errors := DeleteAll();
      if interrupted {
        return Broken;
      }
      ghost var deleted := api.log;
      AllTriedKept(start, CleanupOrder(order), deleted);
      if errors != {} {
        if conflicts == {} {
          FailureShown(start);
        }
        return Raised;
      }
      status := AwaitGone(polls);
      NamespacesExtended(owned, deleted, api.log, start);
      LatestFirstKept(deleted, api.log, start, order);
      AllTriedKept(start, CleanupOrder(order), deleted);
      ReachedKept(deleted, api.log, start);
    }

    /** The clean-up's first loop. */
    method DeleteAll() returns (interrupted: bool, errors: set<Resource>)
      requires Valid()
      modifies api
      ensures Valid() && old(api.log) <= api.log && LatestFirst(api.log, |old(api.log)|, order)
      ensures NamespacesLast(owned, api.log, |old(api.log)|)
      ensures conflicts != {} ==> NoNamespace(api.log, |old(api.log)|)
      ensures !interrupted ==>
                && Progress(|old(api.log)|, CleanupOrder(order), |CleanupOrder(order)|, errors)
                && AllTried(|old(api.log)|, CleanupOrder(order))
                && (forall r | r in order :: r in CleanupOrder(order))
                && (errors == {} ==> forall r | r in owned :: Settled(owned, api.log, |old(api.log)|, r))
                && (conflicts == {} ==> Thorough(owned, api.log, |old(api.log)|, CleanupOrder(order),
                                                 |CleanupOrder(order)|, errors != {}))
    {
      ghost var start := |api.log|;
      var resources := CleanupOrder(order);
      interrupted, errors := false, conflicts;
      for n := 0 to |resources|
        invariant Valid() && old(api.log) <= api.log && !interrupted
        invariant Progress(start, resources, n, errors)
        invariant LatestFirst(api.log, start, order) && CallsAmong(api.log, start, resources, n)
        invariant conflicts == {} ==> Thorough(owned, api.log, start, resources, n, errors != {})
      {
        ghost var before, failed := api.log, errors != {};
        interrupted, errors := CleanupOne(start, resources, n, errors);
        LatestFirstExtended(before, api.log, start, order, n);
        if interrupted {
          return;
        }
        if conflicts == {} {
          ThoroughExtended(owned, order, before, api.log, start, n, failed, errors != {});
        }
      }
      assert resources[..|resources|] == resources;
      forall r | r in order ensures r in resources {
        CleanupMembers(order, r);
      }
    }

    lemma {:induction false} FailureShown(start: nat)
      requires Valid() && Thorough(owned, api.log, start, CleanupOrder(order), |CleanupOrder(order)|, true)
      ensures exists r :: r in owned && !Settled(owned, api.log, start, r)
    {
      var resources := CleanupOrder(order);
      var i :| 0 <= i < |resources| && !Settled(owned, api.log, start, resources[i]);
      CleanupMembers(order, resources[i]);
      assert resources[i] in owned;
    }

    /** Once everything is settled everything was tried, whatever is read afterwards. */
    lemma {:induction false} ReachedKept(log: seq<Call>, all: seq<Call>, start: nat)
      requires log <= all && start <= |log|
      requires Thorough(owned, log, start, CleanupOrder(order), |CleanupOrder(order)|, false)
      ensures forall i | 0 <= i < |CleanupOrder(order)| :: Reached(owned, all, start, CleanupOrder(order), i)
    {
      var resources := CleanupOrder(order);
      forall i | 0 <= i < |resources| ensures Reached(owned, all, start, resources, i) {
        assert Reached(owned, log, start, resources, i) && SettledUpTo(owned, log, start, resources, i);
        TriedKept(log, all, start, resources[i], owned[resources[i]]);
      }
    }
  }
}
