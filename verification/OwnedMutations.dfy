/** Reversible disruption of one owned object (owned_mutations.py) by JSON patches
    that test the object's UID and version first: a restoration never overwrites
    somebody else's write. */
module OwnedMutations {
  import opened Wrappers
  import opened OwnedResources

  // -------------------------------------------------- the server and its history

  datatype Field = Subjects | RoleRef | Ingress | Egress | Rest
  type Content = map<Field, seq<string>>

  /** Who wrote: this run, having tested this version, or anybody else. */
  datatype Actor = Us(base: nat) | Foreign

  datatype Object = Object(uid: string, content: Content)

  /** One write; the version of what it wrote is its place in the history. */
  datatype Write = Write(resource: Resource, actor: Actor, state: Option<Object>)

  datatype Document = Document(uid: string, version: nat, content: Content)

  predicate Touches(h: seq<Write>, k: nat, resource: Resource)
    requires k < |h|
  {
    h[k].resource == resource
  }

  function Current(h: seq<Write>, resource: Resource): Option<Document> {
    if h == [] then None
    else
      var k := |h| - 1;
      if h[k].resource == resource then
        (if h[k].state.None? then None else Some(Document(h[k].state.value.uid, k, h[k].state.value.content)))
      else Current(h[..k], resource)
  }

  ghost predicate Untouched(h: seq<Write>, from: nat, to: nat, resource: Resource) {
    forall k | from <= k < to && k < |h| :: !Touches(h, k, resource)
  }

  /** The current document is the last write to its resource. */
  lemma {:induction false} CurrentIsLast(h: seq<Write>, resource: Resource)
    requires Current(h, resource).Some?
    ensures var d := Current(h, resource).value;
            && d.version < |h| && Touches(h, d.version, resource)
            && h[d.version].state == Some(Object(d.uid, d.content))
            && Untouched(h, d.version + 1, |h|, resource)
  {
    var k := |h| - 1;
    if h[k].resource != resource {
      CurrentIsLast(h[..k], resource);
      var d := Current(h, resource).value;
      forall j | d.version + 1 <= j < |h| ensures !Touches(h, j, resource) {
        assert j < k ==> !Touches(h[..k], j, resource);
      }
    }
  }

  /** Our write replaced exactly the version it had tested. */
  ghost predicate NothingLost(h: seq<Write>, k: nat)
    requires k < |h|
  {
    h[k].actor.Us? ==>
      h[k].actor.base < k && Touches(h, h[k].actor.base, h[k].resource)
      && Untouched(h, h[k].actor.base + 1, k, h[k].resource)
  }

  ghost predicate NoLostWrites(h: seq<Write>, from: nat) {
    forall k | from <= k < |h| :: NothingLost(h, k)
  }

  lemma {:induction false} NothingLostKept(h: seq<Write>, all: seq<Write>, k: nat)
    requires h <= all && k < |h|
    ensures NothingLost(h, k) <==> NothingLost(all, k)
  {
    assert forall j: nat | j < |h| :: Touches(h, j, h[k].resource) <==> Touches(all, j, h[k].resource);
    assert all[k] == h[k];
    if h[k].actor.Us? && h[k].actor.base < k {
      var from, resource := h[k].actor.base + 1, h[k].resource;
      assert Untouched(h, from, k, resource) <==> Untouched(all, from, k, resource);
    }
  }

  lemma {:induction false} NoLostWritesKept(h: seq<Write>, all: seq<Write>, from: nat)
    requires h <= all && NoLostWrites(h, from)
    requires forall k | |h| <= k < |all| :: NothingLost(all, k)
    ensures NoLostWrites(all, from)
  {
    forall k | from <= k < |all| ensures NothingLost(all, k) {
      if k < |h| {
        NothingLostKept(h, all, k);
      }
    }
  }

  ghost predicate OthersOnly(h: seq<Write>, from: nat) {
    forall k | from <= k < |h| :: h[k].actor.Foreign?
  }

  /** A patch request: the version it tests and the field it sets. */
  datatype Request = Request(resource: Resource, version: nat, field: Field, value: seq<string>)

  class Cluster {
    var history: seq<Write>
    /** The documents read, and the patches sent with their answers. */
    ghost var fetched: seq<Option<Document>>
    ghost var sent: seq<Request>
    ghost var answers: seq<Option<Document>>

    constructor ()
      ensures history == [] && fetched == [] && sent == [] && answers == []
    {
      history, fetched, sent, answers := [], [], [], [];
    }

    /** Any number of writes and deletions by other actors. */
    method Others()
      modifies this`history
      ensures old(history) <= history && OthersOnly(history, |old(history)|)
    {
      var steps: int := *;
      while steps > 0
        invariant old(history) <= history && OthersOnly(history, |old(history)|)
      {
        steps := steps - 1;
        var resource: Resource, state: Option<Object> := *, *;
        history := history + [Write(resource, Foreign, state)];
      }
    }

    method Get(resource: Resource) returns (r: Option<Document>)
      modifies this`history, this`fetched
      ensures old(history) <= history && OthersOnly(history, |old(history)|)
      ensures fetched == old(fetched) + [r]
      ensures r.Some? ==> r == Current(history, resource)
    {
      Others();
      var lost: bool := *;
      r := if lost then None else Current(history, resource);
      fetched := fetched + [r];
    }

    /** A JSON patch that tests the UID and the version, then sets one field:
        applied as a whole or not at all; a patch that changes nothing writes
        nothing, and the answer may be lost either way. */
    method Patch(resource: Resource, uid: string, version: nat, field: Field, value: seq<string>, add: bool)
      returns (r: Option<Document>)
      modifies this`history, this`sent, this`answers
      ensures sent == old(sent) + [Request(resource, version, field, value)] && answers == old(answers) + [r]
      ensures old(history) <= history
      ensures forall k | |old(history)| <= k < |history| - 1 :: history[k].actor.Foreign?
      ensures NoLostWrites(history, |old(history)|)
      ensures OthersOnly(history, |old(history)|) || Applied(history, resource, uid, version, field, value)
      ensures r.Some? ==> r == Current(history, resource)
      ensures r.Some? && r.value.version != version ==> Applied(history, resource, uid, version, field, value)
    {
      Others();
      sent := sent + [Request(resource, version, field, value)];
      ghost var before := history;
      var rejected: bool, lost: bool := *, *;
      var current := Current(history, resource);
      if rejected || current.None? || current.value.uid != uid || current.value.version != version
         || (!add && field !in current.value.content) {
        answers := answers + [None];
        return None;
      }
      CurrentIsLast(history, resource);
      var content := current.value.content[field := value];
      if content != current.value.content {
        history := history + [Write(resource, Us(version), Some(Object(uid, content)))];
        assert history[..|history| - 1] == before;
        assert forall k: nat | k < |before| :: Touches(before, k, resource) <==> Touches(history, k, resource);
      }
      r := if lost then None else Current(history, resource);
      answers := answers + [r];
    }
  }

  /** The last write is ours, of the tested document with one field set. */
  ghost predicate Applied(
    h: seq<Write>, resource: Resource, uid: string, version: nat, field: Field, value: seq<string>)
  {
    && h != []
    && var w := h[|h| - 1];
       && w.resource == resource && w.actor == Us(version) && version < |h| - 1
       && w.state.Some? && w.state.value.uid == uid
       && h[version].resource == resource && h[version].state.Some? && h[version].state.value.uid == uid
       && w.state.value.content == h[version].state.value.content[field := value]
       && Untouched(h, version + 1, |h| - 1, resource)
  }

  // ---------------------------------------------------------------- the suspension

  datatype Status = Refused | Unrestored | Restored

  /** Writes b, v and w are what was read, our revocation and our restoration:
      nobody wrote the object in between, and it is again what it was. */
  ghost predicate Restoration(h: seq<Write>, resource: Resource, field: Field, b: nat, v: nat, w: nat) {
    && b < v < w < |h|
    && h[b].resource == h[v].resource == h[w].resource == resource
    && h[v].actor == Us(b) && h[w].actor == Us(v)
    && Untouched(h, b + 1, v, resource) && Untouched(h, v + 1, w, resource)
    && h[b].state.Some? && h[v].state.Some? && h[w].state == h[b].state
    && h[v].state.value.uid == h[b].state.value.uid
    && h[v].state.value.content == h[b].state.value.content[field := []]
  }

  /** Once somebody else has written the object after our revocation, this run
      writes it no more: that write survives. */
  ghost predicate Survives(h: seq<Write>, from: nat, resource: Resource, v: nat, k: nat)
    requires v < |h| && k < |h|
  {
    from <= v < k && h[v].actor.Us? && Touches(h, v, resource) && h[k].actor.Foreign? && Touches(h, k, resource) ==>
      forall w | k < w < |h| && Touches(h, w, resource) :: h[w].actor.Foreign?
  }

  ghost predicate AllSurvive(h: seq<Write>, from: nat, resource: Resource) {
    forall v: nat, k: nat | v < |h| && k < |h| :: Survives(h, from, resource, v, k)
  }

  /** Two applied patches, the second based on the first, undo each other. */
  lemma {:induction false} Undone(first: seq<Write>, all: seq<Write>, resource: Resource, uid: string, field: Field,
               saved: seq<string>, b: nat, v: nat)
    requires first <= all && v == |first| - 1 && v < |all| - 1
    requires Applied(first, resource, uid, b, field, []) && Applied(all, resource, uid, v, field, saved)
    requires b < v && field in first[b].state.value.content && first[b].state.value.content[field] == saved
    ensures Restoration(all, resource, field, b, v, |all| - 1)
  {
    assert all[v] == first[v] && all[b] == first[b];
    forall k | b + 1 <= k < v ensures !Touches(all, k, resource) {
      assert !Touches(first, k, resource);
    }
    var original := first[b].state.value.content;
    assert original[field := []][field := saved] == original;
  }

  /** The server has the same object in a version that it did not have before. */
  ghost predicate NewVersion(answer: Option<Document>, document: Document) {
    exists d :: answer == Some(d) && d.uid == document.uid
                && (d.version < document.version || document.version < d.version)
  }

  /** _patch: refused unless the document is the recorded object's; an accepted
      answer is of a new version and of our own write. */
  method Patch(cluster: Cluster, owned: map<Resource, string>, resource: Resource, document: Document,
               field: Field, value: seq<string>, add: bool)
    returns (r: Option<Document>)
    modifies cluster`history, cluster`sent, cluster`answers
    ensures old(cluster.history) <= cluster.history && NoLostWrites(cluster.history, |old(cluster.history)|)
    ensures forall k | |old(cluster.history)| <= k < |cluster.history| - 1 :: cluster.history[k].actor.Foreign?
    ensures OthersOnly(cluster.history, |old(cluster.history)|)
            || Applied(cluster.history, resource, document.uid, document.version, field, value)
    ensures r.Some? ==> Applied(cluster.history, resource, document.uid, document.version, field, value)
                        && r == Current(cluster.history, resource)
    ensures cluster.sent == old(cluster.sent) +
              if resource in owned && document.uid == owned[resource]
              then [Request(resource, document.version, field, value)] else []
    ensures |cluster.answers| - |old(cluster.answers)| == |cluster.sent| - |old(cluster.sent)|
            && old(cluster.answers) <= cluster.answers
    ensures r.Some? <==> resource in owned && document.uid == owned[resource]
                         && NewVersion(cluster.answers[|old(cluster.answers)|], document)
    ensures r.Some? ==> r == cluster.answers[|old(cluster.answers)|]
  {
    if resource !in owned || document.uid != owned[resource] {
      return None;
    }
    r := cluster.Patch(resource, document.uid, document.version, field, value, add);
    if r.Some? && (r.value.uid != document.uid || r.value.version == document.version) {
      r := None;
    }
  }

  /** What the two suspensions require of the document they read. */
  predicate Suspendable(resource: Resource, document: Document, field: Field, contract: map<Field, seq<string>>) {
    && field in document.content && document.content[field] != []
    && forall f | f in contract :: f in document.content && document.content[f] == contract[f]
  }

  /** The document read may be suspended. */
  predicate MaySuspend(owned: map<Resource, string>, resource: Resource, field: Field,
                       contract: map<Field, seq<string>>, document: Option<Document>)
  {
    && document.Some? && resource in owned && document.value.uid == owned[resource]
    && Suspendable(resource, document.value, field, contract)
  }

  /** What was read is the recorded object, has something to revoke, and is otherwise
      as the contract says. */
  ghost predicate Eligible(owned: map<Resource, string>, resource: Resource, field: Field,
                           contract: map<Field, seq<string>>, document: Option<Document>)
  {
    && document.Some? && (resource, document.value.uid) in owned.Items
    && field in document.value.content && |document.value.content[field]| > 0
    && contract.Items <= document.value.content.Items
  }

  lemma {:induction false} EligibleExact(owned: map<Resource, string>, resource: Resource, field: Field,
                                         contract: map<Field, seq<string>>, document: Option<Document>)
    ensures MaySuspend(owned, resource, field, contract, document) <==>
            Eligible(owned, resource, field, contract, document)
  {
    if document.Some? {
      var content := document.value.content;
      if contract.Items <= content.Items {
        forall f | f in contract ensures f in content && content[f] == contract[f] {
          assert (f, contract[f]) in contract.Items;
        }
      }
    }
  }

  /** This run has written since then. */
  ghost predicate Ours(h: seq<Write>, from: nat) {
    exists k | from <= k < |h| :: h[k].actor.Us?
  }

  /** A patch based on the document read and applied since is a write since. */
  lemma {:induction false} AppliedSince(
    read: seq<Write>, h: seq<Write>, resource: Resource, field: Field, value: seq<string>)
    requires read <= h && Current(read, resource).Some?
    requires var d := Current(read, resource).value; Applied(h, resource, d.uid, d.version, field, value)
    ensures |read| < |h| && h[|h| - 1].actor.Us?
  {
    var d := Current(read, resource).value;
    CurrentIsLast(read, resource);
    var last := |read| - 1;
    assert d.version < last ==> !Touches(read, last, resource);
    assert |h| == |read| ==> h == read;
  }

  /** The first half: read and revoke. */
  method Revoke(cluster: Cluster, owned: map<Resource, string>, resource: Resource, field: Field,
                contract: map<Field, seq<string>>)
    returns (revoked: Option<Document>, saved: seq<string>, ghost b: nat)
    modifies cluster
    ensures old(cluster.history) <= cluster.history && NoLostWrites(cluster.history, |old(cluster.history)|)
    ensures forall k | |old(cluster.history)| <= k < |cluster.history| - 1 :: cluster.history[k].actor.Foreign?
    ensures |cluster.fetched| == |old(cluster.fetched)| + 1
    ensures var d := cluster.fetched[|old(cluster.fetched)|];
            if !Eligible(owned, resource, field, contract, d)
            then revoked.None? && cluster.sent == old(cluster.sent) && cluster.answers == old(cluster.answers)
            else
              && cluster.sent == old(cluster.sent) + [Request(resource, d.value.version, field, [])]
              && |cluster.answers| == |old(cluster.answers)| + 1 && old(cluster.answers) <= cluster.answers
              && (revoked.Some? <==> NewVersion(cluster.answers[|cluster.answers| - 1], d.value))
    ensures var d := cluster.fetched[|old(cluster.fetched)|];
            Ours(cluster.history, |old(cluster.history)|) <==>
              && Eligible(owned, resource, field, contract, d)
              && Applied(cluster.history, resource, d.value.uid, d.value.version, field, [])
    ensures revoked.Some? ==>
              && resource in owned && Applied(cluster.history, resource, owned[resource], b, field, [])
              && revoked == Current(cluster.history, resource) && revoked.value.uid == owned[resource]
              && revoked == cluster.answers[|cluster.answers| - 1]
              && b == cluster.fetched[|old(cluster.fetched)|].value.version
              && field in cluster.history[b].state.value.content
              && saved == cluster.history[b].state.value.content[field]
  {
    revoked, saved, b := None, [], 0;
    var document := cluster.Get(resource);
    EligibleExact(owned, resource, field, contract, document);
    if !MaySuspend(owned, resource, field, contract, document) {
      return;
    }
    ghost var read := cluster.history;
    CurrentIsLast(read, resource);
    b, saved := document.value.version, document.value.content[field];
    revoked := Patch(cluster, owned, resource, document.value, field, [], false);
    if Applied(cluster.history, resource, document.value.uid, b, field, []) {
      AppliedSince(read, cluster.history, resource, field, []);
      assert cluster.history[|cluster.history| - 1].actor.Us?;
    }
  }

  /** The common course of suspended_producer_access and suspended_network_rule:
      read, revoke, let the caller's body run among other actors, and restore. The
      object is left revoked with no restoration tried if and only if the revocation
      was applied and its answer was not accepted. */
  method Suspend(cluster: Cluster, owned: map<Resource, string>, resource: Resource, field: Field,
                 contract: map<Field, seq<string>>)
    returns (status: Status, ghost b: nat, ghost v: nat)
    modifies cluster
    ensures old(cluster.history) <= cluster.history && NoLostWrites(cluster.history, |old(cluster.history)|)
    ensures status == Restored ==>
              |cluster.history| > 0 && Restoration(cluster.history, resource, field, b, v, |cluster.history| - 1)
    ensures AllSurvive(cluster.history, |old(cluster.history)|, resource)
    ensures |cluster.fetched| == |old(cluster.fetched)| + 1
    ensures var d, n := cluster.fetched[|old(cluster.fetched)|], |old(cluster.answers)|;
            if !Eligible(owned, resource, field, contract, d)
            then status == Refused && cluster.sent == old(cluster.sent)
            else
              && |cluster.answers| > n
              && (status == Refused <==> !NewVersion(cluster.answers[n], d.value))
              && (status == Refused ==>
                    cluster.sent == old(cluster.sent) + [Request(resource, d.value.version, field, [])])
              && (status != Refused ==>
                    |cluster.answers| == n + 2
                    && (status == Restored <==> NewVersion(cluster.answers[n + 1], cluster.answers[n].value)))
    ensures var d, n := cluster.fetched[|old(cluster.fetched)|], |old(cluster.answers)|;
            Ours(cluster.history, |old(cluster.history)|) && |cluster.sent| <= |old(cluster.sent)| + 1 <==>
              && Eligible(owned, resource, field, contract, d)
              && Applied(cluster.history, resource, d.value.uid, d.value.version, field, [])
              && !NewVersion(cluster.answers[n], d.value)
    ensures status != Refused ==>
              && b < |cluster.history| && cluster.history[b].state.Some?
              && field in cluster.history[b].state.value.content
              && cluster.sent == old(cluster.sent) + [
                   Request(resource, b, field, []),
                   Request(resource, v, field, cluster.history[b].state.value.content[field])]
  {
    status, v := Refused, 0;
    ghost var start := |cluster.history|;
    var revoked, saved;
    revoked, saved, b := Revoke(cluster, owned, resource, field, contract);
    ghost var first := cluster.history;
    if revoked.None? {
      OneWriteSurvives(first, start, start, resource);
      return;
    }
    v := |first| - 1;
    cluster.Others();
    CurrentIsLast(first, resource);
    var restored := Patch(cluster, owned, resource, revoked.value, field, saved, true);
    NoLostWritesKept(first, cluster.history, start);
    if restored.None? {
      status := Unrestored;
      return;
    }
    Undone(first, cluster.history, resource, owned[resource], field, saved, b, v);
    status := Restored;
  }

  /** A history that ends so: the revocation of a one-rule policy is applied, its
      answer is lost, and the policy stays empty. */
  lemma {:induction false} RevocationCanStay(resource: Resource)
    returns (h: seq<Write>, owned: map<Resource, string>, d: Document)
    ensures |h| == 2 && Current(h[..1], resource) == Some(d)
    ensures Eligible(owned, resource, Ingress, map[], Some(d))
    ensures Applied(h, resource, d.uid, d.version, Ingress, []) && !NewVersion(None, d) && Ours(h, 1)
    ensures Current(h, resource).Some? && Current(h, resource).value.content == map[Ingress := []] != d.content
  {
    owned := map[resource := "1"];
    d := Document("1", 0, map[Ingress := ["rule"]]);
    h := [Write(resource, Foreign, Some(Object("1", d.content))),
          Write(resource, Us(0), Some(Object("1", d.content[Ingress := []])))];
    assert h[..1] == [h[0]] && h[1].actor.Us?;
    assert d.content[Ingress := []][Ingress] == [] && d.content[Ingress] == ["rule"];
  }

  /** At most the last write is ours: nothing of anybody's was overwritten after it. */
  lemma {:induction false} OneWriteSurvives(h: seq<Write>, from: nat, mid: nat, resource: Resource)
    requires from <= mid <= |h|
    requires forall k | from <= k < |h| - 1 :: h[k].actor.Foreign?
    ensures AllSurvive(h, from, resource)
  {
    forall v: nat, k: nat | v < |h| && k < |h| ensures Survives(h, from, resource, v, k) {}
  }
}
