/** Owned admissions (admissions.py, concurrent_admissions.py): an identity the
    API returned is retained until its cancellation is confirmed. */
module Admissions {
  import opened Wrappers

  datatype Verb = Get | Post | Delete

  /** The parts of a JSON object that the code looks at; None is a missing or
      unusable value. */
  datatype Body = Body(name: Option<string>, engine: Option<string>, active: bool, capacityError: bool)
  datatype Response = Response(status: int, body: Option<Body>)

  /** One call by the client of a slot; no response is an exception, after which
      the server may or may not have acted. */
  datatype Call = Call(slot: nat, verb: Verb, path: string, response: Option<Response>)

  class Api {
    ghost var log: seq<Call>

    constructor ()
      ensures log == []
    {
      log := [];
    }

    method Request(slot: nat, verb: Verb, path: string) returns (r: Option<Response>)
      modifies this
      ensures log == old(log) + [Call(slot, verb, path, r)]
    {
      var failed: bool, status: int, body: Option<Body> := *, *, *;
      r := if failed then None else Some(Response(status, body));
      log := log + [Call(slot, verb, path, r)];
    }
  }

  predicate NameChar(c: char) {
    'a' <= c <= 'z' || 'A' <= c <= 'Z' || '0' <= c <= '9' || c == '-'
  }

  /** The bounded identity [a-zA-Z0-9-]{1,128}. */
  predicate ValidName(name: string) {
    1 <= |name| <= 128 && forall i | 0 <= i < |name| :: NameChar(name[i])
  }

  /** One to 128 digits, capital and small letters and dashes, by their codes. */
  predicate IdentityText(s: string) {
    && 0 < |s| <= 128
    && forall i | 0 <= i < |s| ::
         48 <= s[i] as int <= 57 || 65 <= s[i] as int <= 90 || 97 <= s[i] as int <= 122 || s[i] as int == 45
  }

  lemma {:induction false} NameIsIdentity(s: string)
    ensures ValidName(s) <==> IdentityText(s)
  {
    assert '0' as int == 48 && '9' as int == 57 && 'A' as int == 65 && 'Z' as int == 90;
    assert 'a' as int == 97 && 'z' as int == 122 && '-' as int == 45;
  }

  /** The identity that an accepted creation returned. */
  function Identity(call: Call): Option<string> {
    if call.verb.Post? && call.response.Some? && call.response.value.status == 201
       && call.response.value.body.Some? && call.response.value.body.value.name.Some?
       && IdentityText(call.response.value.body.value.name.value)
    then Some("/" + call.response.value.body.value.name.value) else None
  }

  predicate Confirms(call: Call, slot: nat, path: string) {
    && call.slot == slot && call.verb.Delete? && call.path == path
    && call.response.Some? && call.response.value.status in {200, 404, 410}
  }

  ghost predicate ConfirmedAfter(log: seq<Call>, k: nat, slot: nat, path: string) {
    exists j | k < j < |log| :: Confirms(log[j], slot, path)
  }

  /** A returned identity is still pending in its slot, or its deletion was confirmed. */
  ghost predicate Kept(log: seq<Call>, pending: map<nat, string>, k: nat)
    requires k < |log|
  {
    Identity(log[k]).Some? ==>
      var slot, path := log[k].slot, Identity(log[k]).value;
      ConfirmedAfter(log, k, slot, path) || (slot in pending && pending[slot] == path)
  }

  ghost predicate AllKept(log: seq<Call>, pending: map<nat, string>) {
    forall k | 0 <= k < |log| :: Kept(log, pending, k)
  }

  /** A call that returns no identity, under changes that lose nothing. */
  lemma {:induction false} KeptStep(log: seq<Call>, before: map<nat, string>, call: Call, after: map<nat, string>)
    requires AllKept(log, before)
    requires forall slot | slot in before ::
               (slot in after && after[slot] == before[slot]) || Confirms(call, slot, before[slot])
    requires Identity(call).Some? ==> call.slot in after && after[call.slot] == Identity(call).value
    ensures AllKept(log + [call], after)
  {
    var all := log + [call];
    forall k | 0 <= k < |all| ensures Kept(all, after, k) {
      if k < |log| && Identity(log[k]).Some? {
        var slot, path := log[k].slot, Identity(log[k]).value;
        assert Kept(log, before, k);
        if ConfirmedAfter(log, k, slot, path) {
          var j :| k < j < |log| && Confirms(log[j], slot, path);
          assert Confirms(all[j], slot, path);
        } else if !(slot in after && after[slot] == path) {
          assert Confirms(all[|log|], slot, path);
        }
      }
    }
  }

  class Admissions {
    const api: Api
    const clients: nat
    const engine: string
    var pending: map<nat, string>

    ghost predicate Valid()
      reads this, api
    {
      AllKept(api.log, pending) && forall slot | slot in pending :: slot < clients
    }

    /** One client per namespace, of which there are one or two; a concurrent
        owner has a third, for the capacity probe. */
    constructor (api: Api, namespaces: nat, concurrent: bool, engine: string)
      requires api.log == [] && 1 <= namespaces <= 2 && (concurrent ==> namespaces == 2)
      ensures Valid() && pending == map[] && this.api == api && this.engine == engine
      ensures clients == if concurrent then 3 else namespaces
    {
      this.api, this.engine := api, engine;
      clients := if concurrent then 3 else namespaces;
      pending := map[];
    }

    /** retain, on the answer to the last call: the identity is kept first, and
        only then is the rest of the answer checked; a busy slot keeps its own. */
    method Retain(slot: nat, ghost before: seq<Call>, body: Body) returns (ok: bool)
      requires AllKept(before, pending) && (forall s | s in pending :: s < clients)
      requires |api.log| == |before| + 1 && api.log[..|before|] == before
      requires var call := api.log[|before|];
               call.slot == slot && call.verb.Post? && call.response == Some(Response(201, Some(body)))
      modifies this`pending
      ensures slot >= clients || slot in old(pending) ==> !ok && pending == old(pending)
      ensures slot < clients && slot !in old(pending) ==>
                && Valid()
                && pending == (if body.name.Some? && IdentityText(body.name.value)
                               then old(pending)[slot := "/" + body.name.value] else old(pending))
                && (ok <==> body.name.Some? && IdentityText(body.name.value) && body.engine == Some(engine))
    {
      if body.name.Some? {
        NameIsIdentity(body.name.value);
      }
      if slot >= clients || slot in pending {
        return false;
      }
      assert api.log == before + [api.log[|before|]];
      if body.name.None? || !ValidName(body.name.value) {
        KeptStep(before, pending, api.log[|before|], pending);
        return false;
      }
      pending := pending[slot := "/" + body.name.value];
      KeptStep(before, old(pending), api.log[|before|], pending);
      return body.engine == Some(engine);
    }

    /** create: a busy or unknown slot is refused before anything is sent. */
    method Create(slot: nat) returns (ok: bool)
      requires Valid()
      modifies this, api
      ensures Valid()
      ensures slot >= clients || slot in old(pending) ==> !ok && api.log == old(api.log) && pending == old(pending)
      ensures slot < clients && slot !in old(pending) ==>
                && |api.log| == |old(api.log)| + 1 && old(api.log) <= api.log
                && var call := api.log[|old(api.log)|];
                   && call.slot == slot && call.verb.Post?
                   && pending == (if Identity(call).Some? then old(pending)[slot := Identity(call).value]
                                  else old(pending))
      ensures slot < clients && slot !in old(pending) ==>
                (ok <==> var call := api.log[|old(api.log)|];
                         Identity(call).Some? && call.response.value.body.value.engine == Some(engine))
    {
      if slot >= clients || slot in pending {
        return false;
      }
      ghost var before := api.log;
      var response := api.Request(slot, Post, "");
      assert api.log[..|before|] == before;
      if response.None? || response.value.status != 201 || response.value.body.None? {
        KeptStep(before, pending, api.log[|before|], pending);
        return false;
      }
      ok := Retain(slot, before, response.value.body.value);
    }

    /** cancel: the slot is freed exactly by a confirmed deletion of its identity. */
    method Cancel(slot: nat) returns (ok: bool)
      requires Valid() && slot in pending
      modifies this, api
      ensures Valid() && |api.log| == |old(api.log)| + 1 && old(api.log) <= api.log
      ensures ok <==> Confirms(api.log[|old(api.log)|], slot, old(pending)[slot])
      ensures pending == if ok then old(pending) - {slot} else old(pending)
      ensures api.log[|old(api.log)|].verb.Delete? && api.log[|old(api.log)|].slot == slot
              && api.log[|old(api.log)|].path == old(pending)[slot]
    {
      ghost var before := api.log;
      var path := pending[slot];
      var response := api.Request(slot, Delete, path);
      if response.None? || response.value.status !in {200, 404, 410} {
        KeptStep(before, pending, api.log[|before|], pending);
        return false;
      }
      pending := pending - {slot};
      KeptStep(before, old(pending), api.log[|before|], pending);
      return true;
    }

    /** The slot's deletion was asked for since from, and was confirmed or not. */
    ghost predicate Tried(from: nat, slot: nat, path: string, confirmed: bool)
      reads this, api
    {
      exists k | from <= k < |api.log| :: Attempt(api.log[k], slot, path, confirmed)
    }

    /** cancel_all: every slot is tried whatever happens to the others; exactly
        the unconfirmed ones stay, and their existence is what is reported. */
    method CancelAll() returns (ok: bool)
      requires Valid()
      modifies this, api
      ensures Valid() && old(api.log) <= api.log
      ensures ok <==> pending == map[]
      ensures forall slot | slot in pending :: slot in old(pending) && pending[slot] == old(pending)[slot]
      ensures forall slot | slot in old(pending) ::
                Tried(|old(api.log)|, slot, old(pending)[slot], slot !in pending)
    {
      ghost var start := |api.log|;
      var todo, failures := pending.Keys, false;
      while todo != {}
        invariant Valid() && old(api.log) <= api.log && todo <= pending.Keys
        invariant forall slot | slot in pending :: slot in old(pending) && pending[slot] == old(pending)[slot]
        invariant forall slot | slot in old(pending) ::
                    slot in todo || Tried(start, slot, old(pending)[slot], slot !in pending)
        invariant failures <==> pending.Keys != todo
      {
        var slot :| slot in todo;
        ghost var log, was := api.log, pending;
        var cancelled := Cancel(slot);
        if !cancelled {
          failures := true;
        }
        assert Attempt(api.log[|log|], slot, old(pending)[slot], cancelled);
        forall s | s in old(pending) ensures s in todo - {slot} || Tried(start, s, old(pending)[s], s !in pending) {
          if s !in todo {
            var k :| start <= k < |log| && Attempt(log[k], s, old(pending)[s], s !in was);
            assert api.log[k] == log[k];
          }
        }
        todo := todo - {slot};
      }
      assert pending.Keys == {} <==> pending == map[];
      return !failures;
    }

    /** active_pair: both owned admissions, and no third, answer as active under
        their own names and the owner's engine. */
    method ActivePair() returns (ok: bool)
      requires Valid()
      modifies api
      ensures Valid() && old(api.log) <= api.log
      ensures forall k | |old(api.log)| <= k < |api.log| :: api.log[k].verb.Get?
      ensures ok ==> pending.Keys == {0, 1}
      ensures ok ==> |api.log| == |old(api.log)| + 2
                     && ActiveAnswer(api.log[|old(api.log)|], 0) && ActiveAnswer(api.log[|old(api.log)| + 1], 1)
      ensures !ok ==> pending.Keys != {0, 1} || (|api.log| > |old(api.log)| && Inactive(api.log[|api.log| - 1]))
    {
      if pending.Keys != {0, 1} {
        return false;
      }
      for slot := 0 to 2
        invariant Valid() && old(api.log) <= api.log && |api.log| == |old(api.log)| + slot
        invariant forall k | |old(api.log)| <= k < |api.log| :: api.log[k].verb.Get?
        invariant slot > 0 ==> ActiveAnswer(api.log[|old(api.log)|], 0)
        invariant slot > 1 ==> ActiveAnswer(api.log[|old(api.log)| + 1], 1)
      {
        ghost var before := api.log;
        var response := api.Request(slot, Get, pending[slot]);
        KeptStep(before, pending, api.log[|before|], pending);
        if response.None? || response.value.status != 200 || response.value.body.None?
           || !response.value.body.value.active || response.value.body.value.engine != Some(engine)
           || response.value.body.value.name.None? || "/" + response.value.body.value.name.value != pending[slot] {
          return false;
        }
      }
      return true;
    }

    /** A slot was asked about, and its answer is not that it is active. */
    ghost predicate Inactive(call: Call)
      reads this
    {
      call.verb.Get? && !ActiveAnswer(call, call.slot)
    }

    ghost predicate ActiveAnswer(call: Call, slot: nat)
      reads this
    {
      && slot in pending && call.slot == slot && call.verb.Get? && call.path == pending[slot]
      && call.response.Some? && call.response.value.status == 200 && call.response.value.body.Some?
      && var body := call.response.value.body.value;
         body.active && body.engine == Some(engine) && body.name.Some? && "/" + body.name.value == pending[slot]
    }

    /** probe_capacity: succeeds only on the capacity error between two proofs that
        both admissions are active; an accepted probe is retained in slot 2. */
    method ProbeCapacity() returns (ok: bool)
      requires Valid() && clients == 3
      modifies this, api
      ensures Valid() && old(api.log) <= api.log
      ensures ok ==> pending == old(pending) && pending.Keys == {0, 1} && |api.log| == |old(api.log)| + 5
                     && Denied(api.log[|old(api.log)| + 2])
      ensures ok ==> var n := |old(api.log)|;
                     && ActiveAnswer(api.log[n], 0) && ActiveAnswer(api.log[n + 1], 1)
                     && ActiveAnswer(api.log[n + 3], 0) && ActiveAnswer(api.log[n + 4], 1)
      ensures pending == old(pending)
              || (!ok && 2 !in old(pending) && exists k | |old(api.log)| <= k < |api.log| ::
                    Accepted(api.log[k]) && pending == old(pending)[2 := Identity(api.log[k]).value])
      ensures forall k | |old(api.log)| <= k < |api.log| && Accepted(api.log[k]) :: 2 in pending && !ok
      ensures !ok && old(pending).Keys == {0, 1} ==>
                |api.log| > |old(api.log)|
                && var last := api.log[|api.log| - 1]; if last.verb.Post? then !Denied(last) else Inactive(last)
    {
      ghost var start := |api.log|;
      var active := ActivePair();
      if !active {
        return false;
      }
      ghost var before := api.log;
      var response := api.Request(2, Post, "");
      assert api.log[..|before|] == before;
      if response.Some? && response.value.status == 201 {
        if response.value.body.None? {
          KeptStep(before, pending, api.log[|before|], pending);
          return false;
        }
        var _ := Retain(2, before, response.value.body.value);
        if Accepted(api.log[|before|]) {
          assert pending == old(pending)[2 := Identity(api.log[|before|]).value];
        }
        return false;
      }
      KeptStep(before, pending, api.log[|before|], pending);
      if response.None? || response.value.status != 429 || response.value.body.None?
         || !response.value.body.value.capacityError {
        return false;
      }
      ok := ActivePair();
    }
  }

  predicate Attempt(call: Call, slot: nat, path: string, confirmed: bool) {
    call.slot == slot && call.verb.Delete? && call.path == path && (Confirms(call, slot, path) <==> confirmed)
  }

  /** The probe was answered by the capacity error. */
  predicate Denied(call: Call) {
    && call.slot == 2 && call.verb.Post? && call.response.Some? && call.response.value.status == 429
    && call.response.value.body.Some? && call.response.value.body.value.capacityError
  }

  /** A probe was accepted and named its session. */
  predicate Accepted(call: Call) {
    call.slot == 2 && Identity(call).Some?
  }
}
