/** Completion order of the observer processes (processes.py): the scheduler is
    told to finish only after the verifier has, while the scheduler still runs. */
module Processes {
  import opened Wrappers

  datatype Process = Process(name: string, id: nat)

  /** The operating system: processes exit when they like, once, with one code.
      An exit code is known to the caller, as Popen.returncode, once it was polled. */
  class Host {
    var codes: map<nat, int>
    var returncodes: map<nat, int>

    ghost predicate Valid()
      reads this
    {
      Grown(returncodes, codes)
    }

    constructor ()
      ensures codes == returncodes == map[] && Valid()
    {
      codes, returncodes := map[], map[];
    }

    method Others()
      modifies this`codes
      ensures Grown(old(codes), codes)
    {
      var steps: int := *;
      while steps > 0
        invariant Grown(old(codes), codes)
      {
        var id: nat :| true;
        var code: int := *;
        if id !in codes {
          codes := codes[id := code];
        }
        steps := steps - 1;
      }
    }

    /** Popen.poll. */
    method Poll(id: nat) returns (code: Option<int>)
      requires Valid()
      modifies this
      ensures Valid() && Grown(old(codes), codes)
      ensures code == if id in codes then Some(codes[id]) else None
      ensures returncodes == if code.Some? then old(returncodes)[id := code.value] else old(returncodes)
    {
      Others();
      if id in codes {
        returncodes := returncodes[id := codes[id]];
        return Some(codes[id]);
      }
      return None;
    }
  }

  ghost predicate Grown(before: map<nat, int>, after: map<nat, int>) {
    forall id | id in before :: id in after && after[id] == before[id]
  }

  /** The exit codes of all items, in order, as one polling round saw them. */
  type Round = seq<Option<int>>

  /** [a-z][a-z0-9-]{0,79} */
  predicate Label(name: string) {
    && 1 <= |name| <= 80 && 'a' <= name[0] <= 'z'
    && forall i | 1 <= i < |name| :: 'a' <= name[i] <= 'z' || '0' <= name[i] <= '9' || name[i] == '-'
  }

  /** One of the 26 letters from character 97 on. */
  ghost predicate Letter(c: char) {
    97 <= c as int < 97 + 26
  }

  /** A letter, one of the ten digits from character 48 on, or a dash. */
  ghost predicate LabelCharacter(c: char) {
    Letter(c) || 48 <= c as int < 48 + 10 || c as int == 45
  }

  /** A letter, then up to 79 letters, digits and dashes. */
  ghost predicate ProperLabel(name: string) {
    0 < |name| <= 80 && Letter(name[0]) && forall i | 0 <= i < |name| :: LabelCharacter(name[i])
  }

  lemma {:induction false} LabelExact(name: string)
    ensures Label(name) <==> ProperLabel(name)
  {
    assert 'a' as int == 97 && 'z' as int == 122 && '0' as int == 48 && '9' as int == 57 && '-' as int == 45;
  }

  predicate Delivery(name: string) {
    "delivery-" <= name
  }

  ghost predicate Seen(items: seq<Process>, round: Round, name: string, code: Option<int>) {
    exists i | 0 <= i < |items| && i < |round| :: items[i].name == name && round[i] == code
  }

  /** In this round the verifier had exited cleanly and the scheduler still ran. */
  ghost predicate Releasable(items: seq<Process>, round: Round) {
    Seen(items, round, "verifier", Some(0)) && Seen(items, round, "scheduler", None)
  }

  ghost predicate Started(items: seq<Process>, name: string) {
    exists i | 0 <= i < |items| :: items[i].name == name
  }

  lemma {:induction false} SeenKept(items: seq<Process>, more: seq<Process>, round: Round)
    requires Releasable(items, round)
    ensures Releasable(items + more, round)
  {
    var v :| 0 <= v < |items| && v < |round| && items[v].name == "verifier" && round[v] == Some(0);
    var s :| 0 <= s < |items| && s < |round| && items[s].name == "scheduler" && round[s] == None;
    assert (items + more)[v] == items[v] && (items + more)[s] == items[s];
  }

  /** The process failed and its failure was not accepted. */
  predicate Unaccepted(items: seq<Process>, accepted: set<nat>, round: Round, i: nat)
    requires i < |items| && i < |round|
  {
    round[i].Some? && round[i].value != 0 && items[i].id !in accepted
  }

  datatype Status = Returned | Raised
  datatype Pass = Stop | Finished | Again

  class Processes {
    const host: Host
    var items: seq<Process>
    var budgetFailures: set<nat>
    /** The scheduler's input is open: scheduler_completion is not None. */
    var completion: bool
    /** Every finished polling round, and the one from which end-of-input was sent. */
    ghost var rounds: seq<Round>
    /** scheduler() started a scheduler, whose input was then open. */
    ghost var held: bool
    ghost var releasedAt: Option<nat>

    ghost predicate Valid()
      reads this, host
    {
      && host.Valid()
      && (forall i, j | 0 <= i < j < |items| :: items[i].name != items[j].name)
      && (forall id | id in budgetFailures :: AcceptedFailure(id))
      && (held ==> Started(items, "scheduler")) && (completion ==> held)
      && (releasedAt.Some? <==> held && !completion)
      && (releasedAt.Some? ==> releasedAt.value < |rounds| && Releasable(items, rounds[releasedAt.value]))
    }

    /** A started delivery process that exited with code 1. */
    ghost predicate AcceptedFailure(id: nat)
      reads this, host
    {
      && id in host.codes && host.codes[id] == 1
      && exists i | 0 <= i < |items| :: items[i].id == id && Delivery(items[i].name)
    }

    constructor (host: Host)
      requires host.Valid()
      ensures Valid() && this.host == host && items == [] && !completion && !held && rounds == []
    {
      this.host := host;
      items, budgetFailures, completion, rounds, held, releasedAt := [], {}, false, [], false, None;
    }

    /** start: the label is well formed and new, as its output file must not exist;
        otherwise, or if the launch fails, nothing is started. */
    method Start(name: string, id: nat, launches: bool) returns (ok: bool)
      requires Valid()
      modifies this`items
      ensures Valid()
      ensures items == if ok then old(items) + [Process(name, id)] else old(items)
      ensures ok <==> launches && ProperLabel(name) && !Started(old(items), name)
    {
      LabelExact(name);
      if !Label(name) || (exists i | 0 <= i < |items| :: items[i].name == name) || !launches {
        return false;
      }
      items := items + [Process(name, id)];
      if releasedAt.Some? {
        SeenKept(old(items), [Process(name, id)], rounds[releasedAt.value]);
      }
      forall f | f in budgetFailures ensures AcceptedFailure(f) {
        var i :| 0 <= i < |old(items)| && old(items)[i].id == f && Delivery(old(items)[i].name);
        assert items[i] == old(items)[i];
      }
      if held {
        var i :| 0 <= i < |old(items)| && old(items)[i].name == "scheduler";
        assert items[i] == old(items)[i];
      }
      return true;
    }

    /** scheduler: started with its input held open. */
    method Scheduler(id: nat, launches: bool) returns (ok: bool)
      requires Valid()
      modifies this`items, this`completion, this`held
      ensures Valid()
      ensures ok <==> launches && !Started(old(items), "scheduler")
      ensures ok ==> completion && held && items == old(items) + [Process("scheduler", id)]
      ensures !ok ==> items == old(items) && completion == old(completion) && held == old(held)
    {
      assert Label("scheduler");
      LabelExact("scheduler");
      ok := Start("scheduler", id, launches);
      if ok {
        assert items[|old(items)|].name == "scheduler";
        completion, held := true, true;
      }
    }

    /** accept_delivery_budget_failure: exactly a started delivery process whose
        polled exit code is 1. */
    method AcceptDeliveryBudgetFailure(id: nat) returns (ok: bool)
      requires Valid()
      modifies this`budgetFailures
      ensures Valid() && budgetFailures == if ok then old(budgetFailures) + {id} else old(budgetFailures)
      ensures ok <==> AcceptedFailure(id) && id in host.returncodes
    {
      if !(exists i | 0 <= i < |items| :: items[i].id == id && Delivery(items[i].name))
         || id !in host.returncodes || host.returncodes[id] != 1 {
        return false;
      }
      budgetFailures := budgetFailures + {id};
      return true;
    }

    /** The first statement of the polling loop: every item's code, in order. */
    method PollAll() returns (round: Round)
      requires Valid()
      modifies host
      ensures Valid() && |round| == |items|
      ensures forall i | 0 <= i < |items| :: CodeKnown(items[i].id, round[i])
    {
      round := [];
      for i := 0 to |items|
        invariant Valid() && |round| == i
        invariant forall j | 0 <= j < i :: CodeKnown(items[j].id, round[j])
      {
        var code := host.Poll(items[i].id);
        round := round + [code];
      }
    }

    /** A reported exit code is the process's one exit code. */
    ghost predicate CodeKnown(id: nat, code: Option<int>)
      reads host
    {
      code.Some? ==> id in host.codes && host.codes[id] == code.value
    }

    /** The completion cannot be acknowledged any more, or by nobody. */
    ghost predicate CompletionBroken(round: Round)
      reads this
    {
      completion && (!Started(items, "verifier") || !Seen(items, round, "scheduler", None))
    }

    /** release_scheduler, on the round just polled: end-of-input is sent exactly when
        the verifier is seen to have exited cleanly. */
    method ReleaseScheduler(round: Round) returns (status: Status)
      requires Valid() && |round| == |items| && rounds != [] && rounds[|rounds| - 1] == round
      modifies this`completion, this`releasedAt
      ensures Valid()
      ensures status == Raised <==> old(CompletionBroken(round))
      ensures completion == (old(completion) && (status == Raised || !Seen(items, round, "verifier", Some(0))))
      ensures releasedAt == if old(completion) && !completion then Some(|rounds| - 1) else old(releasedAt)
    {
      if !completion {
        return Returned;
      }
      if !(exists i | 0 <= i < |items| :: items[i].name == "verifier") {
        return Raised;
      }
      var s :| 0 <= s < |items| && items[s].name == "scheduler";
      var v :| 0 <= v < |items| && items[v].name == "verifier";
      assert forall i | 0 <= i < |items| && items[i].name == "scheduler" :: i == s;
      assert forall i | 0 <= i < |items| && items[i].name == "verifier" :: i == v;
      if round[s].Some? {
        return Raised;
      }
      if round[v] == Some(0) {
        completion := false;
        releasedAt := Some(|rounds| - 1);
      }
      return Returned;
    }

    lemma {:induction false} EveryoneExited(round: Round)
      requires Valid() && |round| == |items| && !Failing(round)
      requires forall i | 0 <= i < |round| :: round[i].Some?
      requires forall i | 0 <= i < |items| :: CodeKnown(items[i].id, round[i])
      ensures AllExited(round) && !Seen(items, round, "scheduler", None)
    {
      FailingExact(round);
      forall i | 0 <= i < |items| ensures Exited(i, round) {
        assert !Unaccepted(items, budgetFailures, round, i) && CodeKnown(items[i].id, round[i]);
      }
    }

    /** Some process failed in the round and its failure was not accepted. */
    ghost predicate Failing(round: Round)
      requires |round| == |items|
      reads this
    {
      exists i | 0 <= i < |items| ::
        round[i].Some? && round[i] != Some(0) && items[i].id !in budgetFailures
    }

    lemma {:induction false} FailingExact(round: Round)
      requires |round| == |items|
      ensures Failing(round) <==> exists i | 0 <= i < |items| :: Unaccepted(items, budgetFailures, round, i)
    {
      if exists i | 0 <= i < |items| :: Unaccepted(items, budgetFailures, round, i) {
        var i :| 0 <= i < |items| && Unaccepted(items, budgetFailures, round, i);
        assert round[i].Some? && round[i] != Some(0) && items[i].id !in budgetFailures;
      }
      if Failing(round) {
        var i :| 0 <= i < |items| && round[i].Some? && round[i] != Some(0) && items[i].id !in budgetFailures;
        assert Unaccepted(items, budgetFailures, round, i);
      }
    }

    /** Some process was still running in the round. */
    ghost predicate Waiting(round: Round) {
      exists i | 0 <= i < |round| :: round[i] == None
    }

    /** End-of-input was sent at most once, from a round polled since then, and only
        if it was still open. */
    ghost predicate ReleasedSince(before: Option<nat>, open: bool, from: nat)
      reads this
    {
      && (releasedAt == before || (open && releasedAt.Some? && from <= releasedAt.value < |rounds|))
      && completion == (open && releasedAt == before)
    }

    /** One pass of the loop of wait_all. */
    method OnePass() returns (pass: Pass)
      requires Valid()
      modifies this`rounds, this`completion, this`releasedAt, host
      ensures Valid() && |rounds| == |old(rounds)| + 1 && old(rounds) <= rounds
      ensures |rounds[|rounds| - 1]| == |items|
      ensures ReleasedSince(old(releasedAt), old(completion), |old(rounds)|)
      ensures pass == Stop ==> Failing(rounds[|rounds| - 1]) || CompletionBroken(rounds[|rounds| - 1])
      ensures pass == Finished ==>
                AllExited(rounds[|rounds| - 1]) && !completion && releasedAt == old(releasedAt)
      ensures pass != Stop ==>
                && !Failing(rounds[|rounds| - 1])
                && (old(completion) ==>
                      Started(items, "verifier") && Seen(items, rounds[|rounds| - 1], "scheduler", None))
                && (pass == Again <==> Waiting(rounds[|rounds| - 1]))
    {
      var round := PollAll();
      rounds := rounds + [round];
      FailingExact(round);
      if exists i | 0 <= i < |items| :: Unaccepted(items, budgetFailures, round, i) {
        return Stop;
      }
      var released := ReleaseScheduler(round);
      if released == Raised {
        return Stop;
      }
      if forall i | 0 <= i < |round| :: round[i].Some? {
        EveryoneExited(round);
        return Finished;
      }
      return Again;
    }

    /** wait_all; polls is how often the clock is found before the deadline. It raises
        only for a failure not accepted, a completion that cannot be acknowledged, or
        the deadline. A normal return means that every process has exited, cleanly or as an
        accepted delivery failure, and that a started scheduler was told to
        finish in an earlier round, by which the verifier had exited cleanly
        while the scheduler was still running. */
    method WaitAll(polls: nat) returns (status: Status)
      requires Valid()
      modifies this`rounds, this`completion, this`releasedAt, host
      ensures Valid() && old(rounds) <= rounds
      ensures ReleasedSince(old(releasedAt), old(completion), |old(rounds)|)
      ensures status == Returned ==>
                && rounds != [] && |rounds[|rounds| - 1]| == |items|
                && AllExited(rounds[|rounds| - 1])
                && (held ==>
                      releasedAt.Some? && releasedAt.value < |rounds| - 1
                      && Releasable(items, rounds[releasedAt.value]))
      ensures forall k | |old(rounds)| <= k < |rounds| - 1 ::
                |rounds[k]| == |items| && Waiting(rounds[k]) && !Failing(rounds[k])
      ensures status == Raised ==>
                || (|rounds| == |old(rounds)| + polls + 1 && Waiting(rounds[|rounds| - 1]))
                || (rounds != [] && |rounds[|rounds| - 1]| == |items|
                    && (Failing(rounds[|rounds| - 1]) || CompletionBroken(rounds[|rounds| - 1])))
    {
      for poll := 0 to polls + 1
        invariant Valid() && old(rounds) <= rounds && |rounds| == |old(rounds)| + poll
        invariant ReleasedSince(old(releasedAt), old(completion), |old(rounds)|)
        invariant forall k | |old(rounds)| <= k < |rounds| ::
                    |rounds[k]| == |items| && Waiting(rounds[k]) && !Failing(rounds[k])
      {
        var pass := OnePass();
        if pass.Stop? {
          return Raised;
        }
        if pass.Finished? {
          return Returned;
        }
      }
      return Raised;
    }

    ghost predicate AllExited(round: Round)
      requires |round| == |items|
      reads this, host
    {
      forall i | 0 <= i < |items| :: Exited(i, round)
    }

    /** The process has exited, with 0 or as an accepted delivery failure. */
    ghost predicate Exited(i: nat, round: Round)
      requires i < |items| && |round| == |items|
      reads this, host
    {
      && round[i].Some? && CodeKnown(items[i].id, round[i])
      && (round[i].value == 0 || (round[i].value == 1 && AcceptedFailure(items[i].id)))
    }
  }
}
