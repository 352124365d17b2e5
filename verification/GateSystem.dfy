/**
 Many callers, detachable workers, one gate and one atomic flag, as interleaved steps with a clock.
 A caller with a permit claims the flag by compare-and-exchange, spawns a worker, and then either
 joins it or detaches from it; when it returns it drops its permit. A worker that ends clears the
 flag and, in a separate step, finishes the cleanup of the gate.
 */
module GateSystem {
  import opened Wrappers
  import opened OcrGate

  /** A caller with a live permit: before and after claiming the flag, with a worker, and on its way
      out. */
  datatype CallerStage = Permitted | Claimed | Spawned(worker: nat) | Returning

  datatype WorkerStage = Running | Finishing | Done

  datatype System = System(
    gate: Gate, active: bool, callers: map<nat, CallerStage>, workers: map<nat, WorkerStage>,
    now: nat)

  const START := System(INITIAL, false, map[], map[], 0)

  datatype Action =
    | Tick(elapsed: nat)
    | Attempt(caller: nat, owner: Owner)
    | GiveUp(caller: nat)
    | Claim(caller: nat)
    | Spawn(caller: nat, worker: nat)
    | SpawnFails(caller: nat)
    | Join(caller: nat)
    | Detach(caller: nat)
    | DropPermit(caller: nat)
    | ClearFlag(worker: nat)
    | FinishCleanup(worker: nat)

  predicate At(s: System, caller: nat, stage: CallerStage) {
    caller in s.callers && s.callers[caller] == stage
  }

  predicate WorkerAt(s: System, worker: nat, stage: WorkerStage) {
    worker in s.workers && s.workers[worker] == stage
  }

  predicate HasWorker(s: System, caller: nat) {
    caller in s.callers && s.callers[caller].Spawned?
  }

  predicate Enabled(s: System, action: Action) {
    match action
    case Tick(_) => true
    case Attempt(caller, _) => caller !in s.callers
    case GiveUp(caller) => At(s, caller, Permitted)
    case Claim(caller) => At(s, caller, Permitted)
    case Spawn(caller, worker) => At(s, caller, Claimed) && worker !in s.workers
    case SpawnFails(caller) => At(s, caller, Claimed)
    case Join(caller) => HasWorker(s, caller) && WorkerAt(s, s.callers[caller].worker, Done)
    case Detach(caller) => HasWorker(s, caller)
    case DropPermit(caller) => At(s, caller, Returning)
    case ClearFlag(worker) => WorkerAt(s, worker, Running)
    case FinishCleanup(worker) => WorkerAt(s, worker, Finishing)
  }

  function Step(s: System, action: Action): System
    requires Enabled(s, action)
  {
    match action
    case Tick(elapsed) => s.(now := s.now + elapsed)
    case Attempt(caller, owner) =>
      var gate := AfterAttempt(s.gate, owner, s.now);
      if Admits(s.gate, owner, s.now) then
        s.(gate := gate, callers := s.callers[caller := Permitted])
      else s.(gate := gate)
    case GiveUp(caller) => s.(callers := s.callers[caller := Returning])
    case Claim(caller) =>
      if s.active then s.(callers := s.callers[caller := Returning])
      else s.(active := true, callers := s.callers[caller := Claimed])
    case Spawn(caller, worker) =>
      s.(callers := s.callers[caller := Spawned(worker)], workers := s.workers[worker := Running])
    case SpawnFails(caller) => s.(active := false, callers := s.callers[caller := Returning])
    case Join(caller) => s.(callers := s.callers[caller := Returning])
    case Detach(caller) => s.(callers := s.callers[caller := Returning])
    case DropPermit(caller) =>
      s.(gate := AfterReturn(s.gate, s.active, s.now), callers := s.callers - {caller})
    case ClearFlag(worker) => s.(active := false, workers := s.workers[worker := Finishing])
    case FinishCleanup(worker) =>
      s.(gate := AfterCleanup(s.gate, s.now), workers := s.workers[worker := Done])
  }

  /** The state after a run, None when some action is not enabled where it stands. */
  function Run(s: System, actions: seq<Action>): Option<System>
    decreases |actions|
  {
    if actions == [] then Some(s)
    else if !Enabled(s, actions[0]) then None
    else Run(Step(s, actions[0]), actions[1..])
  }

  /** The gate is held exactly while one permit is live. */
  ghost predicate HeldByOne(s: System) {
    && (s.gate.phase.Held? <==> s.callers != map[])
    && forall c, d :: c in s.callers && d in s.callers ==> c == d
  }

  predicate OwnsFlag(s: System, worker: nat) {
    WorkerAt(s, worker, Running)
  }

  /** The flag is set exactly while one party owns it: a caller about to spawn, or one running
      worker. A caller with a worker has the only worker that may run. */
  ghost predicate FlagOwned(s: System) {
    && (forall w, v :: OwnsFlag(s, w) && OwnsFlag(s, v) ==> w == v)
    && (forall c, w :: At(s, c, Claimed) ==> !OwnsFlag(s, w))
    && (s.active <==> (exists w :: OwnsFlag(s, w)) || (exists c :: At(s, c, Claimed)))
    && (forall c, w :: HasWorker(s, c) && OwnsFlag(s, w) ==> w == s.callers[c].worker)
    && (forall c :: HasWorker(s, c) ==> s.callers[c].worker in s.workers)
  }

  predicate Pending(s: System, worker: nat) {
    WorkerAt(s, worker, Running) || WorkerAt(s, worker, Finishing)
  }

  /** Cleanup is always still somebody's to finish. */
  ghost predicate CleanupPending(s: System) {
    s.gate.phase.Cleanup? ==> exists w :: Pending(s, w)
  }

  ghost predicate Invariant(s: System) {
    HeldByOne(s) && FlagOwned(s) && CleanupPending(s)
  }

  lemma StepKeepsHeldByOne(s: System, action: Action)
    requires Invariant(s) && Enabled(s, action)
    ensures HeldByOne(Step(s, action))
  {
    hide FlagOwned, CleanupPending;
    var t := Step(s, action);
    match action {
      case DropPermit(caller) =>
        assert t.callers == map[];
      case Attempt(caller, owner) =>
        if Admits(s.gate, owner, s.now) {
          assert caller in t.callers;
        }
      case _ =>
        if c: nat :| c in s.callers {
          assert c in t.callers;
        }
    }
  }

  lemma StepKeepsFlagOwned(s: System, action: Action)
    requires Invariant(s) && Enabled(s, action)
    ensures FlagOwned(Step(s, action))
  {
    hide CleanupPending, AfterAttempt, AfterReturn, AfterCleanup, Admits;
    var t := Step(s, action);
    match action {
      case Attempt(caller, owner) => SameOwners(s, t);
      case GiveUp(caller) => SameOwners(s, t);
      case Claim(caller) =>
        if s.active {
          SameOwners(s, t);
        } else {
          ClaimKeepsFlagOwned(s, caller);
        }
      case Spawn(caller, worker) => SpawnKeepsFlagOwned(s, caller, worker);
      case SpawnFails(caller) => SpawnFailsKeepsFlagOwned(s, caller);
      case Join(caller) => SameOwners(s, t);
      case Detach(caller) => SameOwners(s, t);
      case DropPermit(caller) => SameOwners(s, t);
      case ClearFlag(worker) => ClearFlagKeepsFlagOwned(s, worker);
      case FinishCleanup(worker) => SameOwners(s, t);
      case Tick(_) => SameOwners(s, t);
    }
  }

  lemma ClaimKeepsFlagOwned(s: System, caller: nat)
    requires HeldByOne(s) && FlagOwned(s) && Enabled(s, Claim(caller)) && !s.active
    ensures FlagOwned(Step(s, Claim(caller)))
  {
    var t := Step(s, Claim(caller));
    assert At(t, caller, Claimed);
    forall w ensures !OwnsFlag(t, w) {
      assert !OwnsFlag(s, w);
    }
    forall c ensures !HasWorker(t, c) {
      if c in s.callers {
        assert c == caller;
      }
    }
  }

  lemma SpawnKeepsFlagOwned(s: System, caller: nat, worker: nat)
    requires HeldByOne(s) && FlagOwned(s) && Enabled(s, Spawn(caller, worker))
    ensures FlagOwned(Step(s, Spawn(caller, worker)))
  {
    var t := Step(s, Spawn(caller, worker));
    assert OwnsFlag(t, worker) && At(s, caller, Claimed);
    forall w ensures OwnsFlag(t, w) <==> w == worker {
      assert !OwnsFlag(s, w);
    }
    forall c ensures !At(t, c, Claimed) && (HasWorker(t, c) ==> t.callers[c].worker == worker) {
      if c in s.callers {
        assert c == caller;
      }
    }
  }

  lemma SpawnFailsKeepsFlagOwned(s: System, caller: nat)
    requires HeldByOne(s) && FlagOwned(s) && Enabled(s, SpawnFails(caller))
    ensures FlagOwned(Step(s, SpawnFails(caller)))
  {
    var t := Step(s, SpawnFails(caller));
    assert At(s, caller, Claimed);
    forall w ensures !OwnsFlag(t, w) {
      assert !OwnsFlag(s, w);
    }
    forall c ensures !At(t, c, Claimed) && !HasWorker(t, c) {
      if c in s.callers {
        assert c == caller;
      }
    }
  }

  lemma ClearFlagKeepsFlagOwned(s: System, worker: nat)
    requires HeldByOne(s) && FlagOwned(s) && Enabled(s, ClearFlag(worker))
    ensures FlagOwned(Step(s, ClearFlag(worker)))
  {
    var t := Step(s, ClearFlag(worker));
    assert OwnsFlag(s, worker);
    forall w ensures !OwnsFlag(t, w) {
      if OwnsFlag(s, w) {
        assert w == worker;
      }
    }
    forall c ensures !At(t, c, Claimed) && (HasWorker(t, c) <==> HasWorker(s, c)) {
      assert At(s, c, Claimed) ==> !OwnsFlag(s, worker);
    }
  }

  /** Steps that neither touch the flag nor let anyone run leave its ownership alone. */
  lemma SameOwners(s: System, t: System)
    requires FlagOwned(s) && s.active == t.active
    requires forall w :: OwnsFlag(s, w) <==> OwnsFlag(t, w)
    requires forall c :: At(s, c, Claimed) <==> At(t, c, Claimed)
    requires forall c :: HasWorker(t, c) ==> HasWorker(s, c) && t.callers[c] == s.callers[c]
    requires s.workers.Keys <= t.workers.Keys
    ensures FlagOwned(t)
  {
  }

  lemma StepKeepsCleanupPending(s: System, action: Action)
    requires Invariant(s) && Enabled(s, action)
    ensures CleanupPending(Step(s, action))
  {
    var t := Step(s, action);
    if t.gate.phase.Cleanup? {
      if action.DropPermit? {
        if !s.gate.phase.Cleanup? {
          assert s.active;
          var w :| OwnsFlag(s, w);
          assert Pending(t, w);
        }
      } else {
        assert s.gate.phase.Cleanup?;
        var w :| Pending(s, w);
        assert Pending(t, w);
      }
    }
  }

  lemma StepKeepsInvariant(s: System, action: Action)
    requires Invariant(s) && Enabled(s, action)
    ensures Invariant(Step(s, action))
  {
    StepKeepsHeldByOne(s, action);
    StepKeepsFlagOwned(s, action);
    StepKeepsCleanupPending(s, action);
  }

  /** Every reachable state satisfies the invariant. */
  lemma {:induction false} InvariantHolds(s: System, actions: seq<Action>)
    requires Invariant(s) && Run(s, actions).Some?
    ensures Invariant(Run(s, actions).value)
    decreases |actions|
  {
    hide HeldByOne, FlagOwned, CleanupPending;
    if actions != [] {
      StepKeepsInvariant(s, actions[0]);
      InvariantHolds(Step(s, actions[0]), actions[1..]);
    }
  }

  /** In every reachable state: the gate is held exactly when one permit is live, at most one worker
      owns the flag, and a gate in cleanup has a worker that will still finish it. */
  lemma ReachableStatesAreSound(actions: seq<Action>)
    requires Run(START, actions).Some?
    ensures var s := Run(START, actions).value;
            && (s.gate.phase.Held? <==> |s.callers| == 1) && |s.callers| <= 1
            && (forall w, v :: OwnsFlag(s, w) && OwnsFlag(s, v) ==> w == v)
            && (s.gate.phase.Cleanup? ==> exists w :: Pending(s, w))
            && ((exists w :: OwnsFlag(s, w)) ==> s.active)
  {
    hide Run;
    assert Invariant(START);
    InvariantHolds(START, actions);
    OnePermit(Run(START, actions).value);
  }

  lemma OnePermit(s: System)
    requires HeldByOne(s)
    ensures (s.gate.phase.Held? <==> |s.callers| == 1) && |s.callers| <= 1
  {
    if s.callers != map[] {
      var c :| c in s.callers;
      assert s.callers.Keys == {c};
      assert |s.callers| == |s.callers.Keys|;
    }
  }

  lemma {:induction false} RunConcat(s: System, a: seq<Action>, b: seq<Action>)
    ensures Run(s, a + b)
         == if Run(s, a).None? then None else Run(Run(s, a).value, b)
    decreases |a|
  {
    if a == [] {
      assert a + b == b;
    } else {
      assert (a + b)[0] == a[0] && (a + b)[1..] == a[1..] + b;
      if Enabled(s, a[0]) {
        RunConcat(Step(s, a[0]), a[1..], b);
      }
    }
  }

  lemma RunOne(s: System, action: Action)
    requires Enabled(s, action)
    ensures Run(s, [action]) == Some(Step(s, action))
  {
    assert [action][1..] == [];
  }

  /** The gate is never stuck: from every state that satisfies the invariant some run frees it. */
  lemma NeverStuck(s: System) returns (actions: seq<Action>)
    requires Invariant(s)
    ensures Run(s, actions).Some? && Run(s, actions).value.gate.phase.Free?
  {
    hide Run;
    if s.gate.phase.Free? {
      actions := [];
      NoAction(s);
    } else if s.gate.phase.Cleanup? {
      actions := FinishIt(s);
    } else {
      var caller :| caller in s.callers;
      var back := ComeBack(s, caller);
      var ready := Run(s, back).value;
      InvariantHolds(s, back);
      var returned := Step(ready, DropPermit(caller));
      RunOne(ready, DropPermit(caller));
      InvariantHolds(ready, [DropPermit(caller)]);
      RunConcat(s, back, [DropPermit(caller)]);
      if returned.gate.phase.Free? {
        actions := back + [DropPermit(caller)];
      } else {
        var finish := FinishIt(returned);
        RunConcat(s, back + [DropPermit(caller)], finish);
        actions := back + [DropPermit(caller)] + finish;
      }
    }
  }

  /** Somewhere on a run, its first state included, the gate is free. */
  predicate PassesFree(s: System, actions: seq<Action>)
    decreases |actions|
  {
    || s.gate.phase.Free?
    || (actions != [] && Enabled(s, actions[0]) && PassesFree(Step(s, actions[0]), actions[1..]))
  }

  /** No release is lost: a gate in cleanup is freed on every run on which the worker that is pending
      ends, whatever else happens on it. */
  lemma {:induction false} CleanupIsFinished(s: System, worker: nat, actions: seq<Action>)
    requires Invariant(s) && s.gate.phase.Cleanup? && Pending(s, worker)
    requires Run(s, actions).Some? && WorkerAt(Run(s, actions).value, worker, Done)
    ensures PassesFree(s, actions)
    decreases |actions|
  {
    if actions != [] {
      var t := Step(s, actions[0]);
      CleanupStep(s, worker, actions[0]);
      if !t.gate.phase.Free? {
        hide Invariant;
        StepKeepsInvariant(s, actions[0]);
        CleanupIsFinished(t, worker, actions[1..]);
      }
    }
  }

  lemma CleanupStep(s: System, worker: nat, action: Action)
    requires Invariant(s) && s.gate.phase.Cleanup? && Pending(s, worker) && Enabled(s, action)
    ensures var t := Step(s, action);
            t.gate.phase.Free? || (t.gate.phase.Cleanup? && Pending(t, worker))
  {
    hide FlagOwned, CleanupPending;
  }

  lemma NoAction(s: System)
    ensures Run(s, []) == Some(s)
  {
  }

  /** A caller can always come back to where it drops its permit. */
  lemma ComeBack(s: System, caller: nat) returns (actions: seq<Action>)
    requires Invariant(s) && caller in s.callers
    ensures Run(s, actions).Some?
    ensures At(Run(s, actions).value, caller, Returning)
    ensures Run(s, actions).value.gate == s.gate
  {
    match s.callers[caller] {
      case Permitted => actions := [GiveUp(caller)]; RunOne(s, GiveUp(caller));
      case Claimed => actions := [SpawnFails(caller)]; RunOne(s, SpawnFails(caller));
      case Spawned(_) => actions := [Detach(caller)]; RunOne(s, Detach(caller));
      case Returning => actions := [];
    }
  }

  /** A gate in cleanup is freed by the worker that is still pending. */
  lemma FinishIt(s: System) returns (actions: seq<Action>)
    requires CleanupPending(s) && s.gate.phase.Cleanup?
    ensures Run(s, actions).Some? && Run(s, actions).value.gate.phase.Free?
  {
    var w :| Pending(s, w);
    if WorkerAt(s, w, Running) {
      var cleared := Step(s, ClearFlag(w));
      actions := [ClearFlag(w)] + [FinishCleanup(w)];
      RunOne(s, ClearFlag(w));
      RunOne(cleared, FinishCleanup(w));
      RunConcat(s, [ClearFlag(w)], [FinishCleanup(w)]);
    } else {
      actions := [FinishCleanup(w)];
      RunOne(s, FinishCleanup(w));
    }
  }

  /** A caller that joins its worker and then returns frees the gate at once, without cleanup. */
  lemma JoinedReturnFrees(s: System, caller: nat)
    requires Invariant(s) && Enabled(s, Join(caller))
    ensures Enabled(Step(s, Join(caller)), DropPermit(caller))
    ensures Step(Step(s, Join(caller)), DropPermit(caller)).gate.phase.Free?
  {
    assert forall w :: OwnsFlag(s, w) ==> w == s.callers[caller].worker;
    assert forall c :: At(s, c, Claimed) ==> c in s.callers;
    assert !s.active;
  }

  // When a free gate has no worker.

  ghost predicate SomeoneFinishing(s: System) {
    exists w :: WorkerAt(s, w, Finishing)
  }

  /** A claim that succeeds while an earlier worker has cleared the flag but not finished its cleanup. */
  ghost predicate LateClaim(s: System, action: Action) {
    action.Claim? && !s.active && SomeoneFinishing(s)
  }

  ghost predicate NoLateClaim(s: System, actions: seq<Action>)
    decreases |actions|
  {
    actions == []
    || (!LateClaim(s, actions[0])
        && (Enabled(s, actions[0]) ==> NoLateClaim(Step(s, actions[0]), actions[1..])))
  }

  predicate FreeButActive(s: System) {
    s.gate.phase.Free? && s.active
  }

  /** While the flag is set nobody has a cleanup left to finish, and a free gate has no worker. */
  ghost predicate Calm(s: System) {
    (s.active ==> !SomeoneFinishing(s)) && !FreeButActive(s)
  }

  lemma StepKeepsCalm(s: System, action: Action)
    requires Invariant(s) && Calm(s) && Enabled(s, action) && !LateClaim(s, action)
    ensures Calm(Step(s, action))
  {
    hide CleanupPending;
    var t := Step(s, action);
    forall w | WorkerAt(t, w, Finishing) ensures !t.active {
      assert action.ClearFlag? || WorkerAt(s, w, Finishing);
    }
  }

  lemma {:induction false} RunKeepsCalm(s: System, actions: seq<Action>)
    requires Invariant(s) && Calm(s) && Run(s, actions).Some? && NoLateClaim(s, actions)
    ensures Calm(Run(s, actions).value)
    decreases |actions|
  {
    if actions != [] {
      hide Calm, LateClaim, Invariant;
      StepKeepsCalm(s, actions[0]);
      StepKeepsInvariant(s, actions[0]);
      RunKeepsCalm(Step(s, actions[0]), actions[1..]);
    }
  }

  /** A run without late claims never leaves the gate free while the flag is set. */
  lemma FreeMeansIdle(actions: seq<Action>)
    requires Run(START, actions).Some? && NoLateClaim(START, actions)
    ensures Run(START, actions).value.gate.phase.Free? ==> !Run(START, actions).value.active
  {
    RunKeepsCalm(START, actions);
  }

  lemma AnotherWorker(workers: set<nat>) returns (another: nat)
    ensures another !in workers && forall w :: w in workers ==> w < another
  {
    another := 0;
    var rest := workers;
    while rest != {}
      invariant rest <= workers
      invariant forall w :: w in workers && w !in rest ==> w < another
    {
      var w :| w in rest;
      rest := rest - {w};
      if w >= another {
        another := w + 1;
      }
    }
  }

  /** From a late claim on, four steps free the gate while the flag is set: the caller detaches from
      its worker and returns, and then the earlier worker finishes its cleanup. */
  lemma LateClaimGoesWrong(s: System, caller: nat, earlier: nat) returns (actions: seq<Action>)
    requires Invariant(s) && At(s, caller, Permitted) && !s.active && WorkerAt(s, earlier, Finishing)
    ensures var t := Step(s, Claim(caller));
            && Run(t, actions).Some? && NoLateClaim(t, actions)
            && FreeButActive(Run(t, actions).value)
  {
    hide CleanupPending, FlagOwned, LateClaim;
    var worker := AnotherWorker(s.workers.Keys);
    actions := [Spawn(caller, worker), Detach(caller), DropPermit(caller), FinishCleanup(earlier)];
    var s0 := Step(s, Claim(caller));
    assert s0.gate.phase.Held? && s0.active;
    var s1 := Step(s0, actions[0]);
    var s2 := Step(s1, actions[1]);
    var s3 := Step(s2, actions[2]);
    assert s3.gate.phase.Cleanup? && s3.active && WorkerAt(s3, earlier, Finishing);
    var s4 := Step(s3, actions[3]);
    NoAction(s4);
    var r3, r2, r1 := [actions[3]], actions[2..], actions[1..];
    assert [actions[3]] + [] == r3 && [actions[2]] + r3 == r2 && [actions[1]] + r2 == r1
        && [actions[0]] + r1 == actions;
    Chain(s3, actions[3], s4, [], s4);
    Chain(s2, actions[2], s3, r3, s4);
    Chain(s1, actions[1], s2, r2, s4);
    Chain(s0, actions[0], s1, r1, s4);
    NoClaimNotLate(s3, actions[3], []);
    NoClaimNotLate(s2, actions[2], r3);
    NoClaimNotLate(s1, actions[1], r2);
    NoClaimNotLate(s0, actions[0], r1);
  }

  lemma NoClaimNotLate(s: System, action: Action, rest: seq<Action>)
    requires Enabled(s, action) && !action.Claim? && NoLateClaim(Step(s, action), rest)
    ensures NoLateClaim(s, [action] + rest)
  {
    assert ([action] + rest)[1..] == rest;
  }

  /** The exact condition, at the moment of a claim that succeeds: what follows, with no further late
      claim, keeps a free gate without a worker if and only if no earlier worker is still to finish. */
  lemma FreeMeansIdleIff(s: System, caller: nat)
    requires Invariant(s) && At(s, caller, Permitted) && !s.active
    ensures var t := Step(s, Claim(caller));
            (forall actions :: Run(t, actions).Some? && NoLateClaim(t, actions) ==>
                                 !FreeButActive(Run(t, actions).value))
            <==> !SomeoneFinishing(s)
  {
    hide NoLateClaim;
    var t := Step(s, Claim(caller));
    if SomeoneFinishing(s) {
      var earlier :| WorkerAt(s, earlier, Finishing);
      var actions := LateClaimGoesWrong(s, caller, earlier);
    } else {
      StepKeepsInvariant(s, Claim(caller));
      StepKeepsCalm(s, Claim(caller));
      forall actions | Run(t, actions).Some? && NoLateClaim(t, actions)
        ensures !FreeButActive(Run(t, actions).value)
      {
        RunKeepsCalm(t, actions);
      }
    }
  }

  /** So it is not invariant that a free gate has no worker. A first worker clears the flag
      but does not get to finish the cleanup; a second owner acquires the gate, spawns its worker,
      detaches and returns; then the late cleanup of the first worker frees the gate of the second. */
  lemma FreeGateMayHaveWorker(first: Owner, second: Owner)
    ensures var actions := [Attempt(0, first), Claim(0), Spawn(0, 0), Detach(0), ClearFlag(0),
                            DropPermit(0), Attempt(1, second), Claim(1), Spawn(1, 1), Detach(1),
                            DropPermit(1), FinishCleanup(0)];
            && Run(START, actions).Some?
            && Run(START, actions).value.gate.phase.Free?
            && Run(START, actions).value.active
            && OwnsFlag(Run(START, actions).value, 1)
  {
    var early := [Attempt(0, first), Claim(0), Spawn(0, 0), Detach(0), ClearFlag(0), DropPermit(0)];
    var late := [Attempt(1, second), Claim(1), Spawn(1, 1), Detach(1), DropPermit(1),
                 FinishCleanup(0)];
    var middle := System(INITIAL, false, map[], map[0 := Finishing], 0);
    FirstRound(first, middle);
    SecondRound(second, middle);
    RunConcat(START, early, late);
    assert early + late
        == [Attempt(0, first), Claim(0), Spawn(0, 0), Detach(0), ClearFlag(0), DropPermit(0),
            Attempt(1, second), Claim(1), Spawn(1, 1), Detach(1), DropPermit(1), FinishCleanup(0)];
  }

  lemma FirstRound(first: Owner, middle: System)
    requires middle == System(INITIAL, false, map[], map[0 := Finishing], 0)
    ensures Run(START, [Attempt(0, first), Claim(0), Spawn(0, 0), Detach(0), ClearFlag(0),
                        DropPermit(0)]) == Some(middle)
  {
    var held := Gate(Held, None);
    var s1 := System(held, false, map[0 := Permitted], map[], 0);
    var s2 := System(held, true, map[0 := Claimed], map[], 0);
    var s3 := System(held, true, map[0 := Spawned(0)], map[0 := Running], 0);
    var s4 := System(held, true, map[0 := Returning], map[0 := Running], 0);
    var s5 := System(held, false, map[0 := Returning], map[0 := Finishing], 0);
    Chain(s5, DropPermit(0), middle, [], middle);
    Chain(s4, ClearFlag(0), s5, [DropPermit(0)], middle);
    Chain(s3, Detach(0), s4, [ClearFlag(0), DropPermit(0)], middle);
    Chain(s2, Spawn(0, 0), s3, [Detach(0), ClearFlag(0), DropPermit(0)], middle);
    Chain(s1, Claim(0), s2, [Spawn(0, 0), Detach(0), ClearFlag(0), DropPermit(0)], middle);
    Chain(START, Attempt(0, first), s1,
          [Claim(0), Spawn(0, 0), Detach(0), ClearFlag(0), DropPermit(0)], middle);
  }

  lemma SecondRound(second: Owner, middle: System)
    requires middle == System(INITIAL, false, map[], map[0 := Finishing], 0)
    ensures Run(middle, [Attempt(1, second), Claim(1), Spawn(1, 1), Detach(1), DropPermit(1),
                         FinishCleanup(0)])
         == Some(System(INITIAL, true, map[], map[0 := Done, 1 := Running], 0))
  {
    var s3 := System(Gate(Held, None), true, map[1 := Spawned(1)],
                     map[0 := Finishing, 1 := Running], 0);
    var s6 := System(INITIAL, true, map[], map[0 := Done, 1 := Running], 0);
    var rest := [Detach(1), DropPermit(1), FinishCleanup(0)];
    SecondRoundEnds(s3, s6);
    SecondRoundBegins(second, middle, s3, rest, s6);
    assert [Attempt(1, second), Claim(1), Spawn(1, 1)] + rest
        == [Attempt(1, second), Claim(1), Spawn(1, 1), Detach(1), DropPermit(1), FinishCleanup(0)];
  }

  lemma SecondRoundBegins(
    second: Owner, middle: System, s3: System, rest: seq<Action>, final: System)
    requires middle == System(INITIAL, false, map[], map[0 := Finishing], 0)
    requires s3 == System(Gate(Held, None), true, map[1 := Spawned(1)],
                          map[0 := Finishing, 1 := Running], 0)
    requires Run(s3, rest) == Some(final)
    ensures Run(middle, [Attempt(1, second), Claim(1), Spawn(1, 1)] + rest) == Some(final)
  {
    hide Run;
    var held := Gate(Held, None);
    var s1 := System(held, false, map[1 := Permitted], map[0 := Finishing], 0);
    var s2 := System(held, true, map[1 := Claimed], map[0 := Finishing], 0);
    Chain(s2, Spawn(1, 1), s3, rest, final);
    Chain(s1, Claim(1), s2, [Spawn(1, 1)] + rest, final);
    Chain(middle, Attempt(1, second), s1, [Claim(1)] + ([Spawn(1, 1)] + rest), final);
    assert [Attempt(1, second)] + ([Claim(1)] + ([Spawn(1, 1)] + rest))
        == [Attempt(1, second), Claim(1), Spawn(1, 1)] + rest;
  }

  lemma SecondRoundEnds(s3: System, s6: System)
    requires s3 == System(Gate(Held, None), true, map[1 := Spawned(1)],
                          map[0 := Finishing, 1 := Running], 0)
    requires s6 == System(INITIAL, true, map[], map[0 := Done, 1 := Running], 0)
    ensures Run(s3, [Detach(1), DropPermit(1), FinishCleanup(0)]) == Some(s6)
  {
    hide Run;
    var s4 := s3.(callers := map[1 := Returning]);
    var s5 := System(Gate(Cleanup, None), true, map[], map[0 := Finishing, 1 := Running], 0);
    NoAction(s6);
    assert [FinishCleanup(0)] == [FinishCleanup(0)] + [];
    Chain(s5, FinishCleanup(0), s6, [], s6);
    Chain(s4, DropPermit(1), s5, [FinishCleanup(0)], s6);
    Chain(s3, Detach(1), s4, [DropPermit(1)] + [FinishCleanup(0)], s6);
    assert [Detach(1)] + ([DropPermit(1)] + [FinishCleanup(0)])
        == [Detach(1), DropPermit(1), FinishCleanup(0)];
  }

  lemma Chain(s: System, action: Action, t: System, rest: seq<Action>, final: System)
    requires Enabled(s, action) && Step(s, action) == t
    requires Run(t, rest) == Some(final)
    ensures Run(s, [action] + rest) == Some(final)
  {
    assert ([action] + rest)[1..] == rest;
  }

  // Fairness of the reservation.

  predicate ReservedFor(s: System, owner: Owner) {
    s.gate.reservation.Some? && s.gate.reservation.value.owner == owner
  }

  /** The first owner refused by a busy gate that is not reserved gets the reservation. */
  lemma FirstRefusedReserves(s: System, caller: nat, owner: Owner)
    requires !s.gate.phase.Free? && s.gate.reservation.None? && Enabled(s, Attempt(caller, owner))
    ensures var t := Step(s, Attempt(caller, owner));
            && ReservedFor(t, owner) && t.gate.phase == s.gate.phase && t.callers == s.callers
  {
  }

  /** While the gate is busy nothing takes the reservation away; the step that frees the gate starts
      its time to live. */
  lemma BusyStepKeepsReservation(s: System, action: Action, owner: Owner)
    requires Invariant(s) && Enabled(s, action)
    requires !s.gate.phase.Free? && ReservedFor(s, owner)
    ensures var t := Step(s, action);
            && ReservedFor(t, owner)
            && (t.gate.phase.Free? ==>
                  t.gate.reservation.value.expiresAt == s.now + RESERVATION_TTL && t.now == s.now)
  {
  }

  /** All states a run passes through before its last one are busy. */
  predicate BusyUntilEnd(s: System, actions: seq<Action>)
    decreases |actions|
  {
    actions == []
    || (!s.gate.phase.Free? && Enabled(s, actions[0])
        && BusyUntilEnd(Step(s, actions[0]), actions[1..]))
  }

  /** The reservation survives any busy stretch, however long, and whoever else attempts; if the
      stretch ends with a release, the reservation then has its whole time to live. */
  lemma {:induction false} BusyRunKeepsReservation(s: System, actions: seq<Action>, owner: Owner)
    requires Invariant(s) && !s.gate.phase.Free? && ReservedFor(s, owner)
    requires BusyUntilEnd(s, actions) && Run(s, actions).Some?
    ensures var t := Run(s, actions).value;
            && ReservedFor(t, owner)
            && (t.gate.phase.Free? ==>
                  t.gate.reservation.value.expiresAt == t.now + RESERVATION_TTL)
    decreases |actions|
  {
    hide HeldByOne, FlagOwned, CleanupPending;
    if actions != [] {
      var next := Step(s, actions[0]);
      BusyStepKeepsReservation(s, actions[0], owner);
      StepKeepsHeldByOne(s, actions[0]);
      StepKeepsFlagOwned(s, actions[0]);
      StepKeepsCleanupPending(s, actions[0]);
      if actions[1..] != [] {
        BusyRunKeepsReservation(next, actions[1..], owner);
      }
    }
  }

  predicate NoAttemptBy(actions: seq<Action>, owner: Owner) {
    forall k :: 0 <= k < |actions| ==> !(actions[k].Attempt? && actions[k].owner == owner)
  }

  /** On a free gate reserved for an owner, as long as the reservation lasts, no step of anyone else
      changes the gate or gets a permit. */
  lemma WindowStepKeepsGate(s: System, action: Action, owner: Owner)
    requires Invariant(s) && Enabled(s, action)
    requires s.gate.phase.Free? && ReservedFor(s, owner)
    requires s.now < s.gate.reservation.value.expiresAt
    requires !(action.Attempt? && action.owner == owner)
    ensures Step(s, action).gate == s.gate && Step(s, action).callers == map[]
  {
  }

  lemma {:induction false} TimeNeverRunsBack(s: System, actions: seq<Action>)
    requires Run(s, actions).Some?
    ensures s.now <= Run(s, actions).value.now
    decreases |actions|
  {
    if actions != [] {
      TimeNeverRunsBack(Step(s, actions[0]), actions[1..]);
    }
  }

  lemma {:induction false} WindowRunKeepsGate(s: System, actions: seq<Action>, owner: Owner)
    requires Invariant(s) && s.gate.phase.Free? && ReservedFor(s, owner)
    requires Run(s, actions).Some? && NoAttemptBy(actions, owner)
    requires Run(s, actions).value.now < s.gate.reservation.value.expiresAt
    ensures Run(s, actions).value.gate == s.gate
    decreases |actions|
  {
    hide HeldByOne, FlagOwned, CleanupPending;
    if actions != [] {
      var action, rest := actions[0], actions[1..];
      TimeNeverRunsBack(s, actions);
      assert !(action.Attempt? && action.owner == owner);
      WindowStepKeepsGate(s, action, owner);
      StepKeepsHeldByOne(s, action);
      StepKeepsFlagOwned(s, action);
      StepKeepsCleanupPending(s, action);
      forall k | 0 <= k < |rest| ensures !(rest[k].Attempt? && rest[k].owner == owner) {
        assert rest[k] == actions[k + 1];
      }
      WindowRunKeepsGate(Step(s, action), rest, owner);
    }
  }

  /** Fairness over a whole run: an owner refused by a busy, unreserved gate gets in when it attempts
      again within the time to live after the release, whatever everyone else did in between. */
  lemma RefusedOwnerGetsIn(
    s: System, caller: nat, owner: Owner, busy: seq<Action>, window: seq<Action>, again: nat)
    requires Invariant(s) && !s.gate.phase.Free? && s.gate.reservation.None?
    requires Enabled(s, Attempt(caller, owner))
    requires var refused := Step(s, Attempt(caller, owner));
             && BusyUntilEnd(refused, busy) && Run(refused, busy).Some?
             && var released := Run(refused, busy).value;
                && released.gate.phase.Free?
                && Run(released, window).Some? && NoAttemptBy(window, owner)
                && Run(released, window).value.now < released.now + RESERVATION_TTL
                && Enabled(Run(released, window).value, Attempt(again, owner))
    ensures var refused := Step(s, Attempt(caller, owner));
            var last := Run(Run(refused, busy).value, window).value;
            At(Step(last, Attempt(again, owner)), again, Permitted)
  {
    hide HeldByOne, FlagOwned, CleanupPending, Run, BusyUntilEnd, NoAttemptBy;
    FirstRefusedReserves(s, caller, owner);
    var refused := Step(s, Attempt(caller, owner));
    StepKeepsInvariant(s, Attempt(caller, owner));
    BusyRunKeepsReservation(refused, busy, owner);
    var released := Run(refused, busy).value;
    InvariantHolds(refused, busy);
    WindowRunKeepsGate(released, window, owner);
  }

  /** Attempts of others within the window fail and change nothing. */
  lemma OthersWaitForExpiry(s: System, caller: nat, owner: Owner, other: Owner)
    requires s.gate.phase.Free? && ReservedFor(s, owner) && other != owner
    requires s.now < s.gate.reservation.value.expiresAt
    requires Enabled(s, Attempt(caller, other))
    ensures Step(s, Attempt(caller, other)) == s
  {
  }

  /** All states a run passes through, the last one included, have a free gate. */
  predicate StaysFree(s: System, actions: seq<Action>)
    decreases |actions|
  {
    && s.gate.phase.Free?
    && (actions == []
        || (Enabled(s, actions[0]) && StaysFree(Step(s, actions[0]), actions[1..])))
  }

  /** Steps that leave a gate free change nothing about it: neither its reservation nor who is in. */
  lemma FreeStepKeepsGate(s: System, action: Action)
    requires Invariant(s) && Enabled(s, action)
    requires s.gate.phase.Free? && Step(s, action).gate.phase.Free?
    ensures Step(s, action).gate == s.gate
  {
    hide FlagOwned, CleanupPending;
  }

  lemma {:induction false} FreeRunKeepsGate(s: System, actions: seq<Action>)
    requires Invariant(s) && StaysFree(s, actions) && Run(s, actions).Some?
    ensures Run(s, actions).value.gate == s.gate
    decreases |actions|
  {
    hide Invariant;
    if actions != [] {
      FreeStepKeepsGate(s, actions[0]);
      StepKeepsInvariant(s, actions[0]);
      FreeRunKeepsGate(Step(s, actions[0]), actions[1..]);
    }
  }

  /** Who gets in, over a whole run: after a first refusal, any busy stretch up to the release, and any
      stretch after it in which the gate stays free, an attempt succeeds if and only if it is made by
      the owner that was refused, or at or after the release plus the time to live. */
  lemma GetsInIff(
    s: System, caller: nat, owner: Owner, busy: seq<Action>, free: seq<Action>, again: nat,
    anyone: Owner)
    requires Invariant(s) && !s.gate.phase.Free? && s.gate.reservation.None?
    requires Enabled(s, Attempt(caller, owner))
    requires var refused := Step(s, Attempt(caller, owner));
             && BusyUntilEnd(refused, busy) && Run(refused, busy).Some?
             && var released := Run(refused, busy).value;
                && StaysFree(released, free) && Run(released, free).Some?
                && Enabled(Run(released, free).value, Attempt(again, anyone))
    ensures var refused := Step(s, Attempt(caller, owner));
            var released := Run(refused, busy).value;
            var last := Run(released, free).value;
            At(Step(last, Attempt(again, anyone)), again, Permitted)
            <==> anyone == owner || last.now >= released.now + RESERVATION_TTL
  {
    hide HeldByOne, FlagOwned, CleanupPending, Run, BusyUntilEnd;
    FirstRefusedReserves(s, caller, owner);
    var refused := Step(s, Attempt(caller, owner));
    StepKeepsInvariant(s, Attempt(caller, owner));
    BusyRunKeepsReservation(refused, busy, owner);
    var released := Run(refused, busy).value;
    InvariantHolds(refused, busy);
    FreeRunKeepsGate(released, free);
  }

  // Admission, from what has happened alone.

  /** Who was refused first since somebody last got in, and when the gate was last freed. */
  datatype History = History(refused: Option<Owner>, released: nat)

  function Remember(history: History, s: System, action: Action): History
    requires Enabled(s, action)
  {
    var t := Step(s, action);
    History(
      if !action.Attempt? then history.refused
      else if action.caller in t.callers then None
      else if s.gate.phase.Free? || history.refused.Some? then history.refused
      else Some(action.owner),
      if !s.gate.phase.Free? && t.gate.phase.Free? then s.now else history.released)
  }

  function HistoryOf(s: System, actions: seq<Action>, history: History): History
    requires Run(s, actions).Some?
    decreases |actions|
  {
    if actions == [] then history
    else HistoryOf(Step(s, actions[0]), actions[1..], Remember(history, s, actions[0]))
  }

  /** The reservation is what the history says. */
  predicate Reflects(s: System, history: History) {
    && (s.gate.reservation.None? <==> history.refused.None?)
    && (s.gate.reservation.Some? ==>
          && s.gate.reservation.value.owner == history.refused.value
          && (s.gate.phase.Free? ==>
                s.gate.reservation.value.expiresAt == history.released + 5_000_000_000))
  }

  lemma StepReflects(s: System, action: Action, history: History)
    requires Invariant(s) && Reflects(s, history) && Enabled(s, action)
    ensures Reflects(Step(s, action), Remember(history, s, action))
  {
    hide FlagOwned, CleanupPending;
  }

  lemma {:induction false} RunReflects(s: System, actions: seq<Action>, history: History)
    requires Invariant(s) && Reflects(s, history) && Run(s, actions).Some?
    ensures Reflects(Run(s, actions).value, HistoryOf(s, actions, history))
    decreases |actions|
  {
    hide Invariant, Reflects, Remember;
    if actions != [] {
      StepReflects(s, actions[0], history);
      StepKeepsInvariant(s, actions[0]);
      RunReflects(Step(s, actions[0]), actions[1..], Remember(history, s, actions[0]));
    }
  }

  /** Who gets in, in every run from the start: an attempt succeeds if and only if the gate is free and
      nobody has been refused since somebody last got in, or the first who was makes the attempt, or five
      seconds have passed since the gate was freed. */
  lemma AdmittedIff(actions: seq<Action>, caller: nat, owner: Owner)
    requires Run(START, actions).Some?
    requires Enabled(Run(START, actions).value, Attempt(caller, owner))
    ensures var s := Run(START, actions).value;
            var history := HistoryOf(START, actions, History(None, 0));
            At(Step(s, Attempt(caller, owner)), caller, Permitted)
            <==> && s.gate.phase.Free?
                 && (history.refused.None? || history.refused == Some(owner)
                     || s.now >= history.released + 5_000_000_000)
  {
    hide Run, HistoryOf, HeldByOne, FlagOwned, CleanupPending;
    StartIsSound();
    RunReflects(START, actions, History(None, 0));
  }

  lemma StartIsSound()
    ensures Invariant(START)
  {
  }
}
