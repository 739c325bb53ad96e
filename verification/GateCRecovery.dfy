/** The Gate C recovery plan, and the in-memory journal that is kept in step with the durable one. */
module GateCRecovery {
  import opened Words
  import opened Watchdog
  import opened CrashJournal
  import opened JournalCodec
  import opened JournalStorage
  import opened StoreSafety
  import opened CrashJournalStore

  // ---------------------------------------------------------------- the plan

  datatype Target = Target(actionId: U32, activationOrdinal: U32, generation: U64, process: ProcessIdentity)

  const ACTION_TIMEOUT_MS := 2_000

  function ActionFor(t: Target): Action {
    Action(t.actionId, TerminateOwnedProcess, t.activationOrdinal, ACTION_TIMEOUT_MS, t.generation, 0, t.process)
  }

  function ManifestFor(lease: Lease, rollbackTimeout: U32, targets: seq<Target>): Manifest {
    Manifest(lease, rollbackTimeout, seq(|targets|, i requires 0 <= i < |targets| => ActionFor(targets[i])))
  }

  predicate Identified(t: Target) {
    t.actionId != 0 && t.activationOrdinal != 0 && t.generation != 0
    && t.process.processId != 0 && t.process.creationTime100ns != 0
  }

  predicate Unalike(t: Target, u: Target) {
    t.actionId != u.actionId && t.activationOrdinal != u.activationOrdinal && t.process != u.process
  }

  /** Of the first n targets, each is fully identified, and no id, ordinal or process appears twice. */
  predicate DistinctUpTo(targets: seq<Target>, n: nat)
    requires n <= |targets|
  {
    && (forall i :: 0 <= i < n ==> Identified(targets[i]))
    && (forall i, j :: 0 <= i < j < n ==> Unalike(targets[i], targets[j]))
  }

  predicate TargetsDistinct(targets: seq<Target>) {
    DistinctUpTo(targets, |targets|)
  }

  /**
   * makeGateCRecoveryPlan: succeeds exactly on identified, pairwise distinct targets with timeouts in range, and
   * then gives a valid plan with one process termination per target.
   */
  method MakePlan(session: SessionId, leaseGeneration: U64, leaseTimeout: U32, rollbackTimeout: U32, targets: seq<Target>)
    returns (plan: Option<Manifest>)
    ensures plan.Some? <==>
      && !AllZero(session) && leaseGeneration != 0 && 0 < |targets| <= 32
      && (forall i :: 0 <= i < |targets| ==>
            && targets[i].actionId > 0 && targets[i].activationOrdinal > 0 && targets[i].generation > 0
            && targets[i].process.processId > 0 && targets[i].process.creationTime100ns > 0)
      && (forall i, j :: 0 <= i < j < |targets| ==>
            && targets[i].actionId != targets[j].actionId && targets[i].process != targets[j].process
            && targets[i].activationOrdinal != targets[j].activationOrdinal)
      && 100 <= leaseTimeout <= 60_000 && 2_000 <= rollbackTimeout <= 60_000
    ensures plan.Some? ==> ValidManifest(plan.value)
    ensures plan.Some? ==>
      && plan.value == Manifest(Lease(session, leaseGeneration, leaseTimeout), rollbackTimeout, plan.value.actions)
      && |plan.value.actions| == |targets|
      && forall i :: 0 <= i < |targets| ==>
           var t := targets[i];
           plan.value.actions[i] ==
             Action(t.actionId, TerminateOwnedProcess, t.activationOrdinal, 2_000, t.generation, 0, t.process)
  {
    if AllZero(session) || leaseGeneration == 0 || |targets| == 0 || |targets| > MAX_ROLLBACK_ACTIONS { return None; }
    var distinct, actions := CollectActions(targets);
    if !distinct { return None; }
    var manifest := Manifest(Lease(session, leaseGeneration, leaseTimeout), rollbackTimeout, actions);
    assert manifest == ManifestFor(Lease(session, leaseGeneration, leaseTimeout), rollbackTimeout, targets);
    ValidWhenTimely(manifest, targets);
    return if ValidManifest(manifest) then Some(manifest) else None;
  }

  method CollectActions(targets: seq<Target>) returns (distinct: bool, actions: seq<Action>)
    ensures distinct <==> TargetsDistinct(targets)
    ensures distinct ==> |actions| == |targets| && forall k :: 0 <= k < |targets| ==> actions[k] == ActionFor(targets[k])
  {
    hide IdsOf, OrdinalsOf, DistinctUpTo;
    var actionIds: set<U32>, ordinals: set<U32> := {}, {};
    actions := [];
    var i := 0;
    NoneSeen(targets);
    while i < |targets|
      invariant 0 <= i <= |targets| && |actions| == i
      invariant DistinctUpTo(targets, i)
      invariant forall k :: 0 <= k < i ==> actions[k] == ActionFor(targets[k])
      invariant actionIds == IdsOf(targets[..i]) && ordinals == OrdinalsOf(targets[..i])
    {
      var t := targets[i];
      var duplicateProcess := exists k :: 0 <= k < |actions| && actions[k].process == t.process;
      Duplicates(targets, i);
      SeenNext(targets, i);
      assert duplicateProcess <==> exists k :: 0 <= k < i && targets[k].process == t.process;
      if !Identified(t) || duplicateProcess || t.actionId in actionIds || t.activationOrdinal in ordinals {
        NotAll(targets, i + 1);
        return false, actions;
      }
      actionIds, ordinals, actions := actionIds + {t.actionId}, ordinals + {t.activationOrdinal}, actions + [ActionFor(t)];
      i := i + 1;
    }
    assert TargetsDistinct(targets);
    return true, actions;
  }

  lemma NoneSeen(targets: seq<Target>)
    ensures IdsOf(targets[..0]) == {} && OrdinalsOf(targets[..0]) == {} && DistinctUpTo(targets, 0)
  {
  }

  lemma SeenNext(targets: seq<Target>, i: nat)
    requires i < |targets|
    ensures IdsOf(targets[..i + 1]) == IdsOf(targets[..i]) + {targets[i].actionId}
    ensures OrdinalsOf(targets[..i + 1]) == OrdinalsOf(targets[..i]) + {targets[i].activationOrdinal}
  {
    assert targets[..i + 1][..i] == targets[..i];
  }

  lemma NotAll(targets: seq<Target>, n: nat)
    requires n <= |targets| && !DistinctUpTo(targets, n)
    ensures !TargetsDistinct(targets)
  {
    hide Unalike, Identified;
  }

  function IdsOf(targets: seq<Target>): set<U32> {
    if |targets| == 0 then {} else IdsOf(targets[..|targets| - 1]) + {targets[|targets| - 1].actionId}
  }

  function OrdinalsOf(targets: seq<Target>): set<U32> {
    if |targets| == 0 then {} else OrdinalsOf(targets[..|targets| - 1]) + {targets[|targets| - 1].activationOrdinal}
  }

  lemma {:induction false} SeenBefore(targets: seq<Target>, t: Target)
    ensures t.actionId in IdsOf(targets) <==> exists k :: 0 <= k < |targets| && targets[k].actionId == t.actionId
    ensures t.activationOrdinal in OrdinalsOf(targets) <==>
      exists k :: 0 <= k < |targets| && targets[k].activationOrdinal == t.activationOrdinal
  {
    if |targets| > 0 {
      var init := targets[..|targets| - 1];
      SeenBefore(init, t);
      if k :| 0 <= k < |init| && init[k].actionId == t.actionId { assert targets[k] == init[k]; }
      if k :| 0 <= k < |init| && init[k].activationOrdinal == t.activationOrdinal { assert targets[k] == init[k]; }
    }
  }

  lemma Duplicates(targets: seq<Target>, i: nat)
    requires i < |targets|
    ensures DistinctUpTo(targets, i + 1) <==>
      && DistinctUpTo(targets, i) && Identified(targets[i])
      && targets[i].actionId !in IdsOf(targets[..i]) && targets[i].activationOrdinal !in OrdinalsOf(targets[..i])
      && forall k :: 0 <= k < i ==> targets[k].process != targets[i].process
  {
    var t, before := targets[i], targets[..i];
    SeenBefore(before, t);
    assert forall k :: 0 <= k < i ==> before[k] == targets[k];
  }

  lemma ValidWhenTimely(m: Manifest, targets: seq<Target>)
    requires TargetsDistinct(targets) && 0 < |targets| <= MAX_ROLLBACK_ACTIONS
    requires m == ManifestFor(m.lease, m.rollbackTimeoutMilliseconds, targets)
    requires !AllZero(m.lease.sessionId) && m.lease.generation != 0
    ensures ValidManifest(m) <==>
      && MIN_LEASE_TIMEOUT_MS <= m.lease.timeoutMilliseconds <= MAX_LEASE_TIMEOUT_MS
      && ACTION_TIMEOUT_MS <= m.rollbackTimeoutMilliseconds <= MAX_ROLLBACK_TIMEOUT_MS
  {
    assert m.actions[0] == ActionFor(targets[0]);
  }

  // ---------------------------------------------------------------- memory and disk

  /** The journal on disk is one plan-valid record ahead of the one in memory. */
  ghost predicate OneAhead(memory: State, disk: State, p: Plan) {
    ValidAgainstPlan(disk, p) && Extends(memory, disk) && |disk.records| == |memory.records| + 1
  }

  lemma AppendedExtends(s: State, p: Plan, kind: RecordKind, actionId: U32, generation: U64)
    requires Appended(s, p, kind, actionId, generation).Some?
    ensures OneAhead(s, Appended(s, p, kind, actionId, generation).value, p)
  {
  }

  /** A journal one ahead is extended, by one record or none, only by itself. */
  lemma OnlyTheSameMarker(memory: State, disk: State, next: State, p: Plan)
    requires OneAhead(memory, disk, p) && OneAhead(memory, next, p)
    ensures Extends(disk, next) <==> next == disk
  {
  }

  class RecoveryJournal {
    const store: Store
    const plan: Plan
    const runtimeGeneration: U64
    var state: Option<State>

    constructor (store: Store, plan: Plan, runtimeGeneration: U64)
      ensures this.store == store && this.plan == plan && this.runtimeGeneration == runtimeGeneration && state.None?
    {
      this.store, this.plan, this.runtimeGeneration := store, plan, runtimeGeneration;
      state := None;
    }

    /** Memory agrees with disk: the durable journal is the one in memory, or exactly one record ahead of it. */
    ghost predicate InStep()
      reads this, store.storage
    {
      && store.storage.Valid()
      && (state.Some? ==>
            && ValidAgainstPlan(state.value, plan)
            && state.value.runtimeGeneration == runtimeGeneration
            && Stored(store.storage.slots).Some?
            && var disk := Stored(store.storage.slots).value;
              disk == state.value || OneAhead(state.value, disk, plan))
    }

    /** begin */
    method Begin(snapshots: seq<Snapshot>) returns (ok: bool)
      requires InStep()
      modifies this`state, store.storage`slots, store.storage`log
      ensures InStep()
      ensures ok ==> old(state).None? && state == Stored(store.storage.slots)
                     && state == Some(InitialState(plan, runtimeGeneration, snapshots))
      ensures !ok ==> state == old(state)
      ensures Ordinary(old(store.storage.log)) ==> Ordinary(store.storage.log)
    {
      hide Encoded, Decoded, ValidState, Ordinary;
      if state.Some? { return false; }
      var initial := MakeInitial(plan, runtimeGeneration, snapshots);
      if initial.None? { return false; }
      ok := store.BeginActivation(initial.value);
      if ok {
        JournalDecodedBack(initial.value);
        state := initial;
      }
    }

    /**
     * appendAndPersist: memory moves only when the disk provably holds the new journal. While the disk is one
     * record ahead, the same marker only catches memory up, and any other marker is refused with the disk unchanged.
     */
    method AppendAndPersist(kind: RecordKind, actionId: U32, generation: U64) returns (ok: bool)
      requires InStep()
      modifies this`state, store.storage`slots, store.storage`log
      ensures InStep()
      ensures !ok ==> state == old(state)
      ensures ok ==> old(state).Some? && state == Appended(old(state).value, plan, kind, actionId, generation)
                     && state.Some? && Stored(store.storage.slots) == state
      ensures old(state).Some? && old(Stored(store.storage.slots)) != old(state) ==>
        && Stored(store.storage.slots) == old(Stored(store.storage.slots))
        && (ok ==> Appended(old(state).value, plan, kind, actionId, generation) == Stored(store.storage.slots))
        && (store.storage.ReadsWell(Current) ==>
              (ok <==> Appended(old(state).value, plan, kind, actionId, generation) == Stored(store.storage.slots)))
      ensures old(state).Some? && old(Stored(store.storage.slots)) == old(state) ==>
        store.storage.ReadsWell(Current) && !store.storage.faulty ==>
        (ok <==> Appended(old(state).value, plan, kind, actionId, generation).Some?)
      ensures Stored(store.storage.slots) == old(Stored(store.storage.slots))
              || (old(state).Some? && Stored(store.storage.slots) == Appended(old(state).value, plan, kind, actionId, generation))
      ensures Ordinary(old(store.storage.log)) ==> Ordinary(store.storage.log)
    {
      hide Encoded, Decoded, ValidState, Ordinary;
      if state.None? { return false; }
      var next := state.value;
      ok, next := AppendRecord(state.value, plan, kind, actionId, generation);
      if !ok { return false; }
      AppendedExtends(state.value, plan, kind, actionId, generation);
      ghost var disk := Stored(store.storage.slots).value;
      if disk != state.value { OnlyTheSameMarker(state.value, disk, next, plan); }
      ok := store.PersistTransition(next);
      JournalDecodedBack(next);
      if ok { state := Some(next); }
    }

    /** The plan has the action, and the journal can take the marker with that action's generation. */
    ghost predicate Accepts(kind: RecordKind, actionId: U32)
      requires state.Some?
      reads this
    {
      var action := FindAction(plan.manifest.actions, actionId);
      action.Some? && Appended(state.value, plan, kind, actionId, action.value.generation).Some?
    }

    /** prepareAction, markActionApplied, markActionVerified and markActionRolledBack, which differ only in `kind`. */
    method MarkAction(kind: RecordKind, actionId: U32) returns (ok: bool)
      requires InStep() && IsActionKind(kind)
      modifies this`state, store.storage`slots, store.storage`log
      ensures InStep()
      ensures !ok ==> state == old(state)
      ensures ok ==> old(state).Some? && state.Some? && Stored(store.storage.slots) == state
                     && |state.value.records| == |old(state).value.records| + 1
                     && state.value.records[|old(state).value.records|].kind == kind
                     && state.value.records[|old(state).value.records|].actionId == actionId
      ensures old(state).Some? && old(Stored(store.storage.slots)) == old(state) ==>
        store.storage.ReadsWell(Current) && !store.storage.faulty ==> (ok <==> old(Accepts(kind, actionId)))
      ensures Ordinary(old(store.storage.log)) ==> Ordinary(store.storage.log)
    {
      hide Ordinary, ValidAgainstPlan, Appended, Stored, OneAhead;
      var action := FindAction(plan.manifest.actions, actionId);
      if action.None? { return false; }
      if state.Some? { AppendedOne(state.value, plan, kind, actionId, action.value.generation); }
      ok := AppendAndPersist(kind, actionId, action.value.generation);
    }

    /** commitActivation, beginRollback, verifyRollback, markCleanStop and markRecoveryRequired. */
    method MarkSession(kind: RecordKind) returns (ok: bool)
      requires InStep() && !IsActionKind(kind)
      modifies this`state, store.storage`slots, store.storage`log
      ensures InStep()
      ensures !ok ==> state == old(state)
      ensures ok ==> old(state).Some? && state.Some? && Stored(store.storage.slots) == state
                     && |state.value.records| == |old(state).value.records| + 1
                     && state.value.records[|old(state).value.records|].kind == kind
      ensures old(state).Some? && old(Stored(store.storage.slots)) == old(state) ==>
        store.storage.ReadsWell(Current) && !store.storage.faulty ==>
        (ok <==> old(Appended(state.value, plan, kind, 0, runtimeGeneration).Some?))
      ensures Ordinary(old(store.storage.log)) ==> Ordinary(store.storage.log)
    {
      hide Ordinary, ValidAgainstPlan, Appended, Stored, OneAhead;
      if state.Some? { AppendedOne(state.value, plan, kind, 0, runtimeGeneration); }
      ok := AppendAndPersist(kind, 0, runtimeGeneration);
    }

    /** Any sequence of marker requests, under any storage behaviour, leaves memory and disk in step. */
    method Drive(requests: seq<(RecordKind, U32)>)
      requires InStep()
      modifies this`state, store.storage
      ensures InStep()
      ensures Ordinary(old(store.storage.log)) ==> Ordinary(store.storage.log)
    {
      hide Ordinary, ValidAgainstPlan, OneAhead, Extends;
      var i := 0;
      while i < |requests|
        invariant 0 <= i <= |requests| && InStep()
        invariant Ordinary(old(store.storage.log)) ==> Ordinary(store.storage.log)
      {
        var flaky: bool, faulty: bool, unreadable: set<Slot> := *, *, *;
        store.storage.flaky, store.storage.faulty, store.storage.unreadable := flaky, faulty, unreadable;
        if IsActionKind(requests[i].0) {
          var _ := MarkAction(requests[i].0, requests[i].1);
        } else {
          var _ := MarkSession(requests[i].0);
        }
        i := i + 1;
      }
    }

    /**
     * A marker reported as failed can simply be asked for again: once storage works, the retry succeeds and
     * memory and disk are equal, whether or not the first attempt had reached the disk.
     */
    method Retry(kind: RecordKind, actionId: U32, generation: U64) returns (first: bool, second: bool)
      requires InStep() && state.Some? && Appended(state.value, plan, kind, actionId, generation).Some?
      requires Stored(store.storage.slots) == state
      modifies this`state, store.storage
      ensures InStep() && state == Stored(store.storage.slots)
      ensures first || second
      ensures state == old(Appended(state.value, plan, kind, actionId, generation))
    {
      hide Appended, ValidAgainstPlan, Ordinary, Stored, OneAhead;
      first := AppendAndPersist(kind, actionId, generation);
      second := false;
      if !first {
        store.storage.flaky, store.storage.faulty, store.storage.unreadable := false, false, {};
        second := AppendAndPersist(kind, actionId, generation);
      }
    }
  }

  lemma AppendedOne(s: State, plan: Plan, kind: RecordKind, actionId: U32, generation: U64)
    ensures var next := Appended(s, plan, kind, actionId, generation);
      next.Some? ==>
        && |next.value.records| == |s.records| + 1
        && next.value.records[|s.records|].kind == kind && next.value.records[|s.records|].actionId == actionId
  {
    hide ValidAgainstPlan;
  }

  lemma JournalDecodedBack(s: State)
    ensures ValidState(s) ==> Decoded(Encoded(s)) == Some(s)
  {
    if ValidState(s) { DecodedEncoded(s); }
  }
}
