/**
 * The crash-recovery journal: an append-only record list whose phase is derived by replay, and the
 * check that ties its action markers to the trusted rollback plan.
 */
module CrashJournal {
  import opened Words
  import opened Watchdog

  const MAX_RECORDS := 160
  const MAX_SNAPSHOTS := 16

  datatype Phase = Preparing | Applying | Active | RollingBack | Clean | RecoveryRequired | UnknownPhase(raw: U16)
  datatype FinalResult = NoResult | Clean | Failed | RecoveryRequired | UnknownResult(raw: U16)
  datatype RecordKind =
    | ActivationStarted
    | ActionPrepared
    | ActionApplied
    | ActionVerified
    | ActivationCommitted
    | RollbackStarted
    | ActionRolledBack
    | RollbackVerified
    | CleanStop
    | FailureRecorded
    | RecoveryRequired
    | UnknownKind(raw: U16)

  datatype Record = Record(sequence: U64, kind: RecordKind, actionId: U32, generation: U64)
  datatype Snapshot = Snapshot(snapshotId: U64, sha256: Hash256, generation: U64)

  datatype State = State(
    sessionId: SessionId,
    planHash: Hash256,
    runtimeGeneration: U64,
    lease: Lease,
    phase: Phase,
    finalResult: FinalResult,
    records: seq<Record>,
    snapshots: seq<Snapshot>)

  datatype Progress = Prepared | Applied | Verified | RolledBack

  predicate IsActionKind(k: RecordKind) {
    k.ActionPrepared? || k.ActionApplied? || k.ActionVerified? || k.ActionRolledBack?
  }

  predicate IsTerminalKind(k: RecordKind) {
    k.CleanStop? || k.FailureRecorded? || k.RecoveryRequired?
  }

  // ---------------------------------------------------------------- replay

  /** What the replay loop carries from one record to the next. */
  datatype Replay = Replay(phase: Phase, result: FinalResult, actions: map<U32, Progress>, rollbackVerified: bool)

  const START := Replay(Phase.Preparing, NoResult, map[], false)

  predicate AllProgress(actions: map<U32, Progress>, p: Progress) {
    forall id :: id in actions ==> actions[id] == p
  }

  /** Effect of the record at position `index`, or None where the replay loop rejects it. */
  function Step(m: Replay, index: nat, r: Record): Option<Replay> {
    if r.sequence != index + 1 || r.generation == 0 || r.kind.UnknownKind? then None
    else if IsActionKind(r.kind) != (r.actionId != 0) then None
    else if m.phase.Clean? || m.phase.RecoveryRequired? then None
    else
      var activating := m.phase.Preparing? || m.phase.Applying?;
      match r.kind
      case ActivationStarted =>
        if index != 0 then None else Some(m.(phase := Phase.Preparing))
      case ActionPrepared =>
        if !activating || r.actionId in m.actions then None
        else Some(m.(actions := m.actions[r.actionId := Prepared]))
      case ActionApplied =>
        if !activating || r.actionId !in m.actions || m.actions[r.actionId] != Prepared then None
        else Some(m.(phase := Phase.Applying, actions := m.actions[r.actionId := Applied]))
      case ActionVerified =>
        if !m.phase.Applying? || r.actionId !in m.actions || m.actions[r.actionId] != Applied then None
        else Some(m.(actions := m.actions[r.actionId := Verified]))
      case ActivationCommitted =>
        if !activating || !AllProgress(m.actions, Verified) then None
        else Some(m.(phase := Phase.Active))
      case RollbackStarted =>
        if !activating && !m.phase.Active? then None
        else Some(m.(phase := Phase.RollingBack, rollbackVerified := false))
      case ActionRolledBack =>
        if !m.phase.RollingBack? || r.actionId !in m.actions || m.actions[r.actionId] == RolledBack then None
        else Some(m.(actions := m.actions[r.actionId := RolledBack]))
      case RollbackVerified =>
        if !m.phase.RollingBack? || !AllProgress(m.actions, RolledBack) then None
        else Some(m.(rollbackVerified := true))
      case CleanStop =>
        if !m.phase.RollingBack? || !m.rollbackVerified then None
        else Some(m.(phase := Phase.Clean, result := FinalResult.Clean))
      case FailureRecorded =>
        Some(m.(phase := Phase.RecoveryRequired, result := FinalResult.Failed))
      case RecoveryRequired =>
        Some(m.(phase := Phase.RecoveryRequired, result := FinalResult.RecoveryRequired))
  }

  function Replayed(records: seq<Record>): Option<Replay> {
    if |records| == 0 then Some(START)
    else
      var before := Replayed(records[..|records| - 1]);
      if before.None? then None
      else Step(before.value, |records| - 1, records[|records| - 1])
  }

  predicate Derivable(records: seq<Record>) {
    0 < |records| <= MAX_RECORDS && Replayed(records).Some?
  }

  lemma {:induction false} ReplayPrefix(records: seq<Record>, n: nat)
    requires n <= |records| && Replayed(records).Some?
    ensures Replayed(records[..n]).Some?
    decreases |records|
  {
    if n < |records| {
      ReplayPrefix(records[..|records| - 1], n);
      assert records[..|records| - 1][..n] == records[..n];
    } else {
      assert records[..n] == records;
    }
  }

  /** Replay resumed after the first `at` records. */
  function Resumed(m: Option<Replay>, at: nat, rest: seq<Record>): Option<Replay>
    decreases |rest|
  {
    if |rest| == 0 then m
    else
      var before := Resumed(m, at, rest[..|rest| - 1]);
      if before.None? then None else Step(before.value, at + |rest| - 1, rest[|rest| - 1])
  }

  /** Replay can be cut anywhere: the whole is the prefix's replay resumed over the rest. */
  lemma {:induction false} ReplayResumes(records: seq<Record>, n: nat)
    requires n <= |records|
    ensures Replayed(records) == Resumed(Replayed(records[..n]), n, records[n..])
    decreases |records|
  {
    if n == |records| {
      assert records[..n] == records;
    } else {
      var init := records[..|records| - 1];
      ReplayResumes(init, n);
      assert init[..n] == records[..n];
      assert records[n..][..|records[n..]| - 1] == init[n..];
    }
  }

  /** deriveStateFromRecords: the replay loop over the record vector. */
  method DeriveState(records: seq<Record>) returns (ok: bool, phase: Phase, result: FinalResult)
    ensures ok <==> Derivable(records)
    ensures ok ==> phase == Replayed(records).value.phase && result == Replayed(records).value.result
  {
    phase, result := Phase.Preparing, NoResult;
    if |records| == 0 || |records| > MAX_RECORDS {
      return false, phase, result;
    }
    var actions: map<U32, Progress> := map[];
    var rollbackVerified := false;
    var index := 0;
    while index < |records|
      invariant 0 <= index <= |records|
      invariant Replayed(records[..index]) == Some(Replay(phase, result, actions, rollbackVerified))
    {
      var r := records[index];
      assert records[..index + 1][..index] == records[..index];
      if !Replayed(records[..index + 1]).Some? {
        if Replayed(records).Some? { ReplayPrefix(records, index + 1); }
      }
      if r.sequence != index + 1 || r.generation == 0 || r.kind.UnknownKind? {
        return false, phase, result;
      }
      if IsActionKind(r.kind) != (r.actionId != 0) {
        return false, phase, result;
      }
      if phase.Clean? || phase.RecoveryRequired? {
        return false, phase, result;
      }
      match r.kind {
        case ActivationStarted =>
          if index != 0 || r.actionId != 0 { return false, phase, result; }
          phase := Phase.Preparing;
        case ActionPrepared =>
          if !phase.Preparing? && !phase.Applying? { return false, phase, result; }
          if r.actionId in actions { return false, phase, result; }
          actions := actions[r.actionId := Prepared];
        case ActionApplied =>
          if !phase.Preparing? && !phase.Applying? { return false, phase, result; }
          if r.actionId !in actions || actions[r.actionId] != Prepared { return false, phase, result; }
          actions := actions[r.actionId := Applied];
          phase := Phase.Applying;
        case ActionVerified =>
          if !phase.Applying? { return false, phase, result; }
          if r.actionId !in actions || actions[r.actionId] != Applied { return false, phase, result; }
          actions := actions[r.actionId := Verified];
        case ActivationCommitted =>
          if !phase.Preparing? && !phase.Applying? { return false, phase, result; }
          if exists id :: id in actions && actions[id] != Verified { return false, phase, result; }
          phase := Phase.Active;
        case RollbackStarted =>
          if !phase.Preparing? && !phase.Applying? && !phase.Active? { return false, phase, result; }
          phase := Phase.RollingBack;
          rollbackVerified := false;
        case ActionRolledBack =>
          if !phase.RollingBack? { return false, phase, result; }
          if r.actionId !in actions || actions[r.actionId] == RolledBack { return false, phase, result; }
          actions := actions[r.actionId := RolledBack];
        case RollbackVerified =>
          if !phase.RollingBack? { return false, phase, result; }
          if exists id :: id in actions && actions[id] != RolledBack { return false, phase, result; }
          rollbackVerified := true;
        case CleanStop =>
          if !phase.RollingBack? || !rollbackVerified { return false, phase, result; }
          phase, result := Phase.Clean, FinalResult.Clean;
        case FailureRecorded =>
          phase, result := Phase.RecoveryRequired, FinalResult.Failed;
        case RecoveryRequired =>
          phase, result := Phase.RecoveryRequired, FinalResult.RecoveryRequired;
      }
      index := index + 1;
    }
    assert records[..index] == records;
    return true, phase, result;
  }

  // ---------------------------------------------------------------- whole-state checks

  predicate ValidSnapshot(s: Snapshot) {
    s.snapshotId != 0 && s.generation != 0 && !AllZero(s.sha256)
  }

  predicate DistinctSnapshotIds(snapshots: seq<Snapshot>) {
    forall i, j :: 0 <= i < j < |snapshots| ==> snapshots[i].snapshotId != snapshots[j].snapshotId
  }

  predicate ValidHeader(s: State) {
    && !AllZero(s.sessionId) && !AllZero(s.planHash) && s.runtimeGeneration != 0
    && s.lease.sessionId == s.sessionId
    && s.lease.generation != 0
    && MIN_LEASE_TIMEOUT_MS <= s.lease.timeoutMilliseconds <= MAX_LEASE_TIMEOUT_MS
    && !s.phase.UnknownPhase? && !s.finalResult.UnknownResult?
    && |s.snapshots| <= MAX_SNAPSHOTS
  }

  /** A journal the program accepts: sound header, distinct snapshots, and a stored phase that replay confirms. */
  predicate ValidState(s: State) {
    && ValidHeader(s)
    && (forall i :: 0 <= i < |s.snapshots| ==> ValidSnapshot(s.snapshots[i]))
    && DistinctSnapshotIds(s.snapshots)
    && Derivable(s.records)
    && s.phase == Replayed(s.records).value.phase
    && s.finalResult == Replayed(s.records).value.result
  }

  /** validateCrashJournalState: the snapshot loop over a set of seen ids, then replay. */
  method ValidateState(s: State) returns (ok: bool)
    ensures ok <==> ValidState(s)
  {
    hide ValidSnapshot, ValidHeader;
    if !ValidHeader(s) { return false; }
    var seen: set<U64> := {};
    var i := 0;
    while i < |s.snapshots|
      invariant 0 <= i <= |s.snapshots|
      invariant forall k :: 0 <= k < i ==> ValidSnapshot(s.snapshots[k]) && s.snapshots[k].snapshotId in seen
      invariant forall id :: id in seen ==> exists k :: 0 <= k < i && s.snapshots[k].snapshotId == id
      invariant DistinctSnapshotIds(s.snapshots[..i])
    {
      if !ValidSnapshot(s.snapshots[i]) || s.snapshots[i].snapshotId in seen { return false; }
      seen := seen + {s.snapshots[i].snapshotId};
      i := i + 1;
    }
    assert s.snapshots[..i] == s.snapshots;
    var derived, phase, result := DeriveState(s.records);
    return derived && phase == s.phase && result == s.finalResult;
  }

  /** Every action marker names a planned action with that action's generation. */
  predicate MarkersPlanned(records: seq<Record>, m: Manifest) {
    forall i :: 0 <= i < |records| && IsActionKind(records[i].kind) ==> MarkerPlanned(records[i], m)
  }

  predicate MarkerPlanned(r: Record, m: Manifest) {
    var found := FindAction(m.actions, r.actionId);
    found.Some? && found.value.generation == r.generation
  }

  /** Rollback markers run through strictly falling activation ordinals. */
  predicate ReverseOrder(records: seq<Record>, m: Manifest) {
    forall i, j :: 0 <= i < j < |records| && records[i].kind.ActionRolledBack? && records[j].kind.ActionRolledBack?
      ==> Ordinal(m, records[i].actionId) > Ordinal(m, records[j].actionId)
  }

  /** Ordinal of the latest rollback marker, if there is one. */
  function LastRollbackOrdinal(records: seq<Record>, m: Manifest): Option<U32> {
    if |records| == 0 then None
    else
      var r := records[|records| - 1];
      if r.kind.ActionRolledBack? then Some(Ordinal(m, r.actionId))
      else LastRollbackOrdinal(records[..|records| - 1], m)
  }

  /** In reverse order, the latest rollback marker is the lowest, and one more keeps the order iff it is lower still. */
  lemma {:induction false} LastRollbackIsLowest(records: seq<Record>, m: Manifest)
    requires ReverseOrder(records, m)
    ensures var last := LastRollbackOrdinal(records, m);
      && (last.None? <==> forall i :: 0 <= i < |records| ==> !records[i].kind.ActionRolledBack?)
      && (last.Some? ==>
            && (exists i :: 0 <= i < |records| && records[i].kind.ActionRolledBack?
                            && Ordinal(m, records[i].actionId) == last.value)
            && (forall i :: 0 <= i < |records| && records[i].kind.ActionRolledBack?
                            ==> last.value <= Ordinal(m, records[i].actionId)))
  {
    if |records| > 0 {
      var init := records[..|records| - 1];
      ReverseOrderPrefix(records, |records| - 1, m);
      LastRollbackIsLowest(init, m);
    }
  }

  lemma ReverseOrderPrefix(records: seq<Record>, n: nat, m: Manifest)
    requires n <= |records|
    ensures ReverseOrder(records, m) ==> ReverseOrder(records[..n], m)
  {
    forall i, j | ReverseOrder(records, m) && 0 <= i < j < n && records[i].kind.ActionRolledBack? && records[j].kind.ActionRolledBack?
      ensures Ordinal(m, records[..n][i].actionId) > Ordinal(m, records[..n][j].actionId)
    {
      assert Ordinal(m, records[i].actionId) > Ordinal(m, records[j].actionId);
    }
  }

  lemma ReverseOrderExtend(records: seq<Record>, r: Record, m: Manifest)
    requires ReverseOrder(records, m)
    ensures ReverseOrder(records + [r], m) <==>
      (!r.kind.ActionRolledBack? || LastRollbackOrdinal(records, m).None?
       || Ordinal(m, r.actionId) < LastRollbackOrdinal(records, m).value)
  {
    var all := records + [r];
    LastRollbackIsLowest(records, m);
    var last := LastRollbackOrdinal(records, m);
    if r.kind.ActionRolledBack? && last.Some? && last.value <= Ordinal(m, r.actionId) {
      var i :| 0 <= i < |records| && records[i].kind.ActionRolledBack? && Ordinal(m, records[i].actionId) == last.value;
      assert all[i] == records[i] && all[|records|] == r;
    }
    forall i, j | 0 <= i < j < |all| && all[i].kind.ActionRolledBack? && all[j].kind.ActionRolledBack?
                  && (last.Some? ==> Ordinal(m, r.actionId) < last.value)
      ensures Ordinal(m, all[i].actionId) > Ordinal(m, all[j].actionId)
    {
      if j < |records| {
        assert all[i] == records[i] && all[j] == records[j];
      } else {
        assert all[i] == records[i] && all[j] == r;
      }
    }
  }

  predicate ValidAgainstPlan(s: State, p: Plan) {
    && ValidState(s)
    && ValidManifest(p.manifest)
    && !AllZero(p.digest) && s.planHash == p.digest
    && s.sessionId == p.manifest.lease.sessionId && s.lease == p.manifest.lease
    && MarkersPlanned(s.records, p.manifest)
    && ReverseOrder(s.records, p.manifest)
  }

  /** validateCrashJournalAgainstPlan: one pass that remembers only the previous rollback ordinal. */
  method ValidateAgainstPlan(s: State, p: Plan) returns (ok: bool)
    ensures ok <==> ValidAgainstPlan(s, p)
  {
    var valid := ValidateState(s);
    if !valid { return false; }
    if !ValidManifest(p.manifest) { return false; }
    if AllZero(p.digest) || s.planHash != p.digest { return false; }
    if s.sessionId != p.manifest.lease.sessionId || s.lease != p.manifest.lease { return false; }
    var m := p.manifest;
    var previous: Option<U32> := None;
    var i := 0;
    while i < |s.records|
      invariant 0 <= i <= |s.records|
      invariant forall k :: 0 <= k < i && IsActionKind(s.records[k].kind) ==> MarkerPlanned(s.records[k], m)
      invariant ReverseOrder(s.records[..i], m)
      invariant previous == LastRollbackOrdinal(s.records[..i], m)
    {
      var r := s.records[i];
      ReverseOrderExtend(s.records[..i], r, m);
      assert s.records[..i + 1] == s.records[..i] + [r];
      if IsActionKind(r.kind) {
        var action := FindAction(m.actions, r.actionId);
        if action.None? || action.value.generation != r.generation {
          assert !MarkerPlanned(s.records[i], m);
          return false;
        }
        if r.kind.ActionRolledBack? {
          if previous.Some? && action.value.activationOrdinal >= previous.value {
            ReverseOrderPrefix(s.records, i + 1, m);
            return false;
          }
          previous := Some(action.value.activationOrdinal);
        }
      }
      i := i + 1;
    }
    assert s.records[..i] == s.records;
    return true;
  }

  // ---------------------------------------------------------------- building journals

  function InitialState(p: Plan, runtimeGeneration: U64, snapshots: seq<Snapshot>): State {
    State(p.manifest.lease.sessionId, p.digest, runtimeGeneration, p.manifest.lease, Phase.Preparing, NoResult,
          [Record(1, ActivationStarted, 0, runtimeGeneration)], snapshots)
  }

  /** makeInitialCrashJournal */
  method MakeInitial(p: Plan, runtimeGeneration: U64, snapshots: seq<Snapshot>) returns (initial: Option<State>)
    ensures initial.Some? ==> initial.value == InitialState(p, runtimeGeneration, snapshots)
                              && ValidAgainstPlan(initial.value, p)
    ensures initial.Some? <==>
              && ValidManifest(p.manifest) && runtimeGeneration != 0 && !AllZero(p.digest)
              && |snapshots| <= MAX_SNAPSHOTS
              && (forall i :: 0 <= i < |snapshots| ==> ValidSnapshot(snapshots[i]))
              && DistinctSnapshotIds(snapshots)
  {
    if !ValidManifest(p.manifest) || runtimeGeneration == 0 || |snapshots| > MAX_SNAPSHOTS { return None; }
    if AllZero(p.digest) { return None; }
    var state := InitialState(p, runtimeGeneration, snapshots);
    var valid := ValidateAgainstPlan(state, p);
    if runtimeGeneration != 0 {
      assert state.records[..0] == [];
      assert Replayed(state.records) == Step(START, 0, state.records[0]);
    }
    return if valid then Some(state) else None;
  }

  /** The state with one more record and the phase that replay of the longer list gives, unchecked. */
  function Extended(s: State, r: Record): State
    requires Derivable(s.records + [r])
  {
    var m := Replayed(s.records + [r]).value;
    s.(records := s.records + [r], phase := m.phase, finalResult := m.result)
  }

  predicate AppendArgumentsValid(s: State, p: Plan, kind: RecordKind, actionId: U32, generation: U64) {
    && !kind.UnknownKind? && generation != 0 && |s.records| < MAX_RECORDS
    && (if IsActionKind(kind)
        then MarkerPlanned(Record(0, kind, actionId, generation), p.manifest)
        else actionId == 0 && generation == s.runtimeGeneration)
  }

  /** The journal appendCrashJournalRecord leaves behind, or None where it refuses the marker. */
  function Appended(s: State, p: Plan, kind: RecordKind, actionId: U32, generation: U64): Option<State> {
    if !AppendArgumentsValid(s, p, kind, actionId, generation) then None
    else
      var r := Record(|s.records| + 1, kind, actionId, generation);
      if !Derivable(s.records + [r]) || !ValidAgainstPlan(Extended(s, r), p) then None
      else Some(Extended(s, r))
  }

  /** appendCrashJournalRecord: build the candidate, replay it, check it against the plan. */
  method AppendRecord(s: State, p: Plan, kind: RecordKind, actionId: U32, generation: U64)
    returns (ok: bool, next: State)
    ensures ok <==> Appended(s, p, kind, actionId, generation).Some?
    ensures next == if ok then Appended(s, p, kind, actionId, generation).value else s
  {
    next := s;
    if kind.UnknownKind? || generation == 0 || |s.records| >= MAX_RECORDS { return false, s; }
    if IsActionKind(kind) {
      var action := FindAction(p.manifest.actions, actionId);
      if action.None? || action.value.generation != generation { return false, s; }
    } else if actionId != 0 || generation != s.runtimeGeneration {
      return false, s;
    }
    var records := s.records + [Record(|s.records| + 1, kind, actionId, generation)];
    var derived, phase, result := DeriveState(records);
    if !derived { return false, s; }
    var candidate := s.(records := records, phase := phase, finalResult := result);
    var valid := ValidateAgainstPlan(candidate, p);
    if !valid { return false, s; }
    return true, candidate;
  }
}
