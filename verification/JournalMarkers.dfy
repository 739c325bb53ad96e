/**
 * When a marker may be written, said of the markers written before it and of nothing else; and the run of appends that
 * completes an activation.
 */
module JournalMarkers {
  import opened Words
  import opened Watchdog
  import opened CrashJournal
  import opened JournalHistory
  import opened Recoverability

  predicate Written(records: seq<Record>, k: RecordKind) {
    Ids(records, k) != []
  }

  /** A marker that ends the journal. */
  predicate Ended(records: seq<Record>) {
    Written(records, CleanStop) || Written(records, FailureRecorded) || Written(records, RecordKind.RecoveryRequired)
  }

  /** The activation is neither committed nor being undone. */
  predicate Activating(records: seq<Record>) {
    !Ended(records) && !Written(records, ActivationCommitted) && !Written(records, RollbackStarted)
  }

  /** Every id with a marker of the one kind has one of the other kind too. */
  predicate All(records: seq<Record>, some: RecordKind, other: RecordKind) {
    forall id :: id in Ids(records, some) ==> id in Ids(records, other)
  }

  /** The record may come next after these. */
  predicate MayFollow(before: seq<Record>, r: Record) {
    var id := r.actionId;
    && r.sequence == |before| + 1 && r.generation != 0 && !Ended(before)
    && match r.kind
       case ActivationStarted => id == 0 && before == []
       case ActionPrepared => id != 0 && Activating(before) && id !in Ids(before, ActionPrepared)
       case ActionApplied =>
         id != 0 && Activating(before) && id in Ids(before, ActionPrepared) && id !in Ids(before, ActionApplied)
       case ActionVerified =>
         id != 0 && Activating(before) && id in Ids(before, ActionApplied) && id !in Ids(before, ActionVerified)
       case ActivationCommitted => id == 0 && Activating(before) && All(before, ActionPrepared, ActionVerified)
       case RollbackStarted => id == 0 && !Written(before, RollbackStarted)
       case ActionRolledBack =>
         && id != 0 && Written(before, RollbackStarted)
         && id in Ids(before, ActionPrepared) && id !in Ids(before, ActionRolledBack)
       case RollbackVerified =>
         id == 0 && Written(before, RollbackStarted) && All(before, ActionPrepared, ActionRolledBack)
       case CleanStop => id == 0 && Written(before, RollbackVerified)
       case FailureRecorded => id == 0
       case RecoveryRequired => id == 0
       case UnknownKind(_) => false
  }

  /** The phase that the markers written so far amount to. */
  function PhaseFrom(records: seq<Record>): Phase {
    if Written(records, CleanStop) then Phase.Clean
    else if Written(records, FailureRecorded) || Written(records, RecordKind.RecoveryRequired) then Phase.RecoveryRequired
    else if Written(records, RollbackStarted) then Phase.RollingBack
    else if Written(records, ActivationCommitted) then Phase.Active
    else if Written(records, ActionApplied) then Phase.Applying
    else Phase.Preparing
  }

  function ResultFrom(records: seq<Record>): FinalResult {
    if Written(records, CleanStop) then FinalResult.Clean
    else if Written(records, FailureRecorded) then FinalResult.Failed
    else if Written(records, RecordKind.RecoveryRequired) then FinalResult.RecoveryRequired
    else NoResult
  }

  // ---------------------------------------------------------------- replay, by its markers

  /** What the replay map and its flags say is what the markers say. */
  ghost predicate Knows(m: Replay, records: seq<Record>) {
    && TracksRecords(m, records)
    && m.phase == PhaseFrom(records) && m.result == ResultFrom(records)
    && (m.rollbackVerified <==> Written(records, RollbackVerified))
    && (Written(records, RollbackVerified) || Written(records, ActionRolledBack) ==> Written(records, RollbackStarted))
  }

  lemma {:induction false} ReplayKnows(records: seq<Record>)
    requires Replayed(records).Some?
    ensures Knows(Replayed(records).value, records)
  {
    hide Ids, Step, Knows;
    if |records| == 0 {
      NothingKnown(records);
    } else {
      var init := records[..|records| - 1];
      ReplayKnows(init);
      KnowsNext(Replayed(init).value, init, records[|init|]);
      assert records == init + [records[|init|]];
    }
  }

  lemma NothingKnown(records: seq<Record>)
    requires records == []
    ensures Knows(START, records)
  {
  }

  lemma IdsNext(before: seq<Record>, r: Record, k: RecordKind)
    ensures Ids(before + [r], k) == if r.kind == k then Ids(before, k) + [r.actionId] else Ids(before, k)
  {
    assert (before + [r])[..|before|] == before;
  }

  lemma NothingWritten(k: RecordKind)
    ensures Ids([], k) == []
  {
  }

  lemma TracksNext(m: Replay, before: seq<Record>, r: Record)
    requires TracksRecords(m, before) && Step(m, |before|, r).Some?
    ensures TracksRecords(Step(m, |before|, r).value, before + [r])
  {
    hide Ids, Tracks, Step;
    IdsNext(before, r, ActionPrepared);
    IdsNext(before, r, ActionApplied);
    IdsNext(before, r, ActionVerified);
    IdsNext(before, r, ActionRolledBack);
    TrackStep(m, |before|, r, Ids(before, ActionPrepared), Ids(before, ActionApplied), Ids(before, ActionVerified),
              Ids(before, ActionRolledBack));
  }

  lemma KnowsNext(m: Replay, before: seq<Record>, r: Record)
    requires Knows(m, before) && Step(m, |before|, r).Some?
    ensures Knows(Step(m, |before|, r).value, before + [r])
  {
    hide Ids, TracksRecords, AllProgress;
    forall k ensures Ids(before + [r], k) == if r.kind == k then Ids(before, k) + [r.actionId] else Ids(before, k) {
      IdsNext(before, r, k);
    }
    if before == [] {
      forall k ensures Ids(before, k) == [] { NothingWritten(k); }
    }
    TracksNext(m, before, r);
  }

  lemma ProgressAll(m: Replay, records: seq<Record>)
    requires Knows(m, records)
    ensures AllProgress(m.actions, RolledBack) <==> All(records, ActionPrepared, ActionRolledBack)
    ensures !Written(records, ActionRolledBack) ==>
      (AllProgress(m.actions, Verified) <==> All(records, ActionPrepared, ActionVerified))
  {
    hide Ids;
  }

  /** One replay step accepts a record exactly when it may come next. */
  lemma StepExactly(m: Replay, before: seq<Record>, r: Record)
    requires Knows(m, before)
    ensures Step(m, |before|, r).Some? <==> MayFollow(before, r)
  {
    hide Ids, NoDuplicates, AllProgress, All;
    ProgressAll(m, before);
  }

  /**
   * Replay accepts a record list exactly when every record may follow those before it, and derives the phase and the
   * result that the markers amount to.
   */
  lemma {:induction false} ReplayExactly(records: seq<Record>)
    ensures Replayed(records).Some? <==> forall i :: 0 <= i < |records| ==> MayFollow(records[..i], records[i])
    ensures Replayed(records).Some? ==>
      Replayed(records).value.phase == PhaseFrom(records) && Replayed(records).value.result == ResultFrom(records)
  {
    hide Step, MayFollow, PhaseFrom, ResultFrom;
    if |records| == 0 {
      ReplayKnows(records);
    } else {
      var init, last := records[..|records| - 1], records[|records| - 1];
      ReplayExactly(init);
      if Replayed(init).Some? {
        ReplayKnows(init);
        StepExactly(Replayed(init).value, init, last);
      }
      forall i | 0 <= i < |init| ensures records[..i] == init[..i] && records[i] == init[i] {}
      if Replayed(records).Some? { ReplayKnows(records); }
    }
  }

  // ---------------------------------------------------------------- append, by its markers

  predicate OfAction(kind: RecordKind) {
    kind == ActionPrepared || kind == ActionApplied || kind == ActionVerified || kind == ActionRolledBack
  }

  /** The generation a marker must carry: its planned action's, or the session's. */
  ghost predicate Carries(s: State, p: Plan, kind: RecordKind, actionId: U32, generation: U64) {
    if OfAction(kind) then
      exists a :: a in p.manifest.actions && a.actionId == actionId && a.generation == generation
    else generation == s.runtimeGeneration
  }

  lemma CarriesPlanned(s: State, p: Plan, kind: RecordKind, actionId: U32, generation: U64)
    requires ValidManifest(p.manifest) && IsActionKind(kind)
    ensures Carries(s, p, kind, actionId, generation) <==>
      MarkerPlanned(Record(0, kind, actionId, generation), p.manifest)
  {
    hide ActionShapeValid;
    if Carries(s, p, kind, actionId, generation) {
      var a :| a in p.manifest.actions && a.actionId == actionId && a.generation == generation;
      var found := FindAction(p.manifest.actions, actionId).value;
      var i :| 0 <= i < |p.manifest.actions| && p.manifest.actions[i] == a;
      var j :| 0 <= j < |p.manifest.actions| && p.manifest.actions[j] == found;
    }
  }

  lemma LowerThanAll(records: seq<Record>, m: Manifest, actionId: U32)
    requires ReverseOrder(records, m)
    ensures var last := LastRollbackOrdinal(records, m);
      (last.None? || Ordinal(m, actionId) < last.value) <==>
      forall id :: id in Ids(records, ActionRolledBack) ==> Ordinal(m, actionId) < Ordinal(m, id)
  {
    hide Ids, Ordinal, LastRollbackOrdinal, ReverseOrder;
    LastRollbackIsLowest(records, m);
    var last := LastRollbackOrdinal(records, m);
    forall id ensures id in Ids(records, ActionRolledBack) <==>
                      exists i :: 0 <= i < |records| && records[i].kind == ActionRolledBack && records[i].actionId == id {
      IdsMember(records, ActionRolledBack, id);
    }
    if last.Some? {
      var i :| 0 <= i < |records| && records[i].kind.ActionRolledBack? && Ordinal(m, records[i].actionId) == last.value;
      assert records[i].actionId in Ids(records, ActionRolledBack);
    }
  }

  /** A marker can be appended exactly when there is room, its generation is right, it may come next, and a rollback
      goes below every rollback before it. */
  lemma AppendExactly(s: State, p: Plan, kind: RecordKind, actionId: U32, generation: U64)
    requires ValidAgainstPlan(s, p)
    ensures Appended(s, p, kind, actionId, generation).Some? <==>
      && |s.records| < MAX_RECORDS && Carries(s, p, kind, actionId, generation)
      && MayFollow(s.records, Record(|s.records| + 1, kind, actionId, generation))
      && (kind.ActionRolledBack? ==>
            forall id :: id in Ids(s.records, ActionRolledBack) ==> Ordinal(p.manifest, actionId) < Ordinal(p.manifest, id))
  {
    hide Ids, Step, Replayed, MayFollow, ReverseOrder, MarkersPlanned, LastRollbackOrdinal, PhaseFrom, ResultFrom;
    var r := Record(|s.records| + 1, kind, actionId, generation);
    ReplayKnows(s.records);
    StepExactly(Replayed(s.records).value, s.records, r);
    LowerThanAll(s.records, p.manifest, actionId);
    if MayFollow(s.records, r) { FollowShape(s.records, r); }
    if IsActionKind(kind) { CarriesPlanned(s, p, kind, actionId, generation); }
    if AppendArgumentsValid(s, p, kind, actionId, generation) {
      AppendAgreesWithReplay(s, p, kind, actionId, generation);
    }
  }

  lemma FollowShape(before: seq<Record>, r: Record)
    requires MayFollow(before, r)
    ensures !r.kind.UnknownKind? && r.generation != 0
    ensures !(r.kind.ActionPrepared? || r.kind.ActionApplied? || r.kind.ActionVerified? || r.kind.ActionRolledBack?) ==>
      r.actionId == 0
  {
    hide Ids;
  }

  // ---------------------------------------------------------------- what an accepted journal is

  ghost predicate InOrder(records: seq<Record>) {
    forall i :: 0 <= i < |records| ==> MayFollow(records[..i], records[i])
  }

  /** The header and the snapshots, field by field. */
  ghost predicate Headed(s: State) {
    && (exists i :: 0 <= i < |s.sessionId| && s.sessionId[i] != 0)
    && (exists i :: 0 <= i < |s.planHash| && s.planHash[i] != 0)
    && s.runtimeGeneration > 0 && s.lease.sessionId == s.sessionId && s.lease.generation > 0
    && 100 <= s.lease.timeoutMilliseconds <= 60_000
    && |s.snapshots| <= 16
    && (forall x :: x in s.snapshots ==>
          x.snapshotId > 0 && x.generation > 0 && exists i :: 0 <= i < |x.sha256| && x.sha256[i] != 0)
    && (forall i, j :: 0 <= i < |s.snapshots| && 0 <= j < |s.snapshots| && s.snapshots[i].snapshotId == s.snapshots[j].snapshotId
                       ==> i == j)
  }

  lemma HeadedExactly(s: State)
    ensures Headed(s) && !s.phase.UnknownPhase? && !s.finalResult.UnknownResult? <==>
      && ValidHeader(s) && DistinctSnapshotIds(s.snapshots)
      && forall i :: 0 <= i < |s.snapshots| ==> ValidSnapshot(s.snapshots[i])
  {
    if Headed(s) {
      assert forall i :: 0 <= i < |s.snapshots| ==> s.snapshots[i] in s.snapshots;
    }
  }

  /** Everything the program asks of a journal before it trusts it. */
  lemma AcceptedExactly(s: State)
    ensures ValidState(s) <==>
      && Headed(s) && 1 <= |s.records| <= 160 && InOrder(s.records)
      && s.phase == PhaseFrom(s.records) && s.finalResult == ResultFrom(s.records)
  {
    hide Headed, ValidHeader, DistinctSnapshotIds, ValidSnapshot, MayFollow, Replayed;
    HeadedExactly(s);
    ReplayExactly(s.records);
    assert !PhaseFrom(s.records).UnknownPhase? && !ResultFrom(s.records).UnknownResult?;
  }

  /** What the plan adds: the same session and lease, planned actions under their generations, undone downwards. */
  lemma AcceptedForPlanExactly(s: State, p: Plan)
    ensures ValidAgainstPlan(s, p) <==>
      && ValidState(s) && ValidManifest(p.manifest) && s.planHash == p.digest && s.lease == p.manifest.lease
      && (forall r :: r in s.records && OfAction(r.kind) ==> Carries(s, p, r.kind, r.actionId, r.generation))
      && (forall i, j :: 0 <= i < j < |s.records| && s.records[i].kind == ActionRolledBack && s.records[j].kind == ActionRolledBack
                         ==> Ordinal(p.manifest, s.records[j].actionId) < Ordinal(p.manifest, s.records[i].actionId))
  {
    hide DistinctSnapshotIds, ValidSnapshot, Derivable, Ordinal, Carries;
    if ValidManifest(p.manifest) {
      hide ValidManifest;
      forall r | r in s.records && IsActionKind(r.kind)
        ensures Carries(s, p, r.kind, r.actionId, r.generation) <==> MarkerPlanned(r, p.manifest)
      {
        CarriesPlanned(s, p, r.kind, r.actionId, r.generation);
        assert MarkerPlanned(Record(0, r.kind, r.actionId, r.generation), p.manifest) <==> MarkerPlanned(r, p.manifest);
      }
      assert forall i :: 0 <= i < |s.records| ==> s.records[i] in s.records;
    }
  }

  // ---------------------------------------------------------------- the way to active

  ghost predicate CanReachActive(s: State, p: Plan) {
    exists markers :: Run(s, p, markers).Some? && Run(s, p, markers).value.phase.Active?
  }

  /** Markers still missing before the activation can be committed. */
  ghost function Missing(records: seq<Record>): int {
    2 * |Ids(records, ActionPrepared)| - |Ids(records, ActionApplied)| - |Ids(records, ActionVerified)|
  }

  lemma MissingBounds(records: seq<Record>)
    requires Replayed(records).Some?
    ensures |Ids(records, ActionVerified)| <= |Ids(records, ActionApplied)| <= |Ids(records, ActionPrepared)|
    ensures forall id :: id in Ids(records, ActionVerified) ==> id in Ids(records, ActionApplied)
  {
    hide Ids, Replayed;
    ReplayTracks(records);
    SubsetCount(Ids(records, ActionVerified), Ids(records, ActionApplied));
    SubsetCount(Ids(records, ActionApplied), Ids(records, ActionPrepared));
  }

  lemma SubsetCount(some: seq<U32>, all: seq<U32>)
    requires NoDuplicates(some) && NoDuplicates(all) && forall id :: id in some ==> id in all
    ensures |some| <= |all|
  {
    DistinctCount(all);
    NoDuplicatesBound(some, Elements(all));
  }

  /** The plan bounds what an activation writes. */
  lemma ActivationFits(s: State, p: Plan)
    requires ValidAgainstPlan(s, p) && Activating(s.records)
    ensures |s.records| + Missing(s.records) + 1 <= 3 * MAX_ROLLBACK_ACTIONS + 2 < MAX_RECORDS
  {
    hide Ids, Replayed;
    ReplayKnows(s.records);
    NoTerminalMarkers(s.records);
    RecordCount(s.records);
    ReplaySessionMarkers(s.records);
    MarkersBound(s, p, ActionPrepared);
    PlannedIdsBound(p.manifest.actions);
    assert |PlannedIds(p.manifest)| <= MAX_ROLLBACK_ACTIONS;
  }

  /** The next marker an unfinished action needs, and what appending it leaves missing. */
  lemma NextForAction(s: State, p: Plan, id: U32) returns (mark: Marker, next: State)
    requires ValidAgainstPlan(s, p) && Activating(s.records) && |s.records| < MAX_RECORDS
    requires id in Ids(s.records, ActionPrepared) && id !in Ids(s.records, ActionVerified)
    ensures Appended(s, p, mark.kind, mark.actionId, mark.generation) == Some(next)
    ensures ValidAgainstPlan(next, p) && Activating(next.records) && |next.records| == |s.records| + 1
    ensures Missing(next.records) == Missing(s.records) - 1
  {
    hide Ids, Replayed, ReverseOrder, MarkersPlanned, ValidState, Ordinal;
    PreparedIsPlanned(s, p, id);
    var action := FindAction(p.manifest.actions, id).value;
    var kind := if id in Ids(s.records, ActionApplied) then ActionVerified else ActionApplied;
    mark := Marker(kind, id, action.generation);
    PlannedGeneration(p.manifest, id);
    AppendExactly(s, p, kind, id, action.generation);
    next := Appended(s, p, kind, id, action.generation).value;
    var r := Record(|s.records| + 1, kind, id, action.generation);
    forall k ensures Ids(next.records, k) == if r.kind == k then Ids(s.records, k) + [id] else Ids(s.records, k) {
      IdsNext(s.records, r, k);
    }
  }

  lemma PreparedIsPlanned(s: State, p: Plan, id: U32)
    requires ValidAgainstPlan(s, p) && id in Ids(s.records, ActionPrepared)
    ensures FindAction(p.manifest.actions, id).Some? && id != 0
  {
    IdsMember(s.records, ActionPrepared, id);
    var i :| 0 <= i < |s.records| && s.records[i].kind.ActionPrepared? && s.records[i].actionId == id;
    assert MarkerPlanned(s.records[i], p.manifest);
  }

  lemma PlannedGeneration(m: Manifest, id: U32)
    requires ValidManifest(m) && FindAction(m.actions, id).Some?
    ensures FindAction(m.actions, id).value.generation != 0
  {
    var i :| 0 <= i < |m.actions| && m.actions[i] == FindAction(m.actions, id).value;
  }

  /** Apply and verify whatever is prepared, then commit. */
  lemma {:induction false} FinishActivation(s: State, p: Plan) returns (markers: seq<Marker>)
    requires ValidAgainstPlan(s, p) && Activating(s.records) && |s.records| + Missing(s.records) + 1 <= MAX_RECORDS
    ensures Run(s, p, markers).Some? && Run(s, p, markers).value.phase.Active?
    decreases Missing(s.records)
  {
    hide ValidState, Ids, Appended, Replayed, ReverseOrder, MarkersPlanned;
    assert Replayed(s.records).Some? by { ValidReplays(s); }
    MissingBounds(s.records);
    if All(s.records, ActionPrepared, ActionVerified) {
      markers := Commit(s, p);
    } else {
      var id :| id in Ids(s.records, ActionPrepared) && id !in Ids(s.records, ActionVerified);
      var mark, next := NextForAction(s, p, id);
      assert Replayed(next.records).Some? by { ValidReplays(next); }
      MissingBounds(next.records);
      var rest := FinishActivation(next, p);
      markers := [mark] + rest;
      assert markers[1..] == rest;
    }
  }

  lemma ValidReplays(s: State)
    requires ValidState(s)
    ensures Replayed(s.records).Some?
  {
  }

  lemma Commit(s: State, p: Plan) returns (markers: seq<Marker>)
    requires ValidAgainstPlan(s, p) && Activating(s.records) && |s.records| < MAX_RECORDS
    requires All(s.records, ActionPrepared, ActionVerified)
    ensures Run(s, p, markers).Some? && Run(s, p, markers).value.phase.Active?
  {
    hide Ids, Replayed, ReverseOrder, MarkersPlanned, Ordinal, All;
    AppendExactly(s, p, ActivationCommitted, 0, s.runtimeGeneration);
    var active := Appended(s, p, ActivationCommitted, 0, s.runtimeGeneration).value;
    var r := Record(|s.records| + 1, ActivationCommitted, 0, s.runtimeGeneration);
    forall k ensures Ids(active.records, k) == if r.kind == k then Ids(s.records, k) + [0] else Ids(s.records, k) {
      IdsNext(s.records, r, k);
    }
    ReplayKnows(active.records);
    markers := [Marker(ActivationCommitted, 0, s.runtimeGeneration)];
    assert Run(active, p, markers[1..]) == Some(active);
  }

  /** Activation can be completed from exactly the journals whose activation is under way or complete. */
  lemma ActiveReachableExactly(s: State, p: Plan)
    requires ValidAgainstPlan(s, p)
    ensures CanReachActive(s, p) <==> s.phase.Preparing? || s.phase.Applying? || s.phase.Active?
  {
    hide Ids, Replayed, ReverseOrder, MarkersPlanned, Appended;
    ReplayKnows(s.records);
    if s.phase.Active? {
      assert Run(s, p, []) == Some(s);
    } else if s.phase.Preparing? || s.phase.Applying? {
      ActivationFits(s, p);
      var markers := FinishActivation(s, p);
    } else {
      forall markers ensures !(Run(s, p, markers).Some? && Run(s, p, markers).value.phase.Active?) {
        NeverActive(s, p, markers);
      }
    }
  }

  /** Once a rollback has started or the journal has ended, no run commits. */
  lemma {:induction false} NeverActive(s: State, p: Plan, markers: seq<Marker>)
    requires ValidAgainstPlan(s, p) && (Written(s.records, RollbackStarted) || Ended(s.records))
    ensures Run(s, p, markers).Some? ==> !Run(s, p, markers).value.phase.Active?
    decreases |markers|
  {
    hide Ids, Replayed, ReverseOrder, MarkersPlanned, Ordinal;
    ReplayKnows(s.records);
    if |markers| > 0 {
      var mark := markers[0];
      var next := Appended(s, p, mark.kind, mark.actionId, mark.generation);
      if next.Some? {
        var r := Record(|s.records| + 1, mark.kind, mark.actionId, mark.generation);
        forall k ensures Ids(next.value.records, k) == if r.kind == k then Ids(s.records, k) + [r.actionId] else Ids(s.records, k) {
          IdsNext(s.records, r, k);
        }
        NeverActive(next.value, p, markers[1..]);
      }
    }
  }
}
