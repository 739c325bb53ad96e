/** From which journals appends can still reach the clean phase: exactly, and with an explicit way there. */
module Recoverability {
  import opened Words
  import opened Watchdog
  import opened CrashJournal
  import opened JournalHistory

  /** One call of appendCrashJournalRecord. */
  datatype Marker = Marker(kind: RecordKind, actionId: U32, generation: U64)

  function Run(s: State, p: Plan, markers: seq<Marker>): Option<State>
    decreases |markers|
  {
    if |markers| == 0 then Some(s)
    else
      var next := Appended(s, p, markers[0].kind, markers[0].actionId, markers[0].generation);
      if next.None? then None else Run(next.value, p, markers[1..])
  }

  ghost predicate CanReachClean(s: State, p: Plan) {
    exists markers :: Run(s, p, markers).Some? && Run(s, p, markers).value.phase.Clean?
  }

  /** Actions prepared and not yet rolled back. */
  function Outstanding(records: seq<Record>): set<U32> {
    Elements(Ids(records, ActionPrepared)) - Elements(Ids(records, ActionRolledBack))
  }

  /** Some outstanding action was activated after the action rolled back last. */
  predicate OutOfOrder(records: seq<Record>, m: Manifest) {
    var last := LastRollbackOrdinal(records, m);
    last.Some? && exists id :: id in Outstanding(records) && Ordinal(m, id) > last.value
  }

  predicate RollbackIsVerified(records: seq<Record>) {
    |Ids(records, RollbackVerified)| > 0
  }

  /** Append accepts a marker exactly when one replay step does and a rollback marker continues the descent. */
  lemma AppendAgreesWithReplay(s: State, p: Plan, kind: RecordKind, actionId: U32, generation: U64)
    requires ValidAgainstPlan(s, p) && AppendArgumentsValid(s, p, kind, actionId, generation)
    ensures var r := Record(|s.records| + 1, kind, actionId, generation);
      var next := Appended(s, p, kind, actionId, generation);
      var last := LastRollbackOrdinal(s.records, p.manifest);
      && (next.Some? <==>
            && Step(Replayed(s.records).value, |s.records|, r).Some?
            && (!kind.ActionRolledBack? || last.None? || Ordinal(p.manifest, actionId) < last.value))
      && (next.Some? ==>
            && ValidAgainstPlan(next.value, p)
            && next.value.records == s.records + [r]
            && next.value == s.(records := next.value.records, phase := next.value.phase,
                                finalResult := next.value.finalResult)
            && Replayed(next.value.records) == Step(Replayed(s.records).value, |s.records|, r))
  {
    var r := Record(|s.records| + 1, kind, actionId, generation);
    var all := s.records + [r];
    assert all[..|all| - 1] == s.records;
    assert Replayed(all) == Step(Replayed(s.records).value, |s.records|, r);
    ReverseOrderExtend(s.records, r, p.manifest);
    if IsActionKind(kind) { assert MarkerPlanned(r, p.manifest); }
    assert MarkersPlanned(all, p.manifest);
  }

  lemma OutstandingIsPlanned(s: State, p: Plan, id: U32)
    requires ValidAgainstPlan(s, p) && id in Outstanding(s.records)
    ensures FindAction(p.manifest.actions, id).Some? && id in PlannedIds(p.manifest) && id != 0
    ensures id in Replayed(s.records).value.actions && Replayed(s.records).value.actions[id] != RolledBack
  {
    IdsMember(s.records, ActionPrepared, id);
    var i :| 0 <= i < |s.records| && s.records[i].kind.ActionPrepared? && s.records[i].actionId == id;
    assert MarkerPlanned(s.records[i], p.manifest);
    ReplayTracks(s.records);
  }

  lemma OutstandingFromProgress(records: seq<Record>)
    requires Replayed(records).Some?
    ensures var actions := Replayed(records).value.actions;
      Outstanding(records) == set id | id in actions && actions[id] != RolledBack
  {
    ReplayTracks(records);
  }

  // ---------------------------------------------------------------- capacity

  /**
   * A plan's records fit: until rollback is verified, even the longest possible journal leaves room for
   * every step that a full rollback still needs.
   */
  lemma CapacitySuffices(s: State, p: Plan)
    requires ValidAgainstPlan(s, p) && !s.phase.Clean? && !s.phase.RecoveryRequired?
    requires !RollbackIsVerified(s.records)
    ensures |s.records| + (if s.phase.RollingBack? then 0 else 1) + |Outstanding(s.records)| + 2
      <= 4 * MAX_ROLLBACK_ACTIONS + 5 < MAX_RECORDS
  {
    hide Replayed, Outstanding;
    var records := s.records;
    RecordCount(records);
    NoTerminalMarkers(records);
    ReplaySessionMarkers(records);
    PlannedIdsBound(p.manifest.actions);
    assert |PlannedIds(p.manifest)| <= MAX_ROLLBACK_ACTIONS;
    assert TracksRecords(Replayed(records).value, records) by { ReplayTracks(records); }
    MarkersBound(s, p, ActionPrepared);
    MarkersBound(s, p, ActionApplied);
    MarkersBound(s, p, ActionVerified);
    OutstandingCount(records);
  }

  lemma OutstandingCount(records: seq<Record>)
    requires Replayed(records).Some?
    ensures |Outstanding(records)| + |Ids(records, ActionRolledBack)| == |Ids(records, ActionPrepared)|
  {
    ReplayTracks(records);
    DifferenceCount(Ids(records, ActionPrepared), Ids(records, ActionRolledBack));
  }

  lemma DifferenceCount(all: seq<U32>, some: seq<U32>)
    requires NoDuplicates(all) && NoDuplicates(some) && forall id :: id in some ==> id in all
    ensures |Elements(all) - Elements(some)| + |some| == |all|
  {
    DistinctCount(all);
    DistinctCount(some);
    assert Elements(all) == (Elements(all) - Elements(some)) + Elements(some);
  }

  lemma MarkersBound(s: State, p: Plan, k: RecordKind)
    requires ValidAgainstPlan(s, p) && IsActionKind(k) && NoDuplicates(Ids(s.records, k))
    ensures |Ids(s.records, k)| <= |PlannedIds(p.manifest)|
  {
    forall id | id in Ids(s.records, k) ensures id in PlannedIds(p.manifest) {
      IdsMember(s.records, k, id);
      var i :| 0 <= i < |s.records| && s.records[i].kind == k && s.records[i].actionId == id;
      assert MarkerPlanned(s.records[i], p.manifest);
    }
    NoDuplicatesBound(Ids(s.records, k), PlannedIds(p.manifest));
  }

  // ---------------------------------------------------------------- the way to clean

  /** Rolls one outstanding action back; it must precede every action rolled back before it. */
  lemma UndoOne(s: State, p: Plan, id: U32) returns (mark: Marker, next: State)
    requires ValidAgainstPlan(s, p) && s.phase.RollingBack? && |s.records| < MAX_RECORDS
    requires id in Outstanding(s.records)
    requires LastRollbackOrdinal(s.records, p.manifest).Some? ==>
      Ordinal(p.manifest, id) < LastRollbackOrdinal(s.records, p.manifest).value
    ensures Appended(s, p, mark.kind, mark.actionId, mark.generation) == Some(next)
    ensures ValidAgainstPlan(next, p) && next.phase.RollingBack? && |next.records| == |s.records| + 1
    ensures Outstanding(next.records) == Outstanding(s.records) - {id}
    ensures LastRollbackOrdinal(next.records, p.manifest) == Some(Ordinal(p.manifest, id))
    ensures mark == Marker(ActionRolledBack, id, mark.generation)
  {
    hide Ids, ValidHeader, ValidSnapshot, DistinctSnapshotIds, ReverseOrder, MarkersPlanned;
    OutstandingIsPlanned(s, p, id);
    var generation := FindAction(p.manifest.actions, id).value.generation;
    mark := Marker(ActionRolledBack, id, generation);
    var r := Record(|s.records| + 1, ActionRolledBack, id, generation);
    assert MarkerPlanned(Record(0, ActionRolledBack, id, generation), p.manifest);
    AppendAgreesWithReplay(s, p, ActionRolledBack, id, generation);
    next := Appended(s, p, ActionRolledBack, id, generation).value;
    OutstandingFromProgress(s.records);
    OutstandingFromProgress(next.records);
    assert next.records[..|s.records|] == s.records;
  }

  lemma AppendSessionMarker(s: State, p: Plan, kind: RecordKind) returns (next: State)
    requires ValidAgainstPlan(s, p) && !IsActionKind(kind) && !kind.UnknownKind? && |s.records| < MAX_RECORDS
    requires Step(Replayed(s.records).value, |s.records|, Record(|s.records| + 1, kind, 0, s.runtimeGeneration)).Some?
    ensures Appended(s, p, kind, 0, s.runtimeGeneration) == Some(next)
    ensures ValidAgainstPlan(next, p)
    ensures next.records == s.records + [Record(|s.records| + 1, kind, 0, s.runtimeGeneration)]
    ensures Replayed(next.records) ==
      Step(Replayed(s.records).value, |s.records|, Record(|s.records| + 1, kind, 0, s.runtimeGeneration))
    ensures next.runtimeGeneration == s.runtimeGeneration
    ensures LastRollbackOrdinal(next.records, p.manifest) == LastRollbackOrdinal(s.records, p.manifest)
  {
    AppendAgreesWithReplay(s, p, kind, 0, s.runtimeGeneration);
    next := Appended(s, p, kind, 0, s.runtimeGeneration).value;
    assert next.records[..|s.records|] == s.records;
  }

  /** The outstanding action activated last. */
  lemma {:induction false} Latest(ids: set<U32>, m: Manifest) returns (id: U32)
    requires ids != {}
    ensures id in ids && forall other :: other in ids ==> Ordinal(m, other) <= Ordinal(m, id)
  {
    id :| id in ids;
    var rest := ids - {id};
    if rest != {} {
      var best := Latest(rest, m);
      if Ordinal(m, best) > Ordinal(m, id) { id := best; }
    }
  }

  lemma {:induction false} Finish(s: State, p: Plan) returns (markers: seq<Marker>)
    requires ValidAgainstPlan(s, p) && s.phase.RollingBack? && !OutOfOrder(s.records, p.manifest)
    requires |s.records| + |Outstanding(s.records)| + 2 <= MAX_RECORDS
    ensures Run(s, p, markers).Some? && Run(s, p, markers).value.phase.Clean?
    decreases |Outstanding(s.records)|
  {
    hide ValidState, Ids, Appended;
    var open := Outstanding(s.records);
    if open == {} {
      markers := VerifyAndStop(s, p);
    } else {
      var id := Latest(open, p.manifest);
      LatestContinuesDescent(s, p, id);
      var mark, next := UndoOne(s, p, id);
      assert |open - {id}| == |open| - 1;
      var rest := Finish(next, p);
      markers := [mark] + rest;
      assert markers[1..] == rest;
    }
  }

  lemma VerifyAndStop(s: State, p: Plan) returns (markers: seq<Marker>)
    requires ValidAgainstPlan(s, p) && s.phase.RollingBack? && Outstanding(s.records) == {}
    requires |s.records| + 2 <= MAX_RECORDS
    ensures Run(s, p, markers).Some? && Run(s, p, markers).value.phase.Clean?
  {
    hide Ids, Appended;
    OutstandingFromProgress(s.records);
    var actions := Replayed(s.records).value.actions;
    forall id | id in actions ensures actions[id] == RolledBack {
      assert id !in Outstanding(s.records);
    }
    var verified := AppendSessionMarker(s, p, RollbackVerified);
    var clean := AppendSessionMarker(verified, p, CleanStop);
    var second := [Marker(CleanStop, 0, s.runtimeGeneration)];
    assert Run(clean, p, second[1..]) == Some(clean);
    assert Run(verified, p, second) == Some(clean);
    markers := [Marker(RollbackVerified, 0, s.runtimeGeneration)] + second;
    assert markers[1..] == second;
  }

  lemma LatestContinuesDescent(s: State, p: Plan, id: U32)
    requires ValidAgainstPlan(s, p) && !OutOfOrder(s.records, p.manifest) && id in Outstanding(s.records)
    ensures LastRollbackOrdinal(s.records, p.manifest).Some? ==>
      Ordinal(p.manifest, id) < LastRollbackOrdinal(s.records, p.manifest).value
  {
    var m, last := p.manifest, LastRollbackOrdinal(s.records, p.manifest);
    LastRollbackIsLowest(s.records, m);
    if last.Some? {
      var i :| 0 <= i < |s.records| && s.records[i].kind.ActionRolledBack? && Ordinal(m, s.records[i].actionId) == last.value;
      IdsMember(s.records, ActionRolledBack, s.records[i].actionId);
      assert MarkerPlanned(s.records[i], m);
      OutstandingIsPlanned(s, p, id);
      OrdinalsDistinct(m, id, s.records[i].actionId);
    }
  }

  // ---------------------------------------------------------------- no way to clean

  /** A journal that no append can bring to clean. */
  predicate Hopeless(s: State, m: Manifest) {
    && !s.phase.Clean?
    && (s.phase.RecoveryRequired? || OutOfOrder(s.records, m) || |s.records| >= MAX_RECORDS)
  }

  lemma HopelessStays(s: State, p: Plan, mark: Marker)
    requires ValidAgainstPlan(s, p) && Hopeless(s, p.manifest)
    ensures var next := Appended(s, p, mark.kind, mark.actionId, mark.generation);
      next.Some? ==> ValidAgainstPlan(next.value, p) && Hopeless(next.value, p.manifest)
  {
    hide Replayed, ReverseOrder, MarkersPlanned;
    var after := Appended(s, p, mark.kind, mark.actionId, mark.generation);
    if after.Some? {
      AppendAgreesWithReplay(s, p, mark.kind, mark.actionId, mark.generation);
      OutOfOrderRollsBack(s, p);
      var r := Record(|s.records| + 1, mark.kind, mark.actionId, mark.generation);
      if !mark.kind.FailureRecorded? && !mark.kind.RecoveryRequired? {
        OutOfOrderStays(s.records, r, p.manifest);
      }
    }
  }

  /** Rolling back in order, or verifying, cannot bring a skipped action back into order. */
  lemma OutOfOrderStays(records: seq<Record>, r: Record, m: Manifest)
    requires Replayed(records).Some? && OutOfOrder(records, m) && Replayed(records + [r]).Some?
    requires Replayed(records).value.phase.RollingBack? && !IsTerminalKind(r.kind)
    requires r.kind.ActionRolledBack? ==> Ordinal(m, r.actionId) < LastRollbackOrdinal(records, m).value
    ensures OutOfOrder(records + [r], m)
  {
    var all := records + [r];
    assert all[..|records|] == records;
    OutstandingFromProgress(records);
    OutstandingFromProgress(all);
    var id :| id in Outstanding(records) && Ordinal(m, id) > LastRollbackOrdinal(records, m).value;
    assert id in Outstanding(all);
  }

  /** Only a journal that is rolling back can be out of order. */
  lemma OutOfOrderRollsBack(s: State, p: Plan)
    requires ValidAgainstPlan(s, p) && OutOfOrder(s.records, p.manifest)
    ensures s.phase.RollingBack? || s.phase.RecoveryRequired?
    ensures !Replayed(s.records).value.rollbackVerified
  {
    LastRollbackIsLowest(s.records, p.manifest);
    var i :| 0 <= i < |s.records| && s.records[i].kind.ActionRolledBack?;
    IdsMember(s.records, ActionRolledBack, s.records[i].actionId);
    ReplaySessionMarkers(s.records);
    OutstandingFromProgress(s.records);
  }

  lemma {:induction false} HopelessForever(s: State, p: Plan, markers: seq<Marker>)
    requires ValidAgainstPlan(s, p) && Hopeless(s, p.manifest)
    ensures Run(s, p, markers).Some? ==> !Run(s, p, markers).value.phase.Clean?
    decreases |markers|
  {
    if |markers| > 0 {
      HopelessStays(s, p, markers[0]);
      var next := Appended(s, p, markers[0].kind, markers[0].actionId, markers[0].generation);
      if next.Some? { HopelessForever(next.value, p, markers[1..]); }
    }
  }

  lemma StopAfterVerification(s: State, p: Plan)
    requires ValidAgainstPlan(s, p) && !s.phase.Clean? && !s.phase.RecoveryRequired?
    requires RollbackIsVerified(s.records) && |s.records| < MAX_RECORDS
    ensures CanReachClean(s, p)
  {
    ReplaySessionMarkers(s.records);
    var clean := AppendSessionMarker(s, p, CleanStop);
    var markers := [Marker(CleanStop, 0, s.runtimeGeneration)];
    assert Run(clean, p, markers[1..]) == Some(clean);
    assert Run(s, p, markers) == Some(clean);
  }

  lemma RollBackToClean(s: State, p: Plan)
    requires ValidAgainstPlan(s, p) && !s.phase.Clean? && !s.phase.RecoveryRequired?
    requires !RollbackIsVerified(s.records) && !OutOfOrder(s.records, p.manifest)
    ensures CanReachClean(s, p)
  {
    CapacitySuffices(s, p);
    if s.phase.RollingBack? {
      var markers := Finish(s, p);
    } else {
      ReplaySessionMarkers(s.records);
      var next := AppendSessionMarker(s, p, RollbackStarted);
      OutstandingFromProgress(s.records);
      OutstandingFromProgress(next.records);
      var rest := Finish(next, p);
      var markers := [Marker(RollbackStarted, 0, s.runtimeGeneration)] + rest;
      assert markers[1..] == rest;
      assert Run(s, p, markers) == Run(next, p, rest);
    }
  }

  lemma NoWayToClean(s: State, p: Plan)
    requires ValidAgainstPlan(s, p) && Hopeless(s, p.manifest)
    ensures !CanReachClean(s, p)
  {
    forall markers ensures !(Run(s, p, markers).Some? && Run(s, p, markers).value.phase.Clean?) {
      HopelessForever(s, p, markers);
    }
  }

  /**
   * Recoverability, exactly: some run of appends ends clean if and only if the journal is clean already, or it
   * has no terminal marker, no outstanding action was activated after the last one rolled back, and (only once
   * the rollback is verified, when the source lets that marker repeat) one record slot is left.
   */
  lemma CleanReachableExactly(s: State, p: Plan)
    requires ValidAgainstPlan(s, p)
    ensures CanReachClean(s, p) <==>
      || s.phase.Clean?
      || (&& !s.phase.RecoveryRequired?
          && !OutOfOrder(s.records, p.manifest)
          && (RollbackIsVerified(s.records) ==> |s.records| < MAX_RECORDS))
  {
    if s.phase.Clean? {
      assert Run(s, p, []) == Some(s);
    } else if s.phase.RecoveryRequired? || OutOfOrder(s.records, p.manifest) {
      NoWayToClean(s, p);
    } else if !RollbackIsVerified(s.records) {
      RollBackToClean(s, p);
    } else if |s.records| < MAX_RECORDS {
      StopAfterVerification(s, p);
    } else {
      NoWayToClean(s, p);
    }
  }
}
