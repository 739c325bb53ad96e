/** The audio route transaction against a backend and an observer that may answer anything. */
module AudioRouting {
  import opened Words
  import opened AudioEvidence

  datatype Phase = Unprepared | WaitingForSession | Ready | Satisfied | Applied | Unsupported | Failed | RecoveryRequired

  datatype RouteError =
    | NoError | InvalidSeat | InvalidProcessTree | TargetEndpointMissing | TargetEndpointUnavailable
    | OwnershipUnverified | BackendUnsupported | SnapshotFailed | ApplyFailed | VerificationFailed | RollbackFailed

  datatype Capability = CannotRoute | AlreadySatisfied | Mutable

  datatype Status = Status(phase: Phase, error: RouteError, capability: Capability, evidence: Evidence,
                           mutated: bool, rollbackVerified: bool)

  /** A transaction between calls: its status and what it captured before the last apply. */
  datatype Transaction = Transaction(status: Status, before: Option<Bytes>, beforeEvidence: Option<Evidence>)

  const NEW := Transaction(Status(Unprepared, NoError, CannotRoute, NO_EVIDENCE, false, false), None, None)

  /** All answers one attempt can get, in the order it asks; those it does not reach do not matter. */
  datatype Answers = Answers(first: Inventory, capability: Capability, captured: Option<Bytes>, applied: bool,
                             afterApply: Inventory, undo: UndoAnswers)

  datatype UndoAnswers = UndoAnswers(rolledBack: bool, afterRollback: Inventory)

  // ---------------------------------------------------------------- checks

  function FirstEndpoint(request: Request, endpoints: seq<Endpoint>): Option<Endpoint> {
    if endpoints == [] then None
    else if SameEndpoint(request, endpoints[0].id, request.target) then Some(endpoints[0])
    else FirstEndpoint(request, endpoints[1..])
  }

  function RequestError(request: Request, endpoints: seq<Endpoint>): RouteError {
    if (request.seat != 1 && request.seat != 2) || request.tree.seat != request.seat then InvalidSeat
    else if request.tree.root.pid == 0 || request.tree.root.creation == 0 || request.tree.rootPath == ""
         || !request.tree.trackingComplete then InvalidProcessTree
    else if request.target == "" then TargetEndpointMissing
    else
      var found := FirstEndpoint(request, endpoints);
      if found.None? then TargetEndpointMissing
      else if !found.value.active then TargetEndpointUnavailable
      else NoError
  }

  function Observed(request: Request, inventory: Inventory): Evidence {
    if inventory.succeeded && inventory.complete then Collected(request, inventory.sessions) else NO_EVIDENCE
  }

  function ObserveError(request: Request, inventory: Inventory): RouteError {
    if !inventory.succeeded || !inventory.complete then SnapshotFailed
    else
      var e := Collected(request, inventory.sessions);
      if e.unverified != [] || e.duplicates then OwnershipUnverified else NoError
  }

  /** A complete observation in which every owned process has one session and no pid is unverified. */
  predicate Clear(request: Request, inventory: Inventory) {
    ObserveError(request, inventory).NoError?
  }

  /** The backend says it rolled back, and every captured session is seen back on its endpoint. */
  predicate Undone(request: Request, before: Evidence, a: UndoAnswers) {
    && a.rolledBack && Clear(request, a.afterRollback) && !before.duplicates
    && Restored(request, before.owned, Observed(request, a.afterRollback).owned)
  }

  predicate OnTarget(request: Request, inventory: Inventory) {
    Clear(request, inventory) && Observed(request, inventory).allOnTarget
  }

  // ---------------------------------------------------------------- one call

  function AfterUndo(request: Request, t: Transaction, before: Evidence, a: UndoAnswers, cause: RouteError): Transaction {
    var seen := if a.rolledBack then Observed(request, a.afterRollback) else NO_EVIDENCE;
    if Undone(request, before, a) then
      Transaction(Status(Failed, cause, t.status.capability, seen, false, true), t.before, t.beforeEvidence)
    else
      Transaction(Status(RecoveryRequired, RollbackFailed, t.status.capability, seen, t.status.mutated,
                         t.status.rollbackVerified), t.before, t.beforeEvidence)
  }

  function Attempted(request: Request, t: Transaction, endpoints: seq<Endpoint>, a: Answers): Transaction {
    var s := t.status;
    var e := Observed(request, a.first);
    if !RequestError(request, endpoints).NoError? then
      t.(status := Status(Failed, RequestError(request, endpoints), s.capability, s.evidence, s.mutated, false))
    else if !Clear(request, a.first) then
      t.(status := Status(Failed, ObserveError(request, a.first), s.capability, e, s.mutated, false))
    else if e.owned == [] then t.(status := Status(WaitingForSession, NoError, CannotRoute, e, s.mutated, false))
    else if e.allOnTarget then t.(status := Status(Satisfied, NoError, AlreadySatisfied, e, false, false))
    else if a.capability.CannotRoute? then
      t.(status := Status(Unsupported, BackendUnsupported, a.capability, e, s.mutated, false))
    else if a.capability.AlreadySatisfied? then t.(status := Status(Satisfied, NoError, a.capability, e, false, false))
    else if a.captured.None? then t.(status := Status(Failed, SnapshotFailed, a.capability, e, s.mutated, false))
    else
      var u := Transaction(Status(s.phase, s.error, a.capability, e, true, false), a.captured, Some(e));
      if !a.applied then AfterUndo(request, u, e, a.undo, ApplyFailed)
      else if !OnTarget(request, a.afterApply) then AfterUndo(request, u, e, a.undo, VerificationFailed)
      else u.(status := Status(Applied, NoError, a.capability, Observed(request, a.afterApply), true, false))
  }

  function RolledBack(request: Request, t: Transaction, endpoints: seq<Endpoint>, a: UndoAnswers): Transaction {
    var s := t.status;
    if !RequestError(request, endpoints).NoError? then
      t.(status := Status(RecoveryRequired, RequestError(request, endpoints), s.capability, s.evidence, s.mutated, s.rollbackVerified))
    else if !s.mutated then
      t.(status := Status(Ready, NoError, s.capability, s.evidence, s.mutated, s.rollbackVerified))
    else if t.before.None? || t.beforeEvidence.None? || !a.rolledBack then
      t.(status := Status(RecoveryRequired, RollbackFailed, s.capability,
                          if t.before.Some? && a.rolledBack then NO_EVIDENCE else s.evidence, s.mutated, s.rollbackVerified))
    else if !Undone(request, t.beforeEvidence.value, a) then
      t.(status := Status(RecoveryRequired, RollbackFailed, s.capability, Observed(request, a.afterRollback), s.mutated,
                          s.rollbackVerified))
    else
      Transaction(Status(Ready, NoError, s.capability, Observed(request, a.afterRollback), false, true), None, None)
  }

  // ---------------------------------------------------------------- the transaction object

  class RouteTransaction {
    const request: Request
    var status: Status
    var before: Option<Bytes>
    var beforeEvidence: Option<Evidence>

    ghost function View(): Transaction
      reads this
    {
      Transaction(status, before, beforeEvidence)
    }

    constructor (request: Request)
      ensures View() == NEW && this.request == request
    {
      this.request := request;
      status, before, beforeEvidence := NEW.status, None, None;
    }

    method ValidateRequest(endpoints: seq<Endpoint>) returns (error: RouteError)
      ensures error == RequestError(request, endpoints)
    {
      if (request.seat != 1 && request.seat != 2) || request.tree.seat != request.seat { return InvalidSeat; }
      if request.tree.root.pid == 0 || request.tree.root.creation == 0 || request.tree.rootPath == ""
         || !request.tree.trackingComplete
      {
        return InvalidProcessTree;
      }
      if request.target == "" { return TargetEndpointMissing; }
      for n := 0 to |endpoints|
        invariant FirstEndpoint(request, endpoints) == FirstEndpoint(request, endpoints[n..])
      {
        if SameEndpoint(request, endpoints[n].id, request.target) {
          return if endpoints[n].active then NoError else TargetEndpointUnavailable;
        }
      }
      error := TargetEndpointMissing;
    }

    method ObserveEvidence(inventory: Inventory) returns (error: RouteError, evidence: Evidence)
      ensures error == ObserveError(request, inventory) && evidence == Observed(request, inventory)
    {
      if !inventory.succeeded || !inventory.complete { return SnapshotFailed, NO_EVIDENCE; }
      evidence := CollectEvidence(request, inventory.sessions);
      error := if evidence.unverified != [] || evidence.duplicates then OwnershipUnverified else NoError;
    }

    /** backend rollback and verifyRollback. */
    method TryUndo(captured: Evidence, a: UndoAnswers) returns (undone: bool, seen: Evidence)
      requires captured.duplicates == Repeated(captured.owned)
      ensures undone == Undone(request, captured, a)
      ensures seen == if a.rolledBack then Observed(request, a.afterRollback) else NO_EVIDENCE
    {
      if !a.rolledBack { return false, NO_EVIDENCE; }
      var error;
      error, seen := ObserveEvidence(a.afterRollback);
      if error != NoError { return false, seen; }
      undone := VerifyCaptured(request, captured, seen);
    }

    method FinishUndo(captured: Evidence, a: UndoAnswers, cause: RouteError)
      requires captured.duplicates == Repeated(captured.owned)
      modifies this`status
      ensures View() == AfterUndo(request, old(View()), captured, a, cause)
    {
      var undone, seen := TryUndo(captured, a);
      if undone {
        status := Status(Failed, cause, status.capability, seen, false, true);
      } else {
        status := status.(phase := RecoveryRequired, error := RollbackFailed, evidence := seen);
      }
    }

    method Attempt(endpoints: seq<Endpoint>, a: Answers)
      modifies this
      ensures View() == Attempted(request, old(View()), endpoints, a)
    {
      hide RequestError, Collected, Restored, Undone;
      status := status.(rollbackVerified := false);
      var invalid := ValidateRequest(endpoints);
      if invalid != NoError {
        status := status.(phase := Failed, error := invalid);
        return;
      }
      var unclear, evidence := ObserveEvidence(a.first);
      status := status.(evidence := evidence);
      if unclear != NoError {
        status := status.(phase := Failed, error := unclear);
        return;
      }
      if evidence.owned == [] {
        status := status.(phase := WaitingForSession, error := NoError, capability := CannotRoute);
        return;
      }
      if evidence.allOnTarget {
        status := status.(phase := Satisfied, error := NoError, capability := AlreadySatisfied, mutated := false);
        return;
      }
      status := status.(capability := a.capability);
      if a.capability == CannotRoute {
        status := status.(phase := Unsupported, error := BackendUnsupported);
        return;
      }
      if a.capability == AlreadySatisfied {
        status := status.(phase := Satisfied, error := NoError, mutated := false);
        return;
      }
      if a.captured.None? {
        status := status.(phase := Failed, error := SnapshotFailed);
        return;
      }
      before, beforeEvidence := a.captured, Some(evidence);
      status := status.(mutated := true);
      CollectedDuplicates(request, a.first);
      if !a.applied {
        FinishUndo(evidence, a.undo, ApplyFailed);
        return;
      }
      var error, after := ObserveEvidence(a.afterApply);
      if error != NoError || after.owned == [] || !after.allOnTarget {
        TargetMeansOwned(request, a.afterApply);
        FinishUndo(evidence, a.undo, VerificationFailed);
        return;
      }
      status := status.(phase := Applied, error := NoError, evidence := after, rollbackVerified := false);
    }

    method Rollback(endpoints: seq<Endpoint>, a: UndoAnswers)
      requires beforeEvidence.Some? ==> beforeEvidence.value.duplicates == Repeated(beforeEvidence.value.owned)
      modifies this
      ensures View() == RolledBack(request, old(View()), endpoints, a)
    {
      hide RequestError, Collected, Restored;
      var invalid := ValidateRequest(endpoints);
      if invalid != NoError {
        status := status.(phase := RecoveryRequired, error := invalid);
        return;
      }
      if !status.mutated {
        status := status.(phase := Ready, error := NoError);
        return;
      }
      if before.None? || !a.rolledBack {
        status := status.(phase := RecoveryRequired, error := RollbackFailed);
        return;
      }
      if beforeEvidence.None? {
        status := status.(phase := RecoveryRequired, error := RollbackFailed, evidence := NO_EVIDENCE);
        return;
      }
      var undone, seen := TryUndo(beforeEvidence.value, a);
      status := status.(evidence := seen);
      if !undone {
        status := status.(phase := RecoveryRequired, error := RollbackFailed);
        return;
      }
      status := status.(phase := Ready, error := NoError, mutated := false, rollbackVerified := true);
      before, beforeEvidence := None, None;
    }
  }

  lemma CollectedDuplicates(request: Request, inventory: Inventory)
    ensures Observed(request, inventory).duplicates == Repeated(Observed(request, inventory).owned)
  {
  }

  lemma TargetMeansOwned(request: Request, inventory: Inventory)
    ensures Observed(request, inventory).owned == [] ==> !Observed(request, inventory).allOnTarget
  {
  }
}
