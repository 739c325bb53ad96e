/** The trusted rollback plan a journal is checked against (watchdog_protocol). */
module Watchdog {
  import opened Words

  const MAX_ROLLBACK_ACTIONS := 32
  const MIN_LEASE_TIMEOUT_MS := 100
  const MAX_LEASE_TIMEOUT_MS := 60_000
  const MIN_ACTION_TIMEOUT_MS := 10
  const MAX_ACTION_TIMEOUT_MS := 10_000
  const MAX_ROLLBACK_TIMEOUT_MS := 60_000

  type SessionId = s: Bytes | |s| == 16 witness seq(16, _ => 0)
  type Hash256 = s: Bytes | |s| == 32 witness seq(32, _ => 0)

  datatype ProcessIdentity = ProcessIdentity(processId: U32, creationTime100ns: U64)

  datatype ActionKind =
    | TerminateOwnedProcess
    | CloseOwnedSession
    | ClearOptionalBackendState
    | ReleaseOverlayState
    | RestoreSnapshotState
    | WriteSafeModeResult
    | UnknownAction(raw: U16)

  datatype Action = Action(
    actionId: U32,
    kind: ActionKind,
    activationOrdinal: U32,
    timeoutMilliseconds: U32,
    generation: U64,
    resourceId: U64,
    process: ProcessIdentity)

  datatype Lease = Lease(sessionId: SessionId, generation: U64, timeoutMilliseconds: U32)

  datatype Manifest = Manifest(lease: Lease, rollbackTimeoutMilliseconds: U32, actions: seq<Action>)

  /** A manifest together with its canonical digest. The digest function itself is a parameter of the model. */
  datatype Plan = Plan(manifest: Manifest, digest: Hash256)

  predicate ActionShapeValid(a: Action) {
    && a.actionId != 0 && a.activationOrdinal != 0 && a.generation != 0
    && !a.kind.UnknownAction?
    && MIN_ACTION_TIMEOUT_MS <= a.timeoutMilliseconds <= MAX_ACTION_TIMEOUT_MS
    && (if a.kind.TerminateOwnedProcess?
        then a.resourceId == 0 && a.process.processId != 0 && a.process.creationTime100ns != 0
        else a.resourceId != 0 && a.process.processId == 0 && a.process.creationTime100ns == 0)
  }

  predicate ValidManifest(m: Manifest) {
    && !AllZero(m.lease.sessionId)
    && m.lease.generation != 0
    && MIN_LEASE_TIMEOUT_MS <= m.lease.timeoutMilliseconds <= MAX_LEASE_TIMEOUT_MS
    && MIN_ACTION_TIMEOUT_MS <= m.rollbackTimeoutMilliseconds <= MAX_ROLLBACK_TIMEOUT_MS
    && 0 < |m.actions| <= MAX_ROLLBACK_ACTIONS
    && (forall i :: 0 <= i < |m.actions| ==>
          ActionShapeValid(m.actions[i]) && m.actions[i].timeoutMilliseconds <= m.rollbackTimeoutMilliseconds)
    && (forall i, j :: 0 <= i < j < |m.actions| ==>
          m.actions[i].actionId != m.actions[j].actionId
          && m.actions[i].activationOrdinal != m.actions[j].activationOrdinal)
  }

  lemma SomeNonZero(s: Bytes)
    ensures !AllZero(s) <==> exists b :: b in s && b != 0
  {
    if !AllZero(s) {
      var i :| 0 <= i < |s| && s[i] != 0;
      assert s[i] in s;
    }
  }

  /** What the plan asks of one action, field by field. */
  predicate SoundAction(a: Action) {
    && a.actionId > 0 && a.activationOrdinal > 0 && a.generation > 0 && 10 <= a.timeoutMilliseconds <= 10_000
    && match a.kind
       case TerminateOwnedProcess => a.resourceId == 0 && a.process.processId > 0 && a.process.creationTime100ns > 0
       case UnknownAction(_) => false
       case _ => a.resourceId > 0 && a.process == ProcessIdentity(0, 0)
  }

  /** What a plan must be, field by field. */
  lemma PlanExactly(m: Manifest)
    ensures ValidManifest(m) <==>
      && (exists b :: b in m.lease.sessionId && b != 0) && m.lease.generation > 0
      && 100 <= m.lease.timeoutMilliseconds <= 60_000 && 10 <= m.rollbackTimeoutMilliseconds <= 60_000
      && 1 <= |m.actions| <= 32
      && (forall a :: a in m.actions ==> SoundAction(a) && a.timeoutMilliseconds <= m.rollbackTimeoutMilliseconds)
      && (forall i, j :: 0 <= i < |m.actions| && 0 <= j < |m.actions| && i != j ==>
            && m.actions[i].actionId != m.actions[j].actionId
            && m.actions[i].activationOrdinal != m.actions[j].activationOrdinal)
  {
    SomeNonZero(m.lease.sessionId);
    forall a: Action ensures ActionShapeValid(a) <==> SoundAction(a) {}
    hide AllZero, ActionShapeValid, SoundAction;
    if forall a :: a in m.actions ==> SoundAction(a) && a.timeoutMilliseconds <= m.rollbackTimeoutMilliseconds {
      forall i | 0 <= i < |m.actions|
        ensures ActionShapeValid(m.actions[i]) && m.actions[i].timeoutMilliseconds <= m.rollbackTimeoutMilliseconds
      {
        assert m.actions[i] in m.actions;
      }
    }
  }

  /** The first action of the plan with the given id, as the source's linear search finds it. */
  function FindAction(actions: seq<Action>, id: U32): (found: Option<Action>)
    ensures found.Some? ==> found.value in actions && found.value.actionId == id
    ensures found.None? ==> forall a :: a in actions ==> a.actionId != id
  {
    if |actions| == 0 then None
    else if actions[0].actionId == id then Some(actions[0])
    else FindAction(actions[1..], id)
  }

  /** Activation ordinal of a planned action; 0 (never a planned ordinal) for an unplanned id. */
  function Ordinal(m: Manifest, id: U32): U32 {
    match FindAction(m.actions, id)
    case Some(a) => a.activationOrdinal
    case None => 0
  }

  function PlannedIds(m: Manifest): set<U32> {
    set a | a in m.actions :: a.actionId
  }

  lemma OrdinalsDistinct(m: Manifest, a: U32, b: U32)
    requires ValidManifest(m) && a in PlannedIds(m) && b in PlannedIds(m) && a != b
    ensures Ordinal(m, a) != Ordinal(m, b)
  {
    var x, y := FindAction(m.actions, a).value, FindAction(m.actions, b).value;
    var i :| 0 <= i < |m.actions| && m.actions[i] == x;
    var j :| 0 <= j < |m.actions| && m.actions[j] == y;
  }

  lemma {:induction false} PlannedIdsBound(actions: seq<Action>)
    ensures |set a | a in actions :: a.actionId| <= |actions|
  {
    if |actions| > 0 {
      var rest := actions[1..];
      PlannedIdsBound(rest);
      var ids := set a | a in rest :: a.actionId;
      assert (set a | a in actions :: a.actionId) == ids + {actions[0].actionId};
    }
  }
}
