/** What the phase of a replayed journal says about the records that led to it. */
module JournalHistory {
  import opened Words
  import opened Watchdog
  import opened CrashJournal

  /** Action ids of the records of one kind, in order of appearance. */
  function Ids(records: seq<Record>, k: RecordKind): seq<U32>
  {
    if |records| == 0 then []
    else
      var last := records[|records| - 1];
      Push(Ids(records[..|records| - 1], k), last, k)
  }

  function Push(ids: seq<U32>, r: Record, k: RecordKind): seq<U32> {
    if r.kind == k then ids + [r.actionId] else ids
  }

  lemma {:induction false} IdsMember(records: seq<Record>, k: RecordKind, id: U32)
    ensures id in Ids(records, k) <==> exists i :: 0 <= i < |records| && records[i].kind == k && records[i].actionId == id
  {
    if |records| > 0 {
      var init := records[..|records| - 1];
      IdsMember(init, k, id);
      if i :| 0 <= i < |init| && init[i].kind == k && init[i].actionId == id {
        assert records[i] == init[i];
      }
    }
  }

  /** Every action's progress is exactly the furthest marker written for it, and no marker is written twice. */
  ghost predicate Tracks(actions: map<U32, Progress>, prepared: seq<U32>, applied: seq<U32>, verified: seq<U32>,
                         rolledBack: seq<U32>)
  {
    && (forall id :: id in actions <==> id in prepared)
    && (forall id :: id in applied ==> id in actions && actions[id] != Prepared)
    && (forall id :: id in actions && actions[id] == Applied ==> id in applied)
    && (forall id :: id in verified ==> id in applied && (actions[id] == Verified || actions[id] == RolledBack))
    && (forall id :: id in actions && actions[id] == Verified ==> id in verified)
    && (forall id :: id in rolledBack <==> id in actions && actions[id] == RolledBack)
    && NoDuplicates(prepared) && NoDuplicates(applied) && NoDuplicates(verified) && NoDuplicates(rolledBack)
  }

  ghost predicate TracksRecords(m: Replay, records: seq<Record>) {
    Tracks(m.actions, Ids(records, ActionPrepared), Ids(records, ActionApplied), Ids(records, ActionVerified),
           Ids(records, ActionRolledBack))
  }

  lemma TrackPrepared(m: map<U32, Progress>, p: seq<U32>, a: seq<U32>, v: seq<U32>, u: seq<U32>, id: U32)
    requires Tracks(m, p, a, v, u) && id !in m
    ensures Tracks(m[id := Prepared], p + [id], a, v, u)
  {
  }

  lemma TrackApplied(m: map<U32, Progress>, p: seq<U32>, a: seq<U32>, v: seq<U32>, u: seq<U32>, id: U32)
    requires Tracks(m, p, a, v, u) && id in m && m[id] == Prepared
    ensures Tracks(m[id := Applied], p, a + [id], v, u)
  {
  }

  lemma TrackVerified(m: map<U32, Progress>, p: seq<U32>, a: seq<U32>, v: seq<U32>, u: seq<U32>, id: U32)
    requires Tracks(m, p, a, v, u) && id in m && m[id] == Applied
    ensures Tracks(m[id := Verified], p, a, v + [id], u)
  {
  }

  lemma TrackRolledBack(m: map<U32, Progress>, p: seq<U32>, a: seq<U32>, v: seq<U32>, u: seq<U32>, id: U32)
    requires Tracks(m, p, a, v, u) && id in m && m[id] != RolledBack
    ensures Tracks(m[id := RolledBack], p, a, v, u + [id])
  {
  }

  lemma TrackStep(before: Replay, index: nat, r: Record, p: seq<U32>, a: seq<U32>, v: seq<U32>, u: seq<U32>)
    requires Tracks(before.actions, p, a, v, u) && Step(before, index, r).Some?
    ensures Tracks(Step(before, index, r).value.actions, Push(p, r, ActionPrepared), Push(a, r, ActionApplied),
                   Push(v, r, ActionVerified), Push(u, r, ActionRolledBack))
  {
    var m, id := before.actions, r.actionId;
    if r.kind.ActionPrepared? {
      TrackPrepared(m, p, a, v, u, id);
    } else if r.kind.ActionApplied? {
      TrackApplied(m, p, a, v, u, id);
    } else if r.kind.ActionVerified? {
      TrackVerified(m, p, a, v, u, id);
    } else if r.kind.ActionRolledBack? {
      TrackRolledBack(m, p, a, v, u, id);
    }
  }

  lemma {:induction false} ReplayTracks(records: seq<Record>)
    requires Replayed(records).Some?
    ensures TracksRecords(Replayed(records).value, records)
  {
    if |records| > 0 {
      var init := records[..|records| - 1];
      ReplayTracks(init);
      TrackStep(Replayed(init).value, |init|, records[|init|], Ids(init, ActionPrepared), Ids(init, ActionApplied),
                Ids(init, ActionVerified), Ids(init, ActionRolledBack));
    }
  }

  /** An action is applied only after it was prepared, verified only after it was applied, rolled back only once prepared. */
  lemma MarkersInOrder(records: seq<Record>, i: nat)
    requires Replayed(records).Some? && i < |records|
    ensures var r, before := records[i], records[..i];
      && (r.kind.ActionPrepared? ==> r.actionId !in Ids(before, ActionPrepared))
      && (r.kind.ActionApplied? ==> r.actionId in Ids(before, ActionPrepared) && r.actionId !in Ids(before, ActionApplied))
      && (r.kind.ActionVerified? ==> r.actionId in Ids(before, ActionApplied) && r.actionId !in Ids(before, ActionVerified))
      && (r.kind.ActionRolledBack? ==>
            r.actionId in Ids(before, ActionPrepared) && r.actionId !in Ids(before, ActionRolledBack))
  {
    hide Ids, NoDuplicates;
    ReplayPrefix(records, i);
    ReplayPrefix(records, i + 1);
    assert records[..i + 1][..i] == records[..i];
    ReplayTracks(records[..i]);
  }

  /** The session markers: how often each occurs, and what each phase implies about the others. */
  ghost predicate SessionMarkers(m: Replay, started: int, committed: int, rollbacks: int, undone: int, verified: int) {
    && started <= 1 && rollbacks <= 1
    && committed <= (if m.phase.Preparing? || m.phase.Applying? then 0 else 1)
    && (m.phase.Preparing? || m.phase.Applying? || m.phase.Active? ==> rollbacks == undone == 0)
    && (m.phase.RollingBack? ==> rollbacks == 1)
    && (m.phase.Active? ==> AllProgress(m.actions, Verified))
    && (m.phase.Clean? ==> m.rollbackVerified)
    && (m.rollbackVerified ==> AllProgress(m.actions, RolledBack))
    && (m.rollbackVerified <==> verified > 0)
    && (verified > 0 ==> m.phase.RollingBack? || m.phase.Clean? || m.phase.RecoveryRequired?)
    && !m.phase.UnknownPhase?
  }

  ghost predicate SessionMarkersOf(m: Replay, records: seq<Record>) {
    SessionMarkers(m, |Ids(records, ActivationStarted)|, |Ids(records, ActivationCommitted)|,
                   |Ids(records, RollbackStarted)|, |Ids(records, ActionRolledBack)|, |Ids(records, RollbackVerified)|)
  }

  lemma {:induction false} ReplaySessionMarkers(records: seq<Record>)
    requires Replayed(records).Some?
    ensures SessionMarkersOf(Replayed(records).value, records)
  {
    if |records| > 0 {
      var init, last := records[..|records| - 1], records[|records| - 1];
      ReplaySessionMarkers(init);
      var after := Replayed(records).value;
      var started, committed := |Ids(init, ActivationStarted)|, |Ids(init, ActivationCommitted)|;
      var rollbacks, undone := |Ids(init, RollbackStarted)|, |Ids(init, ActionRolledBack)|;
      var verified := |Ids(init, RollbackVerified)|;
      if last.kind.ActivationStarted? {
        assert init == [];
      } else if last.kind.ActivationCommitted? {
        assert SessionMarkers(after, started, committed + 1, rollbacks, undone, verified);
      } else if last.kind.RollbackStarted? {
        assert SessionMarkers(after, started, committed, rollbacks + 1, undone, verified);
      } else if last.kind.ActionRolledBack? {
        assert SessionMarkers(after, started, committed, rollbacks, undone + 1, verified);
      } else if last.kind.RollbackVerified? {
        assert SessionMarkers(after, started, committed, rollbacks, undone, verified + 1);
      }
    }
  }

  /** A terminal marker ends the journal, and the phase tells which one it is. */
  lemma {:induction false} NothingAfterTerminal(records: seq<Record>)
    requires Replayed(records).Some?
    ensures forall i :: 0 <= i < |records| - 1 ==> !IsTerminalKind(records[i].kind)
    ensures Replayed(records).value.phase.Clean? <==> |records| > 0 && records[|records| - 1].kind.CleanStop?
    ensures Replayed(records).value.phase.RecoveryRequired? <==>
      |records| > 0 && (records[|records| - 1].kind.FailureRecorded? || records[|records| - 1].kind.RecoveryRequired?)
  {
    if |records| > 0 {
      NothingAfterTerminal(records[..|records| - 1]);
    }
  }

  /** Every record is of exactly one known kind. */
  lemma {:induction false} RecordCount(records: seq<Record>)
    requires Replayed(records).Some?
    ensures |records| ==
      |Ids(records, ActivationStarted)| + |Ids(records, ActionPrepared)| + |Ids(records, ActionApplied)|
      + |Ids(records, ActionVerified)| + |Ids(records, ActivationCommitted)| + |Ids(records, RollbackStarted)|
      + |Ids(records, ActionRolledBack)| + |Ids(records, RollbackVerified)| + |Ids(records, CleanStop)|
      + |Ids(records, FailureRecorded)| + |Ids(records, RecordKind.RecoveryRequired)|
  {
    if |records| > 0 {
      RecordCount(records[..|records| - 1]);
    }
  }

  lemma {:induction false} NoTerminalMarkers(records: seq<Record>)
    requires Replayed(records).Some?
    requires !Replayed(records).value.phase.Clean? && !Replayed(records).value.phase.RecoveryRequired?
    ensures Ids(records, CleanStop) == [] && Ids(records, FailureRecorded) == []
            && Ids(records, RecordKind.RecoveryRequired) == []
  {
    if |records| > 0 {
      NoTerminalMarkers(records[..|records| - 1]);
    }
  }

  lemma {:induction false} SameMembersSameBag<T(!new)>(a: seq<T>, b: seq<T>)
    requires NoDuplicates(a) && NoDuplicates(b)
    requires forall x :: x in a <==> x in b
    ensures multiset(a) == multiset(b)
  {
    forall x ensures multiset(a)[x] == multiset(b)[x] {
      Occurrences(a, x);
      Occurrences(b, x);
    }
  }

  lemma {:induction false} Occurrences<T(!new)>(s: seq<T>, x: T)
    requires NoDuplicates(s)
    ensures multiset(s)[x] == if x in s then 1 else 0
  {
    if |s| > 0 {
      var init := s[..|s| - 1];
      Occurrences(init, x);
      assert s == init + [s[|s| - 1]];
    }
  }

  /** Ordinals of the rolled-back actions, in the order they were rolled back. */
  ghost predicate Descending(ids: seq<U32>, m: Manifest) {
    forall i, j :: 0 <= i < j < |ids| ==> Ordinal(m, ids[i]) > Ordinal(m, ids[j])
  }

  lemma {:induction false} RollbackIdsDescend(records: seq<Record>, m: Manifest)
    requires ReverseOrder(records, m)
    ensures Descending(Ids(records, ActionRolledBack), m)
  {
    if |records| > 0 {
      var init, last := records[..|records| - 1], records[|records| - 1];
      ReverseOrderPrefix(records, |records| - 1, m);
      RollbackIdsDescend(init, m);
      var ids := Ids(init, ActionRolledBack);
      forall i | last.kind.ActionRolledBack? && 0 <= i < |ids|
        ensures Ordinal(m, ids[i]) > Ordinal(m, last.actionId)
      {
        IdsMember(init, ActionRolledBack, ids[i]);
      }
    }
  }

  /**
   * Clean means undone: in a clean journal every prepared action was rolled back exactly once, latest
   * activation first, a verification followed, and the clean-stop marker is the only terminal one.
   */
  lemma CleanMeansUndone(s: State, p: Plan)
    requires ValidAgainstPlan(s, p) && s.phase.Clean?
    ensures multiset(Ids(s.records, ActionRolledBack)) == multiset(Ids(s.records, ActionPrepared))
    ensures NoDuplicates(Ids(s.records, ActionPrepared))
    ensures Descending(Ids(s.records, ActionRolledBack), p.manifest)
    ensures |Ids(s.records, RollbackVerified)| > 0
    ensures s.records[|s.records| - 1].kind.CleanStop?
    ensures forall i :: 0 <= i < |s.records| - 1 ==> !IsTerminalKind(s.records[i].kind)
  {
    var n := |s.records| - 1;
    ReplayTracks(s.records);
    ReplaySessionMarkers(s.records);
    NothingAfterTerminal(s.records);
    SameMembersSameBag(Ids(s.records, ActionRolledBack), Ids(s.records, ActionPrepared));
    RollbackIdsDescend(s.records, p.manifest);
    assert Replayed(s.records[..n]).value.rollbackVerified;
    ReplaySessionMarkers(s.records[..n]);
  }

  /** Active means every prepared action was applied and verified, and none rolled back. */
  lemma ActiveMeansVerified(s: State)
    requires ValidState(s) && s.phase.Active?
    ensures multiset(Ids(s.records, ActionVerified)) == multiset(Ids(s.records, ActionPrepared))
    ensures multiset(Ids(s.records, ActionApplied)) == multiset(Ids(s.records, ActionPrepared))
    ensures Ids(s.records, ActionRolledBack) == []
  {
    ReplayTracks(s.records);
    ReplaySessionMarkers(s.records);
    SameMembersSameBag(Ids(s.records, ActionVerified), Ids(s.records, ActionPrepared));
    SameMembersSameBag(Ids(s.records, ActionApplied), Ids(s.records, ActionPrepared));
  }
}
