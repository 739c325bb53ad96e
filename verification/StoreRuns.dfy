/** Whole runs of the store: any calls, any storage failures, and a crash at any moment of any call. */
module StoreRuns {
  import opened Words
  import opened Watchdog
  import opened CrashJournal
  import opened JournalStorage
  import opened StoreSafety
  import CrashJournalStore

  datatype Call =
    | Begin(initial: State)
    | Persist(state: State)
    | Assess
    | Clear(session: SessionId, generation: U64, resetVerified: bool)
    | Reset(clean: State, resetVerified: bool)

  /** One call, possibly cut off by a crash that loses all but the changes made up to some moment of it. */
  method CallOnce(store: CrashJournalStore.Store, call: Call, crashes: bool)
    requires store.storage.Valid()
    modifies store.storage
    ensures store.storage.Valid()
    ensures Ordinary(old(store.storage.log), true) ==> Ordinary(store.storage.log, true)
    ensures !call.Reset? && Ordinary(old(store.storage.log)) ==> Ordinary(store.storage.log)
    ensures old(store.storage.log) <= store.storage.log
  {
    hide Ordinary;
    var before := |store.storage.log|;
    match call {
      case Begin(initial) => var _ := store.BeginActivation(initial);
      case Persist(state) => var _ := store.PersistTransition(state);
      case Assess => var _ := store.AssessStartup();
      case Clear(session, generation, verified) => var _ := store.ClearSafeMode(session, generation, verified);
      case Reset(clean, verified) => var _ := store.ReplaceWithVerifiedClean(clean, verified);
    }
    if crashes {
      CrashesLeaveRuns(store.storage.log);
      store.storage.Crash(before - 1);
    }
  }

  lemma CrashesLeaveRuns(log: seq<Disk>)
    ensures forall n :: 0 <= n <= |log| ==> Onward(log, log[..n])
  {
    hide Ordinary;
    forall n | 0 <= n <= |log| ensures Onward(log, log[..n]) {
      forall resets | Ordinary(log, resets) ensures Ordinary(log[..n], resets) { CrashLeavesRun(log, n, resets); }
    }
  }

  /**
   * Crash safety over whole runs: starting from a disk with a sound journal or none, every disk that any run
   * of calls, failures and crashes ever leaves has a sound journal or none. The whole history is a run, and one
   * without resets if no reset was called for.
   */
  method Run(store: CrashJournalStore.Store, calls: seq<(Call, bool)>)
    requires store.storage.Valid() && Ordinary(store.storage.log) && Sound(store.storage.log[0])
    modifies store.storage
    ensures store.storage.Valid() && Ordinary(store.storage.log, true)
    ensures (forall k :: 0 <= k < |calls| ==> !calls[k].0.Reset?) ==> Ordinary(store.storage.log)
    ensures forall k :: 0 <= k < |store.storage.log| ==> Sound(store.storage.log[k])
  {
    OrdinaryAnyway(store.storage.log);
    hide Ordinary, Sound;
    var i := 0;
    while i < |calls|
      invariant 0 <= i <= |calls| && store.storage.Valid() && Ordinary(store.storage.log, true)
      invariant (forall k :: 0 <= k < i ==> !calls[k].0.Reset?) ==> Ordinary(store.storage.log)
      invariant old(store.storage.log) <= store.storage.log
    {
      CallOnce(store, calls[i].0, calls[i].1);
      var flaky: bool, faulty: bool, unreadable: set<Slot> := *, *, *;
      store.storage.flaky, store.storage.faulty, store.storage.unreadable := flaky, faulty, unreadable;
      i := i + 1;
    }
    forall k | 0 <= k < |store.storage.log| ensures Sound(store.storage.log[k]) {
      JournalStaysSound(store.storage.log, k, true);
    }
  }

  /** A run without resets is a run in which resets are allowed. */
  lemma OrdinaryAnyway(log: seq<Disk>)
    requires Ordinary(log)
    ensures Ordinary(log, true)
  {
    forall i | 0 <= i < |log| - 1 ensures OrdinaryStep(log[i], log[i + 1], true) {
      assert OrdinaryStep(log[i], log[i + 1]);
    }
  }
}
