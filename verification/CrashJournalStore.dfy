/** The journal store: durable writes through a temporary slot, history, and the sticky safe-mode marker. */
module CrashJournalStore {
  import opened Words
  import opened Watchdog
  import opened CrashJournal
  import opened JournalCodec
  import opened JournalDecode
  import opened MarkerCodec
  import opened JournalStorage
  import opened StoreSafety

  const HISTORY_DEPTH := 4

  datatype StartupState = Clean | RecoverableIncomplete | RecoveryRequired
  datatype StartupAssessment = StartupAssessment(
    state: StartupState, journal: Option<State>, safeMode: Option<SafeModeMarker>, safeModeWriteFailed: bool)

  /** No marker, and no journal but a clean one: the only disks a normal start is reported for. */
  ghost predicate StartsClean(disk: Disk, unreadable: set<Slot>) {
    && SafeMode !in unreadable && SafeMode !in disk
    && Current !in unreadable
    && (Current !in disk
        || (|disk[Current]| <= MAX_FILE_BYTES && Stored(disk).Some? && IsClean(Stored(disk).value)))
  }

  /** What beginActivation insists on finding. */
  ghost predicate MayBegin(disk: Disk, unreadable: set<Slot>, initial: State) {
    && StartsClean(disk, unreadable)
    && (Current in disk ==> Stored(disk).value.runtimeGeneration < initial.runtimeGeneration)
  }

  /** Only the marker changed: the journal is as it was at every moment, and a marker once there is there still. */
  ghost predicate MarkerOnly(before: seq<Disk>, after: seq<Disk>, a: Disk, b: Disk) {
    && Within(before, after, At(a, Current), At(a, Current))
    && At(b, Current) == At(a, Current)
    && (SafeMode in a ==> SafeMode in b)
    && Onward(before, after)
  }

  /** The disk holds exactly this marker. */
  ghost predicate Marks(disk: Disk, marker: SafeModeMarker) {
    SafeMode in disk && DecodedMarker(disk[SafeMode]) == Some(marker)
  }

  lemma MarkedBy(disk: Disk, marker: SafeModeMarker)
    ensures ValidMarker(marker) && At(disk, SafeMode) == Some(EncodedMarker(marker)) ==> Marks(disk, marker)
  {
    hide EncodedMarker, DecodedMarker;
    if ValidMarker(marker) { MarkerDecodedBack(marker); }
  }

  lemma NamesSession(s: State)
    requires ValidState(s)
    ensures !AllZero(s.sessionId) && s.runtimeGeneration != 0
  {
  }

  /** The journal slot can be read, as far as that does not change from one read to the next. */
  ghost predicate Legible(disk: Disk, unreadable: set<Slot>) {
    Current !in unreadable && Current in disk && |disk[Current]| <= MAX_FILE_BYTES
  }

  ghost predicate SameHistory(before: Disk, after: Disk) {
    forall i: nat :: At(before, History(i)) == At(after, History(i))
  }

  /** What the history held one place nearer, if it could be taken over. */
  function Newer(disk: Disk, i: nat): Option<Bytes>
    requires i > 0
  {
    var nearer := At(disk, History(i - 1));
    if nearer.Some? && |nearer.value| <= MAX_FILE_BYTES then nearer else At(disk, History(i))
  }

  /** The bytes come to stand first in the history, and the three before them one place further on. */
  ghost predicate Shifted(before: Disk, after: Disk, first: Bytes) {
    && At(after, History(0)) == Some(first)
    && At(after, History(1)) == Newer(before, 1)
    && At(after, History(2)) == Newer(before, 2)
    && At(after, History(3)) == Newer(before, 3)
  }

  /** What persistTransition insists on finding. */
  ghost predicate MayPersist(disk: Disk, state: State) {
    ValidState(state) && Stored(disk).Some? && Extends(Stored(disk).value, state)
  }

  lemma StoredFits(disk: Disk)
    requires Stored(disk).Some?
    ensures Current in disk && |disk[Current]| <= MAX_FILE_BYTES
    ensures ValidState(Stored(disk).value) && disk[Current] == Encoded(Stored(disk).value)
  {
    ValidStateFits(Stored(disk).value);
  }

  lemma EnterSafeModeStep(log: seq<Disk>, next: Disk)
    requires |log| > 0 && At(log[|log| - 1], Current) == At(next, Current) && SafeMode in next
    ensures Onward(log, log + [next])
  {
    forall resets | Ordinary(log, resets) ensures Ordinary(log + [next], resets) { PushStep(log, next, resets); }
  }

  lemma ReleaseStep(log: seq<Disk>, next: Disk)
    requires |log| > 0 && At(log[|log| - 1], Current) == At(next, Current) && MayRelease(log[|log| - 1])
    ensures Onward(log, log + [next])
  {
    forall resets | Ordinary(log, resets) ensures Ordinary(log + [next], resets) { PushStep(log, next, resets); }
  }

  lemma Unchanged(log: seq<Disk>, disk: Disk)
    ensures MarkerOnly(log, log, disk, disk)
  {
  }

  /** In a valid journal the stored result says no more than the phase. */
  lemma ResultFollowsPhase(s: State)
    requires ValidState(s)
    ensures s.phase.Clean? <==> s.finalResult.Clean?
    ensures s.phase.RecoveryRequired? <==> s.finalResult.Failed? || s.finalResult.RecoveryRequired?
  {
    ResultFollowsReplay(s.records);
  }

  lemma {:induction false} ResultFollowsReplay(records: seq<Record>)
    requires Replayed(records).Some?
    ensures var m := Replayed(records).value;
      && (m.phase.Clean? <==> m.result.Clean?)
      && (m.phase.RecoveryRequired? <==> m.result.Failed? || m.result.RecoveryRequired?)
      && !m.result.UnknownResult?
  {
    if |records| > 0 { ResultFollowsReplay(records[..|records| - 1]); }
  }

  lemma BeginningIsAllowed(disk: Disk, unreadable: set<Slot>, initial: State)
    requires Canonical(initial) && MayBegin(disk, unreadable, initial)
    ensures forall resets :: JournalChange(At(disk, Current), Some(Encoded(initial)), resets)
  {
    DecodedEncoded(initial);
  }

  lemma ExtendingIsAllowed(disk: Disk, state: State)
    requires MayPersist(disk, state) && state != Stored(disk).value
    ensures forall resets :: JournalChange(At(disk, Current), Some(Encoded(state)), resets)
  {
    DecodedEncoded(state);
  }

  lemma MarkerAfterJournal(a: seq<Disk>, b: seq<Disk>, c: seq<Disk>, x: Option<Bytes>, y: Option<Bytes>)
    requires Within(a, b, x, y) && (Within(b, c, x, x) || Within(b, c, y, y))
    ensures Within(a, c, x, y)
  {
    WithinTwice(a, b, c, x, y);
  }

  class Store {
    const storage: Storage
    /** Digest of stored bytes; the digest function is a parameter of the model. */
    const hash: Bytes -> Hash256

    constructor (storage: Storage, hash: Bytes -> Hash256)
      ensures this.storage == storage && this.hash == hash
    {
      this.storage, this.hash := storage, hash;
    }

    /** A write that touches neither the journal nor the marker. */
    method QuietWrite(slot: Slot, bytes: Bytes, ghost y: Option<Bytes>) returns (ok: bool)
      requires storage.Valid() && slot != Current && slot != SafeMode
      modifies storage`slots, storage`log
      ensures storage.Valid() && SameExcept(old(storage.slots), storage.slots, slot)
      ensures Within(old(storage.log), storage.log, At(old(storage.slots), Current), y)
      ensures Onward(old(storage.log), storage.log)
      ensures ok ==> At(storage.slots, slot) == Some(bytes)
      ensures !storage.faulty ==> ok
    {
      ok := storage.DurableWrite(slot, bytes);
      QuietlyWithin(old(storage.log), storage.log, old(storage.slots), slot, y);
      QuietChanges(old(storage.log), storage.log, slot);
    }

    method QuietRemove(slot: Slot, ghost y: Option<Bytes>)
      requires storage.Valid() && slot != Current && slot != SafeMode
      modifies storage`slots, storage`log
      ensures storage.Valid() && SameExcept(old(storage.slots), storage.slots, slot)
      ensures Within(old(storage.log), storage.log, At(old(storage.slots), Current), y)
      ensures Onward(old(storage.log), storage.log)
    {
      var _ := storage.Remove(slot);
      QuietlyWithin(old(storage.log), storage.log, old(storage.slots), slot, y);
      QuietChanges(old(storage.log), storage.log, slot);
    }

    predicate HistoryReadsWell()
      reads storage
    {
      !storage.flaky && forall slot :: slot in storage.unreadable ==> !slot.History?
    }

    /** One place of the history takes over what stands in the place before it, if that can be read. */
    method ShiftOne(index: nat, ghost y: Option<Bytes>)
      requires storage.Valid() && index > 0
      modifies storage`slots, storage`log
      ensures storage.Valid() && Within(old(storage.log), storage.log, At(old(storage.slots), Current), y)
      ensures Onward(old(storage.log), storage.log) && SameExcept(old(storage.slots), storage.slots, History(index))
      ensures !storage.faulty && HistoryReadsWell() ==>
                At(storage.slots, History(index)) == Newer(old(storage.slots), index)
    {
      hide Ordinary;
      var previous := storage.Read(History(index - 1), MAX_FILE_BYTES);
      if previous.Success? { var _ := QuietWrite(History(index), previous.bytes, y); }
    }

    /** archiveCurrentBestEffort: shift the history by one slot; every write may fail. */
    method ArchiveCurrent(current: Bytes, ghost y: Option<Bytes>) returns (ok: bool)
      requires storage.Valid()
      modifies storage`slots, storage`log
      ensures storage.Valid() && Within(old(storage.log), storage.log, At(old(storage.slots), Current), y)
      ensures Onward(old(storage.log), storage.log)
      ensures At(storage.slots, Current) == At(old(storage.slots), Current)
      ensures At(storage.slots, SafeMode) == At(old(storage.slots), SafeMode)
      ensures ok ==> At(storage.slots, History(0)) == Some(current)
      ensures !storage.faulty && HistoryReadsWell() ==> ok && Shifted(old(storage.slots), storage.slots, current)
    {
      hide Ordinary;
      ghost var x := At(storage.slots, Current);
      var index := HISTORY_DEPTH - 1;
      while index > 0
        invariant 0 <= index < HISTORY_DEPTH
        invariant storage.Valid() && Within(old(storage.log), storage.log, x, y)
        invariant Onward(old(storage.log), storage.log)
        invariant At(storage.slots, Current) == x
        invariant At(storage.slots, SafeMode) == At(old(storage.slots), SafeMode)
        invariant forall i: nat :: i <= index ==> At(storage.slots, History(i)) == At(old(storage.slots), History(i))
        invariant !storage.faulty && HistoryReadsWell() ==>
          forall i: nat :: index < i < HISTORY_DEPTH ==> At(storage.slots, History(i)) == Newer(old(storage.slots), i)
      {
        ghost var before := storage.log;
        ShiftOne(index, y);
        WithinTwice(old(storage.log), before, storage.log, x, y);
        index := index - 1;
      }
      ghost var before := storage.log;
      ok := QuietWrite(History(0), current, y);
      WithinTwice(old(storage.log), before, storage.log, x, y);
    }

    /** persistStateInternal: temporary write, atomic replace, then history. */
    method PersistState(state: State, archiveCurrent: bool) returns (ok: bool)
      requires storage.Valid()
      modifies storage`slots, storage`log
      ensures storage.Valid()
      ensures Within(old(storage.log), storage.log, At(old(storage.slots), Current), Some(Encoded(state)))
      ensures ok ==> ValidState(state) && At(storage.slots, Current) == Some(Encoded(state))
      ensures At(storage.slots, Current) == At(old(storage.slots), Current)
              || (ValidState(state) && At(storage.slots, Current) == Some(Encoded(state)))
      ensures !storage.faulty && ValidState(state) ==> ok
      ensures forall resets :: JournalChange(At(old(storage.slots), Current), Some(Encoded(state)), resets) ==>
                Ordinary(old(storage.log), resets) ==> Ordinary(storage.log, resets)
      ensures At(storage.slots, SafeMode) == At(old(storage.slots), SafeMode)
      ensures !ok ==> SameHistory(old(storage.slots), storage.slots)
      ensures ok && !storage.faulty && HistoryReadsWell() && Current !in storage.unreadable ==>
                var x := At(old(storage.slots), Current);
                if archiveCurrent && x.Some? && 0 < |x.value| <= MAX_FILE_BYTES
                then Shifted(old(storage.slots), storage.slots, x.value)
                else SameHistory(old(storage.slots), storage.slots)
    {
      hide Encoded, JournalChange, Ordinary, ValidState;
      ghost var x, y := At(storage.slots, Current), Some(Encoded(state));
      var bytes := EncodeJournal(state);
      if bytes == [] {
        if ValidState(state) { ValidStateFits(state); }
        return false;
      }
      var currentBytes: Bytes := [];
      if archiveCurrent {
        var current := storage.Read(Current, MAX_FILE_BYTES);
        if current.Success? { currentBytes := current.bytes; }
      }
      ok := ReplaceCurrent(bytes);
      ghost var log1 := storage.log;
      if !ok {
        QuietRemove(CurrentTemp, y);
      } else if currentBytes != [] {
        var _ := ArchiveCurrent(currentBytes, y);
      }
      assert Within(log1, storage.log, x, y);
      WithinTwice(old(storage.log), log1, storage.log, x, y);
    }

    method ReplaceCurrent(bytes: Bytes) returns (ok: bool)
      requires storage.Valid()
      modifies storage`slots, storage`log
      ensures storage.Valid()
      ensures Within(old(storage.log), storage.log, At(old(storage.slots), Current), Some(bytes))
      ensures ok ==> At(storage.slots, Current) == Some(bytes)
      ensures At(storage.slots, Current) == At(old(storage.slots), Current) || At(storage.slots, Current) == Some(bytes)
      ensures !storage.faulty ==> ok
      ensures forall resets :: JournalChange(At(old(storage.slots), Current), Some(bytes), resets) ==>
                Ordinary(old(storage.log), resets) ==> Ordinary(storage.log, resets)
      ensures At(storage.slots, SafeMode) == At(old(storage.slots), SafeMode)
      ensures SameHistory(old(storage.slots), storage.slots)
    {
      hide JournalChange, Ordinary;
      ghost var x, y := At(storage.slots, Current), Some(bytes);
      ok := QuietWrite(CurrentTemp, bytes, y);
      if ok {
        ghost var log1 := storage.log;
        ok := storage.AtomicReplace(CurrentTemp, Current);
        if storage.log != log1 {
          forall resets | JournalChange(x, y, resets) ensures Ordinary(log1, resets) ==> Ordinary(storage.log, resets) {
            ReplaceStep(log1, storage.slots, resets);
          }
        }
        assert Within(log1, storage.log, x, y);
        WithinTwice(old(storage.log), log1, storage.log, x, y);
      }
    }

    /** writeSafeMode: the journal is untouched, and a marker that is there stays there. */
    method WriteSafeMode(marker: SafeModeMarker) returns (ok: bool)
      requires storage.Valid()
      modifies storage`slots, storage`log
      ensures storage.Valid() && MarkerOnly(old(storage.log), storage.log, old(storage.slots), storage.slots)
      ensures ok ==> ValidMarker(marker) && At(storage.slots, SafeMode) == Some(EncodedMarker(marker))
      ensures At(storage.slots, SafeMode) == At(old(storage.slots), SafeMode)
              || (ValidMarker(marker) && At(storage.slots, SafeMode) == Some(EncodedMarker(marker)))
      ensures !storage.faulty && ValidMarker(marker) ==> ok
    {
      hide Ordinary, EncodedMarker, ValidMarker, ContinuesIn;
      ghost var x := At(storage.slots, Current);
      var bytes := EncodeMarker(marker);
      if bytes == [] {
        if ValidMarker(marker) { MarkerFrame(marker, MARKER_MAGIC, MARKER_VERSION); }
        Unchanged(storage.log, storage.slots);
        return false;
      }
      ok := QuietWrite(SafeModeTemp, bytes, x);
      assert At(storage.slots, SafeMode) == At(old(storage.slots), SafeMode);
      if ok {
        ghost var log1 := storage.log;
        ok := storage.AtomicReplace(SafeModeTemp, SafeMode);
        if storage.log != log1 { EnterSafeModeStep(log1, storage.slots); }
        assert Within(log1, storage.log, x, x);
        WithinTwice(old(storage.log), log1, storage.log, x, x);
      }
      if !ok {
        ghost var log2 := storage.log;
        ghost var slots2 := storage.slots;
        QuietRemove(SafeModeTemp, x);
        assert At(storage.slots, SafeMode) == At(slots2, SafeMode);
        WithinTwice(old(storage.log), log2, storage.log, x, x);
      }
    }

    /** The marker for a failure: it names the journal's session, generation and digest, if there is a journal. */
    ghost function FailureMarker(reason: Reason, state: Option<State>, code: U32): SafeModeMarker {
      if state.None? then SafeModeMarker(seq(16, _ => 0), 0, reason, code, seq(32, _ => 0))
      else SafeModeMarker(state.value.sessionId, state.value.runtimeGeneration, reason, code, hash(Encoded(state.value)))
    }

    method WriteSafeModeForFailure(reason: Reason, state: Option<State>, diagnosticCode: U32) returns (ok: bool)
      requires storage.Valid() && !reason.UnknownReason? && (state.Some? ==> ValidState(state.value))
      modifies storage`slots, storage`log
      ensures storage.Valid() && MarkerOnly(old(storage.log), storage.log, old(storage.slots), storage.slots)
      ensures ok ==> Marks(storage.slots, FailureMarker(reason, state, diagnosticCode))
      ensures At(storage.slots, SafeMode) == At(old(storage.slots), SafeMode)
              || Marks(storage.slots, FailureMarker(reason, state, diagnosticCode))
      ensures !storage.faulty ==> ok
    {
      hide Encoded, Derivable, MarkerOnly, Marks, EncodedMarker;
      var marker := SafeModeMarker(seq(16, _ => 0), 0, reason, diagnosticCode, seq(32, _ => 0));
      if state.Some? {
        ValidStateFits(state.value);
        marker := marker.(sessionId := state.value.sessionId, runtimeGeneration := state.value.runtimeGeneration);
        var encoded := EncodeJournal(state.value);
        if encoded != [] { marker := marker.(journalHash := hash(encoded)); }
      }
      ok := WriteSafeMode(marker);
      MarkedBy(storage.slots, marker);
    }

    /** The marker that a refused beginning leaves. */
    ghost function DueAtBegin(disk: Disk, unreadable: set<Slot>, initial: State): SafeModeMarker {
      if Current in unreadable || (Current in disk && |disk[Current]| > MAX_FILE_BYTES) then
        FailureMarker(CorruptJournal, None, 3)
      else if Current !in disk then FailureMarker(JournalWriteFailure, Some(initial), 4)
      else if Stored(disk).None? then FailureMarker(CorruptJournal, None, 1)
      else if !IsClean(Stored(disk).value) || initial.runtimeGeneration <= Stored(disk).value.runtimeGeneration then
        FailureMarker(IncompleteSession, Stored(disk), 2)
      else FailureMarker(JournalWriteFailure, Some(initial), 4)
    }

    /** The marker that a refused transition leaves. */
    ghost function DueAtPersist(disk: Disk, unreadable: set<Slot>, state: State): SafeModeMarker {
      if !Legible(disk, unreadable) then FailureMarker(CorruptJournal, Some(state), 5)
      else if Stored(disk).None? then FailureMarker(Reason.RecoveryRequired, Some(state), 6)
      else if !Extends(Stored(disk).value, state) then FailureMarker(Reason.RecoveryRequired, Stored(disk), 6)
      else FailureMarker(JournalWriteFailure, Some(state), 7)
    }

    /** The marker that a start which is not clean leaves. */
    ghost function DueAtStart(disk: Disk, unreadable: set<Slot>): SafeModeMarker {
      if !Legible(disk, unreadable) then FailureMarker(CorruptJournal, None, 8)
      else if Stored(disk).None? then SafeModeMarker(seq(16, _ => 0), 0, CorruptJournal, 9, hash(disk[Current]))
      else if Stored(disk).value.phase.RecoveryRequired? then FailureMarker(Reason.RecoveryRequired, Stored(disk), 10)
      else FailureMarker(IncompleteSession, Stored(disk), 11)
    }

    /**
     * beginActivation: succeeds only with a canonical first state, on a disk that starts clean and whose journal,
     * if any, is of an earlier generation; then it must succeed unless storage fails.
     */
    method BeginActivation(initial: State) returns (ok: bool)
      requires storage.Valid()
      modifies storage`slots, storage`log
      ensures storage.Valid()
      ensures ok ==> Canonical(initial) && MayBegin(old(storage.slots), storage.unreadable, initial)
      ensures ok ==> At(storage.slots, Current) == Some(Encoded(initial))
      ensures !storage.flaky && !storage.faulty && Canonical(initial) ==>
        MayBegin(old(storage.slots), storage.unreadable, initial) ==> ok
      ensures Within(old(storage.log), storage.log, At(old(storage.slots), Current),
                     if Canonical(initial) && MayBegin(old(storage.slots), storage.unreadable, initial)
                     then Some(Encoded(initial)) else At(old(storage.slots), Current))
      ensures Onward(old(storage.log), storage.log)
      ensures SafeMode in old(storage.slots) ==> SafeMode in storage.slots
      ensures !storage.flaky ==> At(storage.slots, SafeMode) == At(old(storage.slots), SafeMode)
                                 || Marks(storage.slots, DueAtBegin(old(storage.slots), storage.unreadable, initial))
      ensures !ok && Canonical(initial) && storage.ReadsWell(SafeMode) && SafeMode !in old(storage.slots)
              && !storage.faulty ==>
                Marks(storage.slots, DueAtBegin(old(storage.slots), storage.unreadable, initial))
    {
      hide Encoded, Replayed, Ordinary, Marks, FailureMarker, Decoded;
      if Stored(storage.slots).Some? { StoredFits(storage.slots); }
      var valid := ValidateState(initial);
      if !valid || !initial.phase.Preparing? || !initial.finalResult.NoResult? || |initial.records| != 1
         || !initial.records[0].kind.ActivationStarted? {
        return false;
      }
      var marker := storage.Read(SafeMode, MARKER_FILE_BYTES);
      if !marker.Missing? { return false; }
      var current := storage.Read(Current, MAX_FILE_BYTES);
      if current.Success? {
        var prior := DecodeJournal(current.bytes);
        if prior.None? {
          var _ := WriteSafeModeForFailure(CorruptJournal, None, 1);
          return false;
        }
        if !IsClean(prior.value) || initial.runtimeGeneration <= prior.value.runtimeGeneration {
          var _ := WriteSafeModeForFailure(IncompleteSession, prior, 2);
          return false;
        }
      } else if !current.Missing? {
        var _ := WriteSafeModeForFailure(CorruptJournal, None, 3);
        return false;
      }
      assert MayBegin(storage.slots, storage.unreadable, initial);
      BeginningIsAllowed(storage.slots, storage.unreadable, initial);
      ok := PersistState(initial, current.Success?);
      if !ok {
        ghost var log1 := storage.log;
        var _ := WriteSafeModeForFailure(JournalWriteFailure, Some(initial), 4);
        MarkerAfterJournal(old(storage.log), log1, storage.log, At(old(storage.slots), Current), Some(Encoded(initial)));
      }
    }

    /**
     * persistTransition: the journal on disk moves to `state` only if `state` extends it by at most one record;
     * asked again for what is already there it succeeds without writing.
     */
    method PersistTransition(state: State) returns (ok: bool)
      requires storage.Valid()
      modifies storage`slots, storage`log
      ensures storage.Valid()
      ensures ok ==> MayPersist(old(storage.slots), state) && At(storage.slots, Current) == Some(Encoded(state))
      ensures At(storage.slots, Current) == At(old(storage.slots), Current)
              || (MayPersist(old(storage.slots), state) && At(storage.slots, Current) == Some(Encoded(state)))
      ensures Within(old(storage.log), storage.log, At(old(storage.slots), Current),
                     if MayPersist(old(storage.slots), state) then Some(Encoded(state))
                     else At(old(storage.slots), Current))
      ensures !storage.flaky && Current !in storage.unreadable && ValidState(state) ==>
        Stored(old(storage.slots)) == Some(state) ==> ok && storage.slots == old(storage.slots)
      ensures !storage.flaky && !storage.faulty && Current !in storage.unreadable ==>
        MayPersist(old(storage.slots), state) ==> ok
      ensures Onward(old(storage.log), storage.log)
      ensures SafeMode in old(storage.slots) ==> SafeMode in storage.slots
      ensures !storage.flaky ==> At(storage.slots, SafeMode) == At(old(storage.slots), SafeMode)
                                 || Marks(storage.slots, DueAtPersist(old(storage.slots), storage.unreadable, state))
      ensures !ok && ValidState(state) && !storage.flaky && !storage.faulty ==>
                Marks(storage.slots, DueAtPersist(old(storage.slots), storage.unreadable, state))
    {
      hide Encoded, ValidState, Ordinary, Marks, FailureMarker;
      var valid := ValidateState(state);
      if !valid { return false; }
      if Stored(storage.slots).Some? { StoredFits(storage.slots); }
      var read := storage.Read(Current, MAX_FILE_BYTES);
      if !read.Success? {
        var _ := WriteSafeModeForFailure(CorruptJournal, Some(state), 5);
        return false;
      }
      var current := DecodeJournal(read.bytes);
      if current.None? || !Extends(current.value, state) {
        var _ := WriteSafeModeForFailure(Reason.RecoveryRequired, if current.Some? then current else Some(state), 6);
        return false;
      }
      StoredFits(storage.slots);
      if state == current.value { return true; }
      ExtendingIsAllowed(storage.slots, state);
      ok := PersistState(state, true);
      if !ok {
        ghost var log1 := storage.log;
        var _ := WriteSafeModeForFailure(JournalWriteFailure, Some(state), 7);
        MarkerAfterJournal(old(storage.log), log1, storage.log, At(old(storage.slots), Current), Some(Encoded(state)));
      }
    }

    /** assessStartupAndEnterSafeMode: anything but a clean start tries to leave a marker behind. */
    method AssessStartup() returns (a: StartupAssessment)
      requires storage.Valid()
      modifies storage`slots, storage`log
      ensures storage.Valid() && MarkerOnly(old(storage.log), storage.log, old(storage.slots), storage.slots)
      ensures a.state.Clean? ==> StartsClean(old(storage.slots), storage.unreadable) && storage.slots == old(storage.slots)
      ensures !storage.flaky && StartsClean(old(storage.slots), storage.unreadable) ==> a.state.Clean?
      ensures a.safeMode.Some? ==> Marks(storage.slots, a.safeMode.value)
      ensures a.journal.Some? ==> a.journal == Stored(old(storage.slots))
      ensures !storage.faulty ==> !a.safeModeWriteFailed
      ensures !storage.flaky ==> At(storage.slots, SafeMode) == At(old(storage.slots), SafeMode)
                                 || Marks(storage.slots, DueAtStart(old(storage.slots), storage.unreadable))
      ensures !a.state.Clean? && storage.ReadsWell(SafeMode) && SafeMode !in old(storage.slots) && !storage.faulty ==>
                Marks(storage.slots, DueAtStart(old(storage.slots), storage.unreadable))
      ensures !storage.flaky ==>
        (a.state.RecoverableIncomplete? <==>
           && SafeMode !in storage.unreadable && SafeMode !in old(storage.slots)
           && Legible(old(storage.slots), storage.unreadable) && Stored(old(storage.slots)).Some?
           && !Stored(old(storage.slots)).value.phase.Clean? && !Stored(old(storage.slots)).value.phase.RecoveryRequired?)
    {
      hide Encoded, ValidState, Ordinary, Within, EncodedMarker, DecodedMarker, Decoded;
      if Stored(storage.slots).Some? {
        StoredFits(storage.slots);
        ResultFollowsPhase(Stored(storage.slots).value);
        NamesSession(Stored(storage.slots).value);
      }
      var markerRead := storage.Read(SafeMode, MARKER_FILE_BYTES);
      if markerRead.Success? {
        var marker := DecodeMarker(markerRead.bytes);
        Unchanged(storage.log, storage.slots);
        return StartupAssessment(StartupState.RecoveryRequired, None, marker, false);
      }
      if !markerRead.Missing? {
        Unchanged(storage.log, storage.slots);
        return StartupAssessment(StartupState.RecoveryRequired, None, None, false);
      }
      var current := storage.Read(Current, MAX_FILE_BYTES);
      if current.Missing? {
        Unchanged(storage.log, storage.slots);
        return StartupAssessment(StartupState.Clean, None, None, false);
      }
      if !current.Success? {
        var wrote := WriteSafeModeForFailure(CorruptJournal, None, 8);
        return StartupAssessment(StartupState.RecoveryRequired, None, None, !wrote);
      }
      var state := DecodeJournal(current.bytes);
      if state.None? {
        var marker := SafeModeMarker(seq(16, _ => 0), 0, CorruptJournal, 9, hash(current.bytes));
        var wrote := WriteSafeMode(marker);
        MarkedBy(storage.slots, marker);
        return StartupAssessment(StartupState.RecoveryRequired, None, if wrote then Some(marker) else None, !wrote);
      }
      if IsClean(state.value) {
        Unchanged(storage.log, storage.slots);
        return StartupAssessment(StartupState.Clean, state, None, false);
      }
      var hardFailure := state.value.phase.RecoveryRequired? || state.value.finalResult.Failed?
                         || state.value.finalResult.RecoveryRequired?;
      var marker := SafeModeMarker(state.value.sessionId, state.value.runtimeGeneration,
                                   if hardFailure then Reason.RecoveryRequired else IncompleteSession,
                                   if hardFailure then 10 else 11, hash(current.bytes));
      var wrote := WriteSafeMode(marker);
      MarkedBy(storage.slots, marker);
      return StartupAssessment(if hardFailure then StartupState.RecoveryRequired else RecoverableIncomplete,
                               state, if wrote then Some(marker) else None, !wrote);
    }

    /**
     * Fail-closed startup: with stable reads, no activation begins after an assessment that was not clean, even
     * when the marker could not be written.
     */
    method AssessThenBegin(initial: State) returns (a: StartupAssessment, ok: bool)
      requires storage.Valid()
      modifies storage`slots, storage`log
      ensures !storage.flaky && !a.state.Clean? ==> !ok
      ensures !storage.flaky && a.state.Clean? && !storage.faulty && Canonical(initial) ==>
        (ok <==> MayBegin(old(storage.slots), storage.unreadable, initial))
    {
      a := AssessStartup();
      ok := BeginActivation(initial);
    }

    /** replaceWithVerifiedCleanState: the one way to overwrite a journal that no run extends. */
    method ReplaceWithVerifiedClean(clean: State, resetVerified: bool) returns (ok: bool)
      requires storage.Valid()
      modifies storage`slots, storage`log
      ensures storage.Valid()
      ensures ok ==> resetVerified && ValidState(clean) && IsClean(clean) && Stored(storage.slots) == Some(clean)
      ensures Within(old(storage.log), storage.log, At(old(storage.slots), Current),
                     if resetVerified && ValidState(clean) && IsClean(clean) then Some(Encoded(clean))
                     else At(old(storage.slots), Current))
      ensures At(storage.slots, SafeMode) == At(old(storage.slots), SafeMode)
      ensures !storage.faulty ==> (ok <==> resetVerified && ValidState(clean) && IsClean(clean))
      ensures Ordinary(old(storage.log), true) ==> Ordinary(storage.log, true)
    {
      hide Encoded, Replayed, Ordinary;
      var valid := ValidateState(clean);
      if !resetVerified || !valid || !IsClean(clean) { return false; }
      DecodedEncoded(clean);
      assert JournalChange(At(storage.slots, Current), Some(Encoded(clean)), true);
      ok := PersistState(clean, true);
    }

    /** What a verified reset must find to leave safe mode. */
    ghost predicate MayClear(session: SessionId, generation: U64, resetVerified: bool)
      reads storage
    {
      && resetVerified && !AllZero(session) && generation != 0 && MayRelease(storage.slots)
      && Stored(storage.slots).value.sessionId == session && Stored(storage.slots).value.runtimeGeneration == generation
    }

    /** The checks before safe mode is left, with the marker and the journal as they can be read. */
    method CheckClear(session: SessionId, generation: U64, resetVerified: bool) returns (allowed: bool)
      requires storage.Valid()
      ensures allowed ==> MayClear(session, generation, resetVerified)
      ensures storage.ReadsWell(Current) && storage.ReadsWell(SafeMode) ==>
        (allowed <==> MayClear(session, generation, resetVerified))
    {
      hide DecodedMarker, Decoded;
      if SafeMode in storage.slots { MarkerFits(storage.slots[SafeMode]); }
      if !resetVerified || AllZero(session) || generation == 0 { return false; }
      var markerRead := storage.Read(SafeMode, MARKER_FILE_BYTES);
      if !markerRead.Success? { return false; }
      var marker := DecodeMarker(markerRead.bytes);
      if marker.None? { return false; }
      if !AllZero(marker.value.sessionId)
         && (marker.value.sessionId != session || marker.value.runtimeGeneration != generation) {
        return false;
      }
      var current := LoadCurrent();
      allowed := current.Some? && IsClean(current.value) && current.value.sessionId == session
                 && current.value.runtimeGeneration == generation;
    }

    /** clearSafeModeAfterVerifiedReset */
    method ClearSafeMode(session: SessionId, generation: U64, resetVerified: bool) returns (ok: bool)
      requires storage.Valid()
      modifies storage`slots, storage`log
      ensures storage.Valid() && Within(old(storage.log), storage.log, At(old(storage.slots), Current), At(old(storage.slots), Current))
      ensures Onward(old(storage.log), storage.log)
      ensures ok ==> SafeMode !in storage.slots
      ensures SafeMode in old(storage.slots) && SafeMode !in storage.slots ==>
        old(MayClear(session, generation, resetVerified))
      ensures storage.ReadsWell(Current) && storage.ReadsWell(SafeMode) && !storage.faulty ==>
        (ok <==> old(MayClear(session, generation, resetVerified)))
    {
      hide Ordinary, DecodedMarker, Stored;
      ok := CheckClear(session, generation, resetVerified);
      if !ok { return; }
      ghost var before := storage.log;
      ok := storage.Remove(SafeMode);
      if storage.log != before { ReleaseStep(before, storage.slots); }
    }

    /** loadCurrent */
    method LoadCurrent() returns (s: Option<State>)
      requires storage.Valid()
      ensures s.Some? ==> s == Stored(storage.slots)
      ensures storage.ReadsWell(Current) ==> s == Stored(storage.slots)
    {
      hide Encoded, ValidState;
      if Stored(storage.slots).Some? { StoredFits(storage.slots); }
      var read := storage.Read(Current, MAX_FILE_BYTES);
      if !read.Success? { return None; }
      s := DecodeJournal(read.bytes);
    }
  }
}
