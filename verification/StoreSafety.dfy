/** What may happen to the stored journal and the safe-mode marker from one moment to the next, and over whole runs. */
module StoreSafety {
  import opened Words
  import opened Watchdog
  import opened CrashJournal
  import opened JournalCodec
  import opened MarkerCodec
  import opened JournalStorage

  predicate IsClean(s: State) {
    s.phase.Clean? && s.finalResult.Clean?
  }

  /** The only state beginActivation accepts. */
  predicate Canonical(s: State) {
    && ValidState(s) && s.phase.Preparing? && s.finalResult.NoResult?
    && |s.records| == 1 && s.records[0].kind.ActivationStarted?
  }

  predicate SameSession(a: State, b: State) {
    && a.sessionId == b.sessionId && a.planHash == b.planHash && a.runtimeGeneration == b.runtimeGeneration
    && a.lease == b.lease && a.snapshots == b.snapshots
  }

  /** stateExtendsCurrent */
  predicate Extends(current: State, next: State) {
    && SameSession(current, next)
    && |current.records| <= |next.records| <= |current.records| + 1
    && current.records <= next.records
    && (|next.records| == |current.records| ==> next == current)
  }

  /** The journal that the content of the Current slot encodes, if it does. */
  ghost function Journal(content: Option<Bytes>): Option<State> {
    if content.Some? then Decoded(content.value) else None
  }

  ghost function Stored(disk: Disk): Option<State> {
    Journal(At(disk, Current))
  }

  /** Nothing but a sound journal, or no journal at all. */
  ghost predicate Sound(disk: Disk) {
    Current in disk ==> Stored(disk).Some?
  }

  /** A new session starts on an empty slot, or over the clean journal of an earlier generation. */
  ghost predicate Begins(x: Option<Bytes>, y: Option<Bytes>) {
    && Journal(y).Some? && Canonical(Journal(y).value)
    && (x.None?
        || (Journal(x).Some? && IsClean(Journal(x).value)
            && Journal(x).value.runtimeGeneration < Journal(y).value.runtimeGeneration))
  }

  /** The running session gains exactly one record. */
  ghost predicate Advances(x: Option<Bytes>, y: Option<Bytes>) {
    && Journal(x).Some? && Journal(y).Some?
    && Extends(Journal(x).value, Journal(y).value)
    && |Journal(y).value.records| == |Journal(x).value.records| + 1
  }

  /** A verified reset puts a clean journal in the place of whatever was there. */
  ghost predicate ResetsTo(y: Option<Bytes>) {
    Journal(y).Some? && IsClean(Journal(y).value)
  }

  ghost predicate JournalChange(x: Option<Bytes>, y: Option<Bytes>, resets: bool := false) {
    x == y || Begins(x, y) || Advances(x, y) || (resets && ResetsTo(y))
  }

  /** The marker may go only while the journal on disk is clean and the marker, if it names a session, names that one. */
  ghost predicate MayRelease(disk: Disk) {
    && SafeMode in disk && DecodedMarker(disk[SafeMode]).Some?
    && Stored(disk).Some? && IsClean(Stored(disk).value)
    && var m, s := DecodedMarker(disk[SafeMode]).value, Stored(disk).value;
      AllZero(m.sessionId) || (m.sessionId == s.sessionId && m.runtimeGeneration == s.runtimeGeneration)
  }

  ghost predicate MarkerStep(a: Disk, b: Disk) {
    SafeMode in a && SafeMode !in b ==> MayRelease(a)
  }

  ghost predicate OrdinaryStep(a: Disk, b: Disk, resets: bool := false) {
    JournalChange(At(a, Current), At(b, Current), resets) && MarkerStep(a, b)
  }

  /** A run: every two consecutive disks are related by an ordinary step, or by a verified reset where that is allowed. */
  ghost predicate Ordinary(log: seq<Disk>, resets: bool := false) {
    forall i :: 0 <= i < |log| - 1 ==> OrdinaryStep(log[i], log[i + 1], resets)
  }

  /** What was a run, with or without resets, still is one. */
  ghost predicate Onward(before: seq<Disk>, after: seq<Disk>) {
    forall resets :: Ordinary(before, resets) ==> Ordinary(after, resets)
  }

  // ---------------------------------------------------------------- building runs

  lemma PushStep(log: seq<Disk>, next: Disk, resets: bool)
    requires |log| > 0 && Ordinary(log, resets) && OrdinaryStep(log[|log| - 1], next, resets)
    ensures Ordinary(log + [next], resets)
  {
    var longer := log + [next];
    forall i | 0 <= i < |longer| - 1 ensures OrdinaryStep(longer[i], longer[i + 1], resets) {
      if i < |log| - 1 { assert longer[i] == log[i] && longer[i + 1] == log[i + 1]; }
    }
  }

  /** Replacing the journal as allowed, and leaving the marker alone, is an ordinary step. */
  lemma ReplaceStep(log: seq<Disk>, next: Disk, resets: bool)
    requires |log| > 0 && JournalChange(At(log[|log| - 1], Current), At(next, Current), resets)
    requires At(next, SafeMode) == At(log[|log| - 1], SafeMode)
    ensures Ordinary(log, resets) ==> Ordinary(log + [next], resets)
  {
    hide Ordinary;
    if Ordinary(log, resets) { PushStep(log, next, resets); }
  }

  /** Changes to the temporary and history slots are no steps at all. */
  lemma QuietChanges(before: seq<Disk>, after: seq<Disk>, slot: Slot)
    requires |before| > 0 && ContinuesIn(before, after, before[|before| - 1], slot)
    requires slot != Current && slot != SafeMode
    ensures Onward(before, after)
  {
    forall resets | Ordinary(before, resets) ensures Ordinary(after, resets) { QuietRun(before, after, slot, resets); }
  }

  lemma QuietRun(before: seq<Disk>, after: seq<Disk>, slot: Slot, resets: bool)
    requires |before| > 0 && Ordinary(before, resets) && ContinuesIn(before, after, before[|before| - 1], slot)
    requires slot != Current && slot != SafeMode
    ensures Ordinary(after, resets)
  {
    var start := before[|before| - 1];
    forall i | 0 <= i < |after| - 1 ensures OrdinaryStep(after[i], after[i + 1], resets) {
      if i < |before| - 1 {
        assert after[i] == before[i] && after[i + 1] == before[i + 1];
      } else {
        assert SameExcept(start, after[i + 1], slot);
        assert i >= |before| ==> SameExcept(start, after[i], slot);
        assert At(after[i], Current) == At(after[i + 1], Current) && At(after[i], SafeMode) == At(after[i + 1], SafeMode);
      }
    }
  }

  lemma QuietlyWithin(before: seq<Disk>, after: seq<Disk>, start: Disk, slot: Slot, y: Option<Bytes>)
    requires ContinuesIn(before, after, start, slot) && slot != Current
    ensures Within(before, after, At(start, Current), y)
  {
    forall i | |before| <= i < |after| ensures At(after[i], Current) == At(start, Current) {
      assert SameExcept(start, after[i], slot);
    }
  }

  /** The log grew, and each new disk has one of two contents in its Current slot. */
  ghost predicate Within(before: seq<Disk>, after: seq<Disk>, x: Option<Bytes>, y: Option<Bytes>) {
    && before <= after
    && forall i :: |before| <= i < |after| ==> At(after[i], Current) == x || At(after[i], Current) == y
  }

  lemma WithinTwice(a: seq<Disk>, b: seq<Disk>, c: seq<Disk>, x: Option<Bytes>, y: Option<Bytes>)
    requires Within(a, b, x, y) && Within(b, c, x, y)
    ensures Within(a, c, x, y)
  {
    forall i | |a| <= i < |c| ensures At(c[i], Current) == x || At(c[i], Current) == y {
      if i < |b| { assert c[i] == b[i]; }
    }
  }

  // ---------------------------------------------------------------- whole runs

  /** A crash cuts a run short, and what is left is a run. */
  lemma CrashLeavesRun(log: seq<Disk>, n: nat, resets: bool)
    requires n <= |log| && Ordinary(log, resets)
    ensures Ordinary(log[..n], resets)
  {
    forall i | 0 <= i < n - 1 ensures OrdinaryStep(log[..n][i], log[..n][i + 1], resets) {
      assert OrdinaryStep(log[i], log[i + 1], resets);
    }
  }

  /** Crash safety: at no moment of a run, whatever failed or tore, is the stored journal unreadable. */
  lemma {:induction false} JournalStaysSound(log: seq<Disk>, i: nat, resets: bool)
    requires i < |log| && Ordinary(log, resets) && Sound(log[0])
    ensures Sound(log[i])
  {
    if i > 0 {
      JournalStaysSound(log, i - 1, resets);
      assert OrdinaryStep(log[i - 1], log[i - 1 + 1], resets);
    }
  }

  /** What one journal is to a later one of the same session, n moments on. */
  ghost predicate GrownFrom(a: State, b: State, n: nat) {
    && a == b.(records := a.records, phase := a.phase, finalResult := a.finalResult)
    && a.records <= b.records && |b.records| <= |a.records| + n
  }

  lemma OneMoment(a: Disk, b: Disk)
    requires OrdinaryStep(a, b) && Stored(a).Some?
    ensures Stored(b).Some?
    ensures Stored(a).value.runtimeGeneration <= Stored(b).value.runtimeGeneration
    ensures Stored(a).value.runtimeGeneration == Stored(b).value.runtimeGeneration ==>
      GrownFrom(Stored(a).value, Stored(b).value, 1)
    ensures Stored(a).value.runtimeGeneration < Stored(b).value.runtimeGeneration ==>
      Stored(a).value.phase == Phase.Clean && Stored(a).value.finalResult == FinalResult.Clean
  {
    hide Decoded;
  }

  /** A session begins with the one record of its start, in phase Preparing, whatever was there before. */
  lemma NewSession(a: Disk, b: Disk)
    requires OrdinaryStep(a, b) && Stored(b).Some?
    requires Stored(a).Some? ==> Stored(a).value.runtimeGeneration < Stored(b).value.runtimeGeneration
    requires At(a, Current) != At(b, Current)
    ensures var s := Stored(b).value;
      && s.phase == Phase.Preparing && s.finalResult == NoResult
      && |s.records| == 1 && s.records[0] == Record(1, ActivationStarted, 0, s.records[0].generation)
  {
    hide Decoded, ValidHeader, DistinctSnapshotIds;
    var s := Stored(b).value;
    assert Canonical(s);
    assert s.records[..0] == [] && Replayed(s.records) == Step(START, 0, s.records[0]);
  }

  /** Once a journal is stored, there always is one, and its generation never falls. */
  lemma {:induction false} GenerationRises(log: seq<Disk>, i: nat, j: nat)
    requires i <= j < |log| && Ordinary(log) && Stored(log[i]).Some?
    ensures Stored(log[j]).Some? && Stored(log[i]).value.runtimeGeneration <= Stored(log[j]).value.runtimeGeneration
  {
    if i < j {
      var k := j - 1;
      GenerationRises(log, i, k);
      assert OrdinaryStep(log[k], log[k + 1]);
      OneMoment(log[k], log[j]);
    }
  }

  lemma GrownTwice(a: State, b: State, c: State, n: nat)
    requires GrownFrom(a, b, n) && GrownFrom(b, c, 1)
    ensures GrownFrom(a, c, n + 1)
  {
  }

  /**
   * Within a session the durable journal only ever grows at its end, by at most one record a moment; nothing
   * else about it changes.
   */
  lemma {:induction false} SessionOnlyGrows(log: seq<Disk>, i: nat, j: nat)
    requires i <= j < |log| && Ordinary(log) && Stored(log[i]).Some? && Stored(log[j]).Some?
    requires Stored(log[i]).value.runtimeGeneration == Stored(log[j]).value.runtimeGeneration
    ensures GrownFrom(Stored(log[i]).value, Stored(log[j]).value, j - i)
  {
    if i < j {
      var k := j - 1;
      GenerationRises(log, i, k);
      GenerationRises(log, k, j);
      SessionOnlyGrows(log, i, k);
      assert OrdinaryStep(log[k], log[k + 1]);
      OneMoment(log[k], log[j]);
      GrownTwice(Stored(log[i]).value, Stored(log[k]).value, Stored(log[j]).value, k - i);
    }
  }

  /** A session is succeeded by another only after its own journal, every record kept, ended clean. */
  lemma {:induction false} SessionEndsClean(log: seq<Disk>, i: nat, j: nat) returns (k: nat)
    requires i <= j < |log| && Ordinary(log) && Stored(log[i]).Some? && Stored(log[j]).Some?
    requires Stored(log[i]).value.runtimeGeneration < Stored(log[j]).value.runtimeGeneration
    ensures i <= k < j && Stored(log[k]).Some?
    ensures Stored(log[k]).value.phase == Phase.Clean && Stored(log[k]).value.finalResult == FinalResult.Clean
    ensures GrownFrom(Stored(log[i]).value, Stored(log[k]).value, k - i)
    decreases j
  {
    hide GrownFrom, OrdinaryStep, IsClean, Stored;
    k := j - 1;
    GenerationRises(log, i, k);
    if Stored(log[i]).value.runtimeGeneration < Stored(log[k]).value.runtimeGeneration {
      k := SessionEndsClean(log, i, k);
    } else {
      SessionOnlyGrows(log, i, k);
      assert OrdinaryStep(log[k], log[k + 1]);
      OneMoment(log[k], log[j]);
    }
  }

  /** Safe mode is left only over the clean journal it was entered for, resets or not. */
  lemma {:induction false} SafeModeSticks(log: seq<Disk>, i: nat, j: nat, resets: bool) returns (k: nat)
    requires i <= j < |log| && Ordinary(log, resets) && SafeMode in log[i] && SafeMode !in log[j]
    ensures i <= k < j && SafeMode in log[k] && DecodedMarker(log[k][SafeMode]).Some? && Stored(log[k]).Some?
    ensures var m, s := DecodedMarker(log[k][SafeMode]).value, Stored(log[k]).value;
      && s.phase == Phase.Clean && s.finalResult == FinalResult.Clean
      && ((exists b :: b in m.sessionId && b != 0) ==>
            m.sessionId == s.sessionId && m.runtimeGeneration == s.runtimeGeneration)
    decreases j
  {
    hide Decoded, DecodedMarker;
    k := j - 1;
    assert OrdinaryStep(log[k], log[k + 1], resets);
    assert MarkerStep(log[k], log[j]);
    if SafeMode !in log[k] {
      k := SafeModeSticks(log, i, k, resets);
    }
  }
}
