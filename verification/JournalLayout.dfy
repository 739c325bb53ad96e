/** The files byte by byte: where each field stands, in which order of bytes, under which number. */
module JournalLayout {
  import opened Words
  import opened Watchdog
  import opened CrashJournal
  import opened ByteStream
  import opened Crc32
  import opened JournalCodec
  import opened MarkerCodec

  function Place(k: nat): (p: nat)
    requires k < 8
    ensures p > 0
  {
    [1, 0x100, 0x1_0000, 0x100_0000, 0x1_0000_0000, 0x100_0000_0000, 0x1_0000_0000_0000, 0x100_0000_0000_0000][k]
  }

  /** The number stands in these bytes, least significant first. */
  predicate Has(bytes: Bytes, at: nat, n: nat, width: nat) {
    at + width <= |bytes| && width <= 8 && forall k :: 0 <= k < width ==> bytes[at + k] == n / Place(k) % 0x100
  }

  predicate HasBytes(bytes: Bytes, at: nat, part: Bytes) {
    at + |part| <= |bytes| && bytes[at..at + |part|] == part
  }

  // ---------------------------------------------------------------- the layout

  const KINDS := [
    ActivationStarted, ActionPrepared, ActionApplied, ActionVerified, ActivationCommitted, RollbackStarted,
    ActionRolledBack, RollbackVerified, CleanStop, FailureRecorded, RecordKind.RecoveryRequired]

  const PHASES := [
    Phase.Preparing, Phase.Applying, Phase.Active, Phase.RollingBack, Phase.Clean, Phase.RecoveryRequired]

  const RESULTS := [NoResult, FinalResult.Clean, Failed, FinalResult.RecoveryRequired]

  const REASONS := [IncompleteSession, CorruptJournal, Reason.RecoveryRequired, JournalWriteFailure, ManualRecovery]

  /** The header: four letters, the version, its own length, the payload's length and checksum, eight zeros. */
  predicate HeaderLaidOut(b: Bytes, letters: string) {
    && |letters| == 4 && |b| >= 24
    && (forall k :: 0 <= k < 4 ==> b[k] == letters[k] as int)
    && Has(b, 4, 1, 2) && Has(b, 6, 24, 2) && Has(b, 8, |b| - 24, 4) && Has(b, 12, Checksum(b[24..]), 4) && Has(b, 16, 0, 8)
  }

  predicate PrefixLaidOut(b: Bytes, s: State) {
    && |b| >= 104
    && HasBytes(b, 24, s.sessionId) && HasBytes(b, 40, s.planHash)
    && Has(b, 72, s.runtimeGeneration, 8) && Has(b, 80, s.lease.generation, 8) && Has(b, 88, s.lease.timeoutMilliseconds, 4)
    && 1 <= b[92] <= 6 && PHASES[b[92] - 1] == s.phase && b[93] == 0
    && 0 <= b[94] <= 3 && RESULTS[b[94]] == s.finalResult && b[95] == 0
    && Has(b, 96, |s.records|, 2) && Has(b, 98, |s.snapshots|, 2) && Has(b, 100, 0, 4)
  }

  predicate RecordLaidOut(b: Bytes, at: nat, r: Record) {
    && at + 24 <= |b|
    && Has(b, at, r.sequence, 8)
    && 1 <= b[at + 8] <= 11 && KINDS[b[at + 8] - 1] == r.kind && b[at + 9] == 0
    && Has(b, at + 10, 0, 2) && Has(b, at + 12, r.actionId, 4) && Has(b, at + 16, r.generation, 8)
  }

  predicate SnapshotLaidOut(b: Bytes, at: nat, x: Snapshot) {
    Has(b, at, x.snapshotId, 8) && HasBytes(b, at + 8, x.sha256) && Has(b, at + 40, x.generation, 8)
  }

  predicate LaidOut(b: Bytes, s: State) {
    && |b| == 104 + 24 * |s.records| + 48 * |s.snapshots|
    && HeaderLaidOut(b, "HJR1") && PrefixLaidOut(b, s)
    && (forall i :: 0 <= i < |s.records| ==> RecordLaidOut(b, 104 + 24 * i, s.records[i]))
    && (forall i :: 0 <= i < |s.snapshots| ==> SnapshotLaidOut(b, 104 + 24 * |s.records| + 48 * i, s.snapshots[i]))
  }

  predicate MarkerLaidOut(b: Bytes, m: SafeModeMarker) {
    && |b| == 88 && HeaderLaidOut(b, "HSM1")
    && HasBytes(b, 24, m.sessionId) && Has(b, 40, m.runtimeGeneration, 8)
    && 1 <= b[48] <= 5 && REASONS[b[48] - 1] == m.reason && b[49] == 0
    && Has(b, 50, 0, 2) && Has(b, 52, m.diagnosticCode, 4) && HasBytes(b, 56, m.journalHash)
  }

  // ---------------------------------------------------------------- pieces

  lemma {:induction false} LeDigit(n: nat, width: nat, k: nat)
    requires k < width <= 8
    ensures Le(n, width)[k] == n / Place(k) % 0x100
    decreases k
  {
    if k > 0 {
      LeDigit(n / 0x100, width - 1, k - 1);
      DivTwice(n, k);
    }
  }

  lemma DivTwice(n: nat, k: nat)
    requires 0 < k < 8
    ensures n / 0x100 / Place(k - 1) == n / Place(k)
  {
  }

  lemma HasWord(b: Bytes, at: nat, n: nat, width: nat)
    requires width <= 8 && at + width <= |b| && b[at..at + width] == Le(n, width)
    ensures Has(b, at, n, width)
  {
    hide Le, Place;
    forall k | 0 <= k < width ensures b[at + k] == n / Place(k) % 0x100 {
      LeDigit(n, width, k);
      assert b[at..at + width][k] == b[at + k];
    }
  }

  lemma HasShifted(part: Bytes, b: Bytes, off: nat, at: nat, n: nat, width: nat)
    requires HasBytes(b, off, part) && Has(part, at, n, width)
    ensures Has(b, off + at, n, width)
  {
    hide Place;
    forall k | 0 <= k < width ensures b[off + at + k] == n / Place(k) % 0x100 {
      assert b[off..off + |part|][at + k] == b[off + at + k];
    }
  }

  lemma SameWord(b: Bytes, c: Bytes, at: nat, n: nat, width: nat)
    requires Has(b, at, n, width) && Has(c, at, n, width)
    ensures at + width <= |b| && at + width <= |c| && b[at..at + width] == c[at..at + width]
  {
    hide Place;
    var x, y := b[at..at + width], c[at..at + width];
    forall k | 0 <= k < width ensures x[k] == y[k] {
      assert x[k] == b[at + k] == n / Place(k) % 0x100 && y[k] == c[at + k];
    }
  }

  lemma Second(x: Bytes, y: Bytes, z: Bytes)
    ensures (x + y + z)[|x|..|x| + |y|] == y
  {
  }

  /** Five pieces in a row, each where the ones before it end. */
  lemma FiveInRow(a: Bytes, b: Bytes, c: Bytes, d: Bytes, e: Bytes)
    ensures var s := a + b + c + d + e;
      && HasBytes(s, 0, a) && HasBytes(s, |a|, b) && HasBytes(s, |a| + |b|, c)
      && HasBytes(s, |a| + |b| + |c|, d) && HasBytes(s, |a| + |b| + |c| + |d|, e)
  {
    var s := a + b + c + d + e;
    assert s == [] + a + (b + c + d + e) && s == a + b + (c + d + e) && s == (a + b) + c + (d + e);
    assert s == (a + b + c) + d + e && s == (a + b + c + d) + e + [];
    Second([], a, b + c + d + e);
    Second(a, b, c + d + e);
    Second(a + b, c, d + e);
    Second(a + b + c, d, e);
    Second(a + b + c + d, e, []);
  }

  lemma Within(part: Bytes, b: Bytes, off: nat, at: nat, piece: Bytes)
    requires HasBytes(b, off, part) && HasBytes(part, at, piece)
    ensures HasBytes(b, off + at, piece)
  {
    var x := b[off + at..off + at + |piece|];
    forall k | 0 <= k < |piece| ensures x[k] == piece[k] {
      assert b[off + at + k] == b[off..off + |part|][at + k] == part[at..at + |piece|][k];
    }
  }

  lemma HeaderPiecesLie(h: Header)
    ensures var b := Join(HeaderPieces(h));
      && |b| == 24 && Has(b, 0, h.magic, 4) && Has(b, 4, h.version, 2) && Has(b, 6, h.headerBytes, 2)
      && Has(b, 8, h.payloadBytes, 4) && Has(b, 12, h.crc, 4) && Has(b, 16, h.reserved, 8)
  {
    hide Le, Has, Join;
    HeaderJoin(h);
    var x := Le(h.magic, 4) + Le(h.version, 2) + Le(h.headerBytes, 2) + Le(h.payloadBytes, 4) + Le(h.crc, 4);
    var b := x + Le(h.reserved, 8);
    FiveInRow(Le(h.magic, 4), Le(h.version, 2), Le(h.headerBytes, 2), Le(h.payloadBytes, 4), Le(h.crc, 4));
    HasWord(x, 0, h.magic, 4);
    HasWord(x, 4, h.version, 2);
    HasWord(x, 6, h.headerBytes, 2);
    HasWord(x, 8, h.payloadBytes, 4);
    HasWord(x, 12, h.crc, 4);
    HasWord(b, 16, h.reserved, 8);
    assert HasBytes(b, 0, x);
    HasShifted(x, b, 0, 0, h.magic, 4);
    HasShifted(x, b, 0, 4, h.version, 2);
    HasShifted(x, b, 0, 6, h.headerBytes, 2);
    HasShifted(x, b, 0, 8, h.payloadBytes, 4);
    HasShifted(x, b, 0, 12, h.crc, 4);
  }

  lemma PrefixPiecesLie(p: Prefix)
    ensures var b := Join(PrefixPieces(p));
      && |b| == 80 && HasBytes(b, 0, p.sessionId) && HasBytes(b, 16, p.planHash)
      && Has(b, 48, p.runtimeGeneration, 8) && Has(b, 56, p.leaseGeneration, 8) && Has(b, 64, p.leaseTimeout, 4)
      && Has(b, 68, p.phase, 2) && Has(b, 70, p.finalResult, 2) && Has(b, 72, p.recordCount, 2)
      && Has(b, 74, p.snapshotCount, 2) && Has(b, 76, p.reserved, 4)
  {
    hide Le, Has, Join;
    PrefixJoin(p);
    var x, y := PrefixHead(p), PrefixTail(p);
    var b := x + y;
    assert HasBytes(b, 0, x) && HasBytes(b, 68, y);
    FiveInRow(p.sessionId, p.planHash, Le(p.runtimeGeneration, 8), Le(p.leaseGeneration, 8), Le(p.leaseTimeout, 4));
    FiveInRow(Le(p.phase, 2), Le(p.finalResult, 2), Le(p.recordCount, 2), Le(p.snapshotCount, 2), Le(p.reserved, 4));
    Within(x, b, 0, 0, p.sessionId);
    Within(x, b, 0, 16, p.planHash);
    WordWithin(x, b, 0, 48, p.runtimeGeneration, 8);
    WordWithin(x, b, 0, 56, p.leaseGeneration, 8);
    WordWithin(x, b, 0, 64, p.leaseTimeout, 4);
    WordWithin(y, b, 68, 0, p.phase, 2);
    WordWithin(y, b, 68, 2, p.finalResult, 2);
    WordWithin(y, b, 68, 4, p.recordCount, 2);
    WordWithin(y, b, 68, 6, p.snapshotCount, 2);
    WordWithin(y, b, 68, 8, p.reserved, 4);
  }

  lemma WordWithin(part: Bytes, b: Bytes, off: nat, at: nat, n: nat, width: nat)
    requires HasBytes(b, off, part) && HasBytes(part, at, Le(n, width)) && width <= 8
    ensures Has(b, off + at, n, width)
  {
    hide Le, Has;
    HasWord(part, at, n, width);
    HasShifted(part, b, off, at, n, width);
  }

  lemma RecordPiecesLie(r: RawRecord)
    ensures var b := Join(RecordPieces(r));
      && |b| == 24 && Has(b, 0, r.sequence, 8) && Has(b, 8, r.kind, 2) && Has(b, 10, r.reserved, 2)
      && Has(b, 12, r.actionId, 4) && Has(b, 16, r.generation, 8)
  {
    hide Le, Has, Join;
    JoinOfFive(Le(r.sequence, 8), Le(r.kind, 2), Le(r.reserved, 2), Le(r.actionId, 4), Le(r.generation, 8));
    FiveInRow(Le(r.sequence, 8), Le(r.kind, 2), Le(r.reserved, 2), Le(r.actionId, 4), Le(r.generation, 8));
    var b := Join(RecordPieces(r));
    HasWord(b, 0, r.sequence, 8);
    HasWord(b, 8, r.kind, 2);
    HasWord(b, 10, r.reserved, 2);
    HasWord(b, 12, r.actionId, 4);
    HasWord(b, 16, r.generation, 8);
  }

  lemma SnapshotPiecesLie(x: Snapshot)
    ensures |Join(SnapshotPieces(x))| == 48 && SnapshotLaidOut(Join(SnapshotPieces(x)), 0, x)
  {
    hide Le, Has, Join;
    JoinOfThree(Le(x.snapshotId, 8), x.sha256, Le(x.generation, 8));
    FiveInRow(Le(x.snapshotId, 8), x.sha256, Le(x.generation, 8), [], []);
    var b := Join(SnapshotPieces(x));
    assert b == Le(x.snapshotId, 8) + x.sha256 + Le(x.generation, 8) + [] + [];
    HasWord(b, 0, x.snapshotId, 8);
    HasWord(b, 40, x.generation, 8);
  }

  // ---------------------------------------------------------------- frames

  lemma FrameLaidOut(magic: U32, version: U16, payload: Bytes, letters: string)
    requires |letters| == 4 && version == 1 && |payload| < 0x1_0000_0000
    requires forall k :: 0 <= k < 4 ==> letters[k] as int == magic / Place(k) % 0x100
    ensures var b := Frame(magic, version, payload);
      |b| == 24 + |payload| && b[24..] == payload && HeaderLaidOut(b, letters)
  {
    hide Le, Has, Join;
    var h := HeaderFor(magic, version, payload);
    var x := Join(HeaderPieces(h));
    var b := Frame(magic, version, payload);
    HeaderPiecesLie(h);
    assert b == x + payload && b[24..] == payload && HasBytes(b, 0, x);
    HasShifted(x, b, 0, 0, magic, 4);
    HasShifted(x, b, 0, 4, 1, 2);
    HasShifted(x, b, 0, 6, 24, 2);
    HasShifted(x, b, 0, 8, |payload|, 4);
    HasShifted(x, b, 0, 12, Checksum(payload), 4);
    HasShifted(x, b, 0, 16, 0, 8);
    FourLetters(b, magic, letters);
  }

  lemma FourLetters(b: Bytes, magic: U32, letters: string)
    requires |letters| == 4 && Has(b, 0, magic, 4)
    requires forall k :: 0 <= k < 4 ==> letters[k] as int == magic / Place(k) % 0x100
    ensures forall k :: 0 <= k < 4 ==> b[k] == letters[k] as int
  {
    hide Place;
    forall k | 0 <= k < 4 ensures b[k] == letters[k] as int {
      assert b[0 + k] == magic / Place(k) % 0x100;
    }
  }

  lemma Letters(n: nat)
    ensures n == 0x3152_4a48 ==> forall k :: 0 <= k < 4 ==> "HJR1"[k] as int == n / Place(k) % 0x100
    ensures n == 0x314d_5348 ==> forall k :: 0 <= k < 4 ==> "HSM1"[k] as int == n / Place(k) % 0x100
  {
  }

  /** Two bytes that hold a number below 256. */
  lemma SmallWord(b: Bytes, at: nat, n: nat)
    requires Has(b, at, n, 2) && n < 0x100
    ensures b[at] == n && b[at + 1] == 0
  {
    assert b[at + 0] == n / Place(0) % 0x100 && b[at + 1] == n / Place(1) % 0x100;
  }

  lemma Codes()
    ensures forall k: RecordKind :: !k.UnknownKind? ==> 1 <= KindCode(k) <= 11 && KINDS[KindCode(k) - 1] == k
    ensures forall p: Phase :: !p.UnknownPhase? ==> 1 <= PhaseCode(p) <= 6 && PHASES[PhaseCode(p) - 1] == p
    ensures forall r: FinalResult :: !r.UnknownResult? ==> 0 <= ResultCode(r) <= 3 && RESULTS[ResultCode(r)] == r
    ensures forall r: Reason :: !r.UnknownReason? ==> 1 <= ReasonCode(r) <= 5 && REASONS[ReasonCode(r) - 1] == r
  {
  }

  lemma RecordLies(b: Bytes, at: nat, r: Record)
    requires HasBytes(b, at, Join(RecordPieces(RawOf(r)))) && !r.kind.UnknownKind?
    ensures RecordLaidOut(b, at, r)
  {
    hide Has, Join, KINDS, KindCode;
    Codes();
    var x := Join(RecordPieces(RawOf(r)));
    RecordPiecesLie(RawOf(r));
    HasShifted(x, b, at, 0, r.sequence, 8);
    HasShifted(x, b, at, 8, KindCode(r.kind), 2);
    HasShifted(x, b, at, 10, 0, 2);
    HasShifted(x, b, at, 12, r.actionId, 4);
    HasShifted(x, b, at, 16, r.generation, 8);
    SmallWord(b, at + 8, KindCode(r.kind));
  }

  lemma SnapshotLies(b: Bytes, at: nat, x: Snapshot)
    requires HasBytes(b, at, Join(SnapshotPieces(x)))
    ensures SnapshotLaidOut(b, at, x)
  {
    hide Has, Join;
    var part := Join(SnapshotPieces(x));
    SnapshotPiecesLie(x);
    HasShifted(part, b, at, 0, x.snapshotId, 8);
    Within(part, b, at, 8, x.sha256);
    HasShifted(part, b, at, 40, x.generation, 8);
  }

  lemma RecordsPush(init: seq<Record>, r: Record)
    ensures RecordsBytes(init + [r]) == RecordsBytes(init) + Join(RecordPieces(RawOf(r)))
  {
    hide Join, RecordPieces, RawOf;
    assert (init + [r])[..|init|] == init;
  }

  lemma LastRecord(b: Bytes, at: nat, init: seq<Record>, r: Record)
    requires HasBytes(b, at, RecordsBytes(init + [r]))
    ensures HasBytes(b, at, RecordsBytes(init))
    ensures HasBytes(b, at + 24 * |init|, Join(RecordPieces(RawOf(r))))
  {
    hide Join, RecordPieces, HasBytes, RawOf, RecordsBytes;
    RecordsPush(init, r);
    RecordsLength(init);
    TwoParts(b, at, RecordsBytes(init), Join(RecordPieces(RawOf(r))));
  }

  lemma TwoParts(b: Bytes, at: nat, x: Bytes, y: Bytes)
    requires HasBytes(b, at, x + y)
    ensures HasBytes(b, at, x) && HasBytes(b, at + |x|, y)
  {
    assert HasBytes(x + y, 0, x) && HasBytes(x + y, |x|, y);
    Within(x + y, b, at, 0, x);
    Within(x + y, b, at, |x|, y);
  }

  lemma {:induction false} RecordsLie(b: Bytes, at: nat, records: seq<Record>)
    requires HasBytes(b, at, RecordsBytes(records)) && KnownKinds(records)
    ensures forall i :: 0 <= i < |records| ==> RecordLaidOut(b, at + 24 * i, records[i])
  {
    hide RecordLaidOut, Join, RecordPieces, RecordsBytes, HasBytes;
    if |records| > 0 {
      var n := |records| - 1;
      assert records == records[..n] + [records[n]];
      LastRecord(b, at, records[..n], records[n]);
      RecordsLie(b, at, records[..n]);
      RecordLies(b, at + 24 * n, records[n]);
    }
  }

  lemma SnapshotsPush(init: seq<Snapshot>, x: Snapshot)
    ensures SnapshotsBytes(init + [x]) == SnapshotsBytes(init) + Join(SnapshotPieces(x))
  {
    hide Join, SnapshotPieces;
    assert (init + [x])[..|init|] == init;
  }

  lemma LastSnapshot(b: Bytes, at: nat, init: seq<Snapshot>, x: Snapshot)
    requires HasBytes(b, at, SnapshotsBytes(init + [x]))
    ensures HasBytes(b, at, SnapshotsBytes(init)) && HasBytes(b, at + 48 * |init|, Join(SnapshotPieces(x)))
  {
    hide Join, SnapshotPieces, HasBytes, SnapshotsBytes;
    SnapshotsPush(init, x);
    SnapshotsLength(init);
    TwoParts(b, at, SnapshotsBytes(init), Join(SnapshotPieces(x)));
  }

  lemma {:induction false} SnapshotsLie(b: Bytes, at: nat, snapshots: seq<Snapshot>)
    requires HasBytes(b, at, SnapshotsBytes(snapshots))
    ensures forall i :: 0 <= i < |snapshots| ==> SnapshotLaidOut(b, at + 48 * i, snapshots[i])
  {
    hide SnapshotLaidOut, Join, SnapshotPieces, SnapshotsBytes, HasBytes;
    if |snapshots| > 0 {
      var n := |snapshots| - 1;
      assert snapshots == snapshots[..n] + [snapshots[n]];
      LastSnapshot(b, at, snapshots[..n], snapshots[n]);
      SnapshotsLie(b, at, snapshots[..n]);
      SnapshotLies(b, at + 48 * n, snapshots[n]);
    }
  }

  lemma PrefixLies(b: Bytes, s: State)
    requires HasBytes(b, 24, Join(PrefixPieces(PrefixOf(s)))) && |s.records| <= 160 && |s.snapshots| <= 16
    requires !s.phase.UnknownPhase? && !s.finalResult.UnknownResult?
    ensures PrefixLaidOut(b, s)
  {
    hide Has, Join, PHASES, RESULTS, PhaseCode, ResultCode;
    Codes();
    var p := PrefixOf(s);
    var x := Join(PrefixPieces(p));
    PrefixPiecesLie(p);
    Within(x, b, 24, 0, s.sessionId);
    Within(x, b, 24, 16, s.planHash);
    HasShifted(x, b, 24, 48, s.runtimeGeneration, 8);
    HasShifted(x, b, 24, 56, s.lease.generation, 8);
    HasShifted(x, b, 24, 64, s.lease.timeoutMilliseconds, 4);
    HasShifted(x, b, 24, 68, p.phase, 2);
    HasShifted(x, b, 24, 70, p.finalResult, 2);
    HasShifted(x, b, 24, 72, |s.records|, 2);
    HasShifted(x, b, 24, 74, |s.snapshots|, 2);
    HasShifted(x, b, 24, 76, 0, 4);
    SmallWord(b, 92, p.phase);
    SmallWord(b, 94, p.finalResult);
  }

  /** The three parts of the payload. */
  lemma PayloadLies(b: Bytes, s: State)
    requires HasBytes(b, 24, Payload(s))
    ensures HasBytes(b, 24, Join(PrefixPieces(PrefixOf(s)))) && HasBytes(b, 104, RecordsBytes(s.records))
    ensures HasBytes(b, 104 + 24 * |s.records|, SnapshotsBytes(s.snapshots))
  {
    hide Join, PrefixPieces, PrefixOf, HasBytes, RecordsBytes, SnapshotsBytes;
    var prefix, records := Join(PrefixPieces(PrefixOf(s))), RecordsBytes(s.records);
    PrefixLength(PrefixOf(s));
    RecordsLength(s.records);
    TwoParts(b, 24, prefix + records, SnapshotsBytes(s.snapshots));
    TwoParts(b, 24, prefix, records);
  }

  lemma EncodedLaidOut(s: State)
    requires ValidState(s)
    ensures LaidOut(Encoded(s), s)
  {
    hide Has, Join, PrefixLaidOut, RecordLaidOut, SnapshotLaidOut, HeaderLaidOut, Frame, Replayed, Checksum, PrefixPieces,
      PrefixOf, Payload, ValidSnapshot, DistinctSnapshotIds;
    var b := Encoded(s);
    PayloadLength(s);
    Letters(JOURNAL_MAGIC);
    FrameLaidOut(JOURNAL_MAGIC, JOURNAL_VERSION, Payload(s), "HJR1");
    assert HasBytes(b, 24, Payload(s));
    hide HasBytes;
    PayloadLies(b, s);
    PrefixLies(b, s);
    ReplayedKindsKnown(s.records);
    RecordsLie(b, 104, s.records);
    SnapshotsLie(b, 104 + 24 * |s.records|, s.snapshots);
  }

  lemma MarkerEncodedLaidOut(m: SafeModeMarker)
    requires ValidMarker(m)
    ensures MarkerLaidOut(EncodedMarker(m), m)
  {
    hide Has, Join, HeaderLaidOut, Frame, Checksum, REASONS, ReasonCode, Le;
    Codes();
    var raw := RawMarkerOf(m);
    var b, payload := EncodedMarker(m), RawMarkerBytes(raw);
    RawMarkerLength(raw);
    Letters(MARKER_MAGIC);
    FrameLaidOut(MARKER_MAGIC, MARKER_VERSION, payload, "HSM1");
    assert HasBytes(b, 24, payload);
    JoinOfFive(m.sessionId, Le(raw.runtimeGeneration, 8), Le(raw.reason, 2), Le(0, 2), Le(raw.diagnosticCode, 4));
    FiveInRow(m.sessionId, Le(raw.runtimeGeneration, 8), Le(raw.reason, 2), Le(0, 2), Le(raw.diagnosticCode, 4));
    var x := Join(MarkerPieces(raw));
    assert HasBytes(payload, 0, x) && HasBytes(payload, 32, m.journalHash);
    Within(payload, b, 24, 0, x);
    Within(payload, b, 24, 32, m.journalHash);
    Within(x, b, 24, 0, m.sessionId);
    WordWithin(x, b, 24, 16, m.runtimeGeneration, 8);
    WordWithin(x, b, 24, 24, raw.reason, 2);
    WordWithin(x, b, 24, 26, 0, 2);
    WordWithin(x, b, 24, 28, m.diagnosticCode, 4);
    SmallWord(b, 48, raw.reason);
  }

  // ---------------------------------------------------------------- nothing else is laid out so

  lemma Different()
    ensures |KINDS| == 11 && |PHASES| == 6 && |RESULTS| == 4 && |REASONS| == 5
    ensures forall i, j :: 0 <= i < j < |KINDS| ==> KINDS[i] != KINDS[j]
    ensures forall i, j :: 0 <= i < j < |PHASES| ==> PHASES[i] != PHASES[j]
    ensures forall i, j :: 0 <= i < j < |RESULTS| ==> RESULTS[i] != RESULTS[j]
    ensures forall i, j :: 0 <= i < j < |REASONS| ==> REASONS[i] != REASONS[j]
  {
  }

  /** The two strings agree from one place to another. */
  predicate Agree(b: Bytes, c: Bytes, from: nat, to: nat) {
    from <= to <= |b| && to <= |c| && b[from..to] == c[from..to]
  }

  lemma AgreeOn(b: Bytes, c: Bytes, x: nat, y: nat, z: nat)
    requires Agree(b, c, x, y) && Agree(b, c, y, z)
    ensures Agree(b, c, x, z)
  {
    assert b[x..z] == b[x..y] + b[y..z] && c[x..z] == c[x..y] + c[y..z];
  }

  lemma AgreeWord(b: Bytes, c: Bytes, from: nat, to: nat, n: nat, width: nat)
    requires Agree(b, c, from, to) && Has(b, to, n, width) && Has(c, to, n, width)
    ensures Agree(b, c, from, to + width)
  {
    hide Has;
    SameWord(b, c, to, n, width);
    AgreeOn(b, c, from, to, to + width);
  }

  lemma AgreeBytes(b: Bytes, c: Bytes, from: nat, to: nat, part: Bytes)
    requires Agree(b, c, from, to) && HasBytes(b, to, part) && HasBytes(c, to, part)
    ensures Agree(b, c, from, to + |part|)
  {
    AgreeOn(b, c, from, to, to + |part|);
  }

  lemma AgreeTwo(b: Bytes, c: Bytes, from: nat, to: nat)
    requires Agree(b, c, from, to) && to + 2 <= |b| && to + 2 <= |c| && b[to] == c[to] && b[to + 1] == c[to + 1]
    ensures Agree(b, c, from, to + 2)
  {
    assert b[to..to + 2] == [b[to], b[to + 1]] && c[to..to + 2] == [c[to], c[to + 1]];
    AgreeOn(b, c, from, to, to + 2);
  }

  lemma AgreePrefix(b: Bytes, c: Bytes, s: State)
    requires PrefixLaidOut(b, s) && PrefixLaidOut(c, s)
    ensures Agree(b, c, 24, 104)
  {
    hide Has, HasBytes, Agree, PHASES, RESULTS;
    Different();
    assert Agree(b, c, 24, 24) by { Nothing(b, c, 24); }
    AgreeBytes(b, c, 24, 24, s.sessionId);
    AgreeBytes(b, c, 24, 40, s.planHash);
    AgreeWord(b, c, 24, 72, s.runtimeGeneration, 8);
    AgreeWord(b, c, 24, 80, s.lease.generation, 8);
    AgreeWord(b, c, 24, 88, s.lease.timeoutMilliseconds, 4);
    AgreeTwo(b, c, 24, 92);
    AgreeTwo(b, c, 24, 94);
    AgreeWord(b, c, 24, 96, |s.records|, 2);
    AgreeWord(b, c, 24, 98, |s.snapshots|, 2);
    AgreeWord(b, c, 24, 100, 0, 4);
  }

  lemma Nothing(b: Bytes, c: Bytes, at: nat)
    requires at <= |b| && at <= |c|
    ensures Agree(b, c, at, at)
  {
  }

  lemma AgreeRecord(b: Bytes, c: Bytes, from: nat, at: nat, r: Record)
    requires Agree(b, c, from, at) && RecordLaidOut(b, at, r) && RecordLaidOut(c, at, r)
    ensures Agree(b, c, from, at + 24)
  {
    hide Has, Agree, KINDS;
    Different();
    AgreeWord(b, c, from, at, r.sequence, 8);
    AgreeTwo(b, c, from, at + 8);
    AgreeWord(b, c, from, at + 10, 0, 2);
    AgreeWord(b, c, from, at + 12, r.actionId, 4);
    AgreeWord(b, c, from, at + 16, r.generation, 8);
  }

  lemma AgreeSnapshot(b: Bytes, c: Bytes, from: nat, at: nat, x: Snapshot)
    requires Agree(b, c, from, at) && SnapshotLaidOut(b, at, x) && SnapshotLaidOut(c, at, x)
    ensures Agree(b, c, from, at + 48)
  {
    hide Has, HasBytes, Agree;
    AgreeWord(b, c, from, at, x.snapshotId, 8);
    AgreeBytes(b, c, from, at + 8, x.sha256);
    AgreeWord(b, c, from, at + 40, x.generation, 8);
  }

  lemma {:induction false} AgreeRecords(b: Bytes, c: Bytes, s: State, n: nat)
    requires LaidOut(b, s) && LaidOut(c, s) && n <= |s.records|
    ensures Agree(b, c, 24, 104 + 24 * n)
  {
    hide Agree, HeaderLaidOut, PrefixLaidOut, RecordLaidOut, SnapshotLaidOut;
    if n == 0 {
      AgreePrefix(b, c, s);
    } else {
      AgreeRecords(b, c, s, n - 1);
      AgreeRecord(b, c, 24, 104 + 24 * (n - 1), s.records[n - 1]);
    }
  }

  lemma {:induction false} AgreeSnapshots(b: Bytes, c: Bytes, s: State, n: nat)
    requires LaidOut(b, s) && LaidOut(c, s) && n <= |s.snapshots|
    ensures Agree(b, c, 24, 104 + 24 * |s.records| + 48 * n)
  {
    hide Agree, HeaderLaidOut, PrefixLaidOut, RecordLaidOut, SnapshotLaidOut;
    if n == 0 {
      AgreeRecords(b, c, s, |s.records|);
    } else {
      AgreeSnapshots(b, c, s, n - 1);
      AgreeSnapshot(b, c, 24, 104 + 24 * |s.records| + 48 * (n - 1), s.snapshots[n - 1]);
    }
  }

  lemma AgreeHeader(b: Bytes, c: Bytes, letters: string)
    requires HeaderLaidOut(b, letters) && HeaderLaidOut(c, letters) && |b| == |c| && Agree(b, c, 24, |b|)
    ensures b == c
  {
    hide Has, Checksum;
    assert b[..4] == c[..4];
    assert Agree(b, c, 0, 4) && b[24..] == c[24..];
    hide Agree;
    AgreeWord(b, c, 0, 4, 1, 2);
    AgreeWord(b, c, 0, 6, 24, 2);
    AgreeWord(b, c, 0, 8, |b| - 24, 4);
    AgreeWord(b, c, 0, 12, Checksum(b[24..]), 4);
    AgreeWord(b, c, 0, 16, 0, 8);
    AgreeOn(b, c, 0, 24, |b|);
    Whole(b, c);
  }

  lemma Whole(b: Bytes, c: Bytes)
    requires |b| == |c| && Agree(b, c, 0, |b|)
    ensures b == c
  {
    assert b[0..|b|] == b && c[0..|b|] == c;
  }

  /** The file of a valid journal is the one byte string with this layout. */
  lemma FileExactly(b: Bytes, s: State)
    requires ValidState(s)
    ensures b == Encoded(s) <==> LaidOut(b, s)
  {
    hide Agree, HeaderLaidOut, PrefixLaidOut, RecordLaidOut, SnapshotLaidOut, Frame, Payload, ValidState;
    EncodedLaidOut(s);
    if LaidOut(b, s) {
      AgreeSnapshots(b, Encoded(s), s, |s.snapshots|);
      AgreeHeader(b, Encoded(s), "HJR1");
    }
  }

  /** The file of a valid safe-mode marker is the one byte string with this layout. */
  lemma MarkerFileExactly(b: Bytes, m: SafeModeMarker)
    requires ValidMarker(m)
    ensures b == EncodedMarker(m) <==> MarkerLaidOut(b, m)
  {
    hide Agree, Has, HasBytes, HeaderLaidOut, EncodedMarker, ValidMarker, REASONS;
    MarkerEncodedLaidOut(m);
    var c := EncodedMarker(m);
    if MarkerLaidOut(b, m) {
      Different();
      Nothing(b, c, 24);
      AgreeBytes(b, c, 24, 24, m.sessionId);
      AgreeWord(b, c, 24, 40, m.runtimeGeneration, 8);
      AgreeTwo(b, c, 24, 48);
      AgreeWord(b, c, 24, 50, 0, 2);
      AgreeWord(b, c, 24, 52, m.diagnosticCode, 4);
      AgreeBytes(b, c, 24, 56, m.journalHash);
      AgreeHeader(b, c, "HSM1");
    }
  }
}
