/** The checksummed binary form of journals and safe-mode markers. */
module JournalCodec {
  import opened Words
  import opened Watchdog
  import opened CrashJournal
  import opened ByteStream
  import opened Crc32

  const HEADER_BYTES := 24
  const PREFIX_BYTES := 80
  const RECORD_BYTES := 24
  const SNAPSHOT_BYTES := 48
  const MAX_FILE_BYTES := 8192
  const JOURNAL_MAGIC: U32 := 0x3152_4a48
  const JOURNAL_VERSION: U16 := 1

  // ---------------------------------------------------------------- framing

  datatype Header = Header(magic: U32, version: U16, headerBytes: U16, payloadBytes: U32, crc: U32, reserved: U64)

  function HeaderPieces(h: Header): seq<Bytes> {
    [Le(h.magic, 4), Le(h.version, 2), Le(h.headerBytes, 2), Le(h.payloadBytes, 4), Le(h.crc, 4), Le(h.reserved, 8)]
  }

  function HeaderFor(magic: U32, version: U16, payload: Bytes): Header {
    Header(magic, version, HEADER_BYTES, |payload| % 0x1_0000_0000, Checksum(payload), 0)
  }

  /** Header and payload: what encodeHeader followed by the payload bytes gives. */
  function Frame(magic: U32, version: U16, payload: Bytes): Bytes {
    Join(HeaderPieces(HeaderFor(magic, version, payload))) + payload
  }

  lemma HeaderJoin(h: Header)
    ensures Join(HeaderPieces(h)) ==
      Le(h.magic, 4) + Le(h.version, 2) + Le(h.headerBytes, 2) + Le(h.payloadBytes, 4) + Le(h.crc, 4) + Le(h.reserved, 8)
  {
    var f := HeaderPieces(h);
    JoinOfFive(f[0], f[1], f[2], f[3], f[4]);
    JoinPush([f[0], f[1], f[2], f[3], f[4]], f[5]);
    assert f == [f[0], f[1], f[2], f[3], f[4]] + [f[5]];
  }

  lemma HeaderLength(h: Header)
    ensures |Join(HeaderPieces(h))| == HEADER_BYTES
  {
    HeaderJoin(h);
  }

  method EncodeHeader(magic: U32, version: U16, payload: Bytes) returns (header: Bytes)
    ensures header == Join(HeaderPieces(HeaderFor(magic, version, payload)))
  {
    var crc := ComputeChecksum(payload);
    var h := Header(magic, version, HEADER_BYTES, |payload| % 0x1_0000_0000, crc, 0);
    header := WriteHeader(h);
  }

  method WriteHeader(h: Header) returns (bytes: Bytes)
    ensures bytes == Join(HeaderPieces(h))
  {
    hide Le, Join, HeaderPieces;
    var w := new ByteWriter();
    w.PutWord(h.magic, 4);
    w.PutWord(h.version, 2);
    w.PutWord(h.headerBytes, 2);
    w.PutWord(h.payloadBytes, 4);
    w.PutWord(h.crc, 4);
    w.PutWord(h.reserved, 8);
    HeaderJoin(h);
    return w.bytes;
  }

  predicate IsFrame(magic: U32, version: U16, bytes: Bytes) {
    |bytes| >= HEADER_BYTES && bytes == Frame(magic, version, bytes[HEADER_BYTES..])
  }

  lemma FrameByHeader(magic: U32, version: U16, bytes: Bytes)
    requires |bytes| >= HEADER_BYTES
    ensures IsFrame(magic, version, bytes) <==>
      bytes[..HEADER_BYTES] == Join(HeaderPieces(HeaderFor(magic, version, bytes[HEADER_BYTES..])))
  {
    var payload := bytes[HEADER_BYTES..];
    var header := Join(HeaderPieces(HeaderFor(magic, version, payload)));
    HeaderLength(HeaderFor(magic, version, payload));
    assert bytes == bytes[..HEADER_BYTES] + payload;
    assert (header + payload)[..HEADER_BYTES] == header;
  }

  lemma FrameByFields(magic: U32, version: U16, bytes: Bytes, h: Header)
    requires |bytes| >= HEADER_BYTES && bytes[..HEADER_BYTES] == Join(HeaderPieces(h))
    ensures IsFrame(magic, version, bytes) <==> h == HeaderFor(magic, version, bytes[HEADER_BYTES..])
  {
    FrameByHeader(magic, version, bytes);
    HeaderUnique(h, HeaderFor(magic, version, bytes[HEADER_BYTES..]));
  }

  /** decodeHeader: accepts exactly the framed byte strings (sizes fit 32 bits, as every caller bounds them). */
  method DecodeHeader(bytes: Bytes, magic: U32, version: U16) returns (ok: bool, payload: Bytes)
    requires |bytes| < 0x1_0000_0000
    ensures ok <==> IsFrame(magic, version, bytes)
    ensures ok ==> payload == bytes[HEADER_BYTES..]
  {
    payload := [];
    if |bytes| < HEADER_BYTES { return false, payload; }
    payload := bytes[HEADER_BYTES..];
    var h := ReadHeader(bytes[..HEADER_BYTES]);
    FrameByFields(magic, version, bytes, h);
    var crc := ComputeChecksum(payload);
    ok := HeaderAccepted(h, magic, version, |payload|, crc);
  }

  method HeaderAccepted(h: Header, magic: U32, version: U16, payloadBytes: U32, crc: U32) returns (ok: bool)
    ensures ok <==> h == Header(magic, version, HEADER_BYTES, payloadBytes, crc, 0)
  {
    if h.magic != magic { return false; }
    if h.version != version { return false; }
    if h.headerBytes != HEADER_BYTES || h.reserved != 0 { return false; }
    if h.payloadBytes != payloadBytes { return false; }
    if h.crc != crc { return false; }
    return true;
  }

  method ReadHeader(bytes: Bytes) returns (h: Header)
    requires |bytes| == HEADER_BYTES
    ensures Join(HeaderPieces(h)) == bytes
  {
    var r := new ByteReader(bytes);
    Widths();
    var ok0, magic := r.GetWord(4);
    var ok1, version := r.GetWord(2);
    var ok2, headerBytes := r.GetWord(2);
    var ok3, payloadBytes := r.GetWord(4);
    var ok4, crc := r.GetWord(4);
    var ok5, reserved := r.GetWord(8);
    h := Header(magic, version, headerBytes, payloadBytes, crc, reserved);
    HeaderJoin(h);
    FiveSlices(bytes, 0, 4, 6, 8, 12, 16);
    assert bytes == bytes[0..16] + bytes[16..24];
  }

  /** A header's bytes determine each of its fields. */
  lemma HeaderUnique(a: Header, b: Header)
    ensures Join(HeaderPieces(a)) == Join(HeaderPieces(b)) ==> a == b
  {
    if Join(HeaderPieces(a)) == Join(HeaderPieces(b)) {
      JoinInjective(HeaderPieces(a), HeaderPieces(b));
      HeaderFieldsUnique(a, b);
    }
  }

  lemma HeaderFieldsUnique(a: Header, b: Header)
    requires HeaderPieces(a) == HeaderPieces(b)
    ensures a == b
  {
    Widths();
    var p, q := HeaderPieces(a), HeaderPieces(b);
    assert p[0] == q[0] && p[1] == q[1] && p[2] == q[2] && p[3] == q[3] && p[4] == q[4] && p[5] == q[5];
    LeInjective(a.magic, b.magic, 4);
    LeInjective(a.version, b.version, 2);
    LeInjective(a.headerBytes, b.headerBytes, 2);
    LeInjective(a.payloadBytes, b.payloadBytes, 4);
    LeInjective(a.crc, b.crc, 4);
    LeInjective(a.reserved, b.reserved, 8);
  }

  lemma LeInjective(a: nat, b: nat, width: nat)
    requires a < Power256(width) && b < Power256(width)
    ensures Le(a, width) == Le(b, width) ==> a == b
  {
    LeRoundTrip(a, width);
    LeRoundTrip(b, width);
  }

  // ---------------------------------------------------------------- journal layout

  function PhaseCode(p: Phase): U16 {
    match p
    case Preparing => 1
    case Applying => 2
    case Active => 3
    case RollingBack => 4
    case Clean => 5
    case RecoveryRequired => 6
    case UnknownPhase(raw) => raw
  }

  function PhaseOf(code: U16): (p: Phase)
    ensures PhaseCode(p) == code
  {
    if code == 1 then Phase.Preparing else if code == 2 then Phase.Applying else if code == 3 then Phase.Active
    else if code == 4 then Phase.RollingBack else if code == 5 then Phase.Clean
    else if code == 6 then Phase.RecoveryRequired else UnknownPhase(code)
  }

  function ResultCode(r: FinalResult): U16 {
    match r
    case NoResult => 0
    case Clean => 1
    case Failed => 2
    case RecoveryRequired => 3
    case UnknownResult(raw) => raw
  }

  function ResultOf(code: U16): (r: FinalResult)
    ensures ResultCode(r) == code
  {
    if code == 0 then NoResult else if code == 1 then FinalResult.Clean else if code == 2 then Failed
    else if code == 3 then FinalResult.RecoveryRequired else UnknownResult(code)
  }

  function KindCode(k: RecordKind): U16 {
    match k
    case ActivationStarted => 1
    case ActionPrepared => 2
    case ActionApplied => 3
    case ActionVerified => 4
    case ActivationCommitted => 5
    case RollbackStarted => 6
    case ActionRolledBack => 7
    case RollbackVerified => 8
    case CleanStop => 9
    case FailureRecorded => 10
    case RecoveryRequired => 11
    case UnknownKind(raw) => raw
  }

  function KindOf(code: U16): (k: RecordKind)
    ensures KindCode(k) == code
  {
    if code == 1 then ActivationStarted else if code == 2 then ActionPrepared else if code == 3 then ActionApplied
    else if code == 4 then ActionVerified else if code == 5 then ActivationCommitted
    else if code == 6 then RollbackStarted else if code == 7 then ActionRolledBack
    else if code == 8 then RollbackVerified else if code == 9 then CleanStop else if code == 10 then FailureRecorded
    else if code == 11 then RecordKind.RecoveryRequired else UnknownKind(code)
  }

  /** The fixed-size start of the payload, as raw words. */
  datatype Prefix = Prefix(sessionId: SessionId, planHash: Hash256, runtimeGeneration: U64, leaseGeneration: U64,
                           leaseTimeout: U32, phase: U16, finalResult: U16, recordCount: U16, snapshotCount: U16,
                           reserved: U32)

  function PrefixPieces(p: Prefix): seq<Bytes> {
    [p.sessionId, p.planHash, Le(p.runtimeGeneration, 8), Le(p.leaseGeneration, 8), Le(p.leaseTimeout, 4),
     Le(p.phase, 2), Le(p.finalResult, 2), Le(p.recordCount, 2), Le(p.snapshotCount, 2), Le(p.reserved, 4)]
  }

  function PrefixOf(s: State): Prefix {
    Prefix(s.sessionId, s.planHash, s.runtimeGeneration, s.lease.generation, s.lease.timeoutMilliseconds,
           PhaseCode(s.phase), ResultCode(s.finalResult), |s.records| % 0x1_0000, |s.snapshots| % 0x1_0000, 0)
  }

  datatype RawRecord = RawRecord(sequence: U64, kind: U16, reserved: U16, actionId: U32, generation: U64)

  function RecordPieces(r: RawRecord): seq<Bytes> {
    [Le(r.sequence, 8), Le(r.kind, 2), Le(r.reserved, 2), Le(r.actionId, 4), Le(r.generation, 8)]
  }

  function RawOf(r: Record): RawRecord {
    RawRecord(r.sequence, KindCode(r.kind), 0, r.actionId, r.generation)
  }

  function SnapshotPieces(s: Snapshot): seq<Bytes> {
    [Le(s.snapshotId, 8), s.sha256, Le(s.generation, 8)]
  }

  function RecordsBytes(records: seq<Record>): Bytes {
    if |records| == 0 then []
    else RecordsBytes(records[..|records| - 1]) + Join(RecordPieces(RawOf(records[|records| - 1])))
  }

  function SnapshotsBytes(snapshots: seq<Snapshot>): Bytes {
    if |snapshots| == 0 then []
    else SnapshotsBytes(snapshots[..|snapshots| - 1]) + Join(SnapshotPieces(snapshots[|snapshots| - 1]))
  }

  function Payload(s: State): Bytes {
    Join(PrefixPieces(PrefixOf(s))) + RecordsBytes(s.records) + SnapshotsBytes(s.snapshots)
  }

  function Encoded(s: State): Bytes {
    Frame(JOURNAL_MAGIC, JOURNAL_VERSION, Payload(s))
  }

  function PrefixHead(p: Prefix): Bytes {
    p.sessionId + p.planHash + Le(p.runtimeGeneration, 8) + Le(p.leaseGeneration, 8) + Le(p.leaseTimeout, 4)
  }

  function PrefixTail(p: Prefix): Bytes {
    Le(p.phase, 2) + Le(p.finalResult, 2) + Le(p.recordCount, 2) + Le(p.snapshotCount, 2) + Le(p.reserved, 4)
  }

  lemma PrefixJoin(p: Prefix)
    ensures Join(PrefixPieces(p)) == PrefixHead(p) + PrefixTail(p)
  {
    var f := PrefixPieces(p);
    var x, y := [f[0], f[1], f[2], f[3], f[4]], [f[5], f[6], f[7], f[8], f[9]];
    assert f == x + y;
    JoinConcat(x, y);
    JoinOfFive(f[0], f[1], f[2], f[3], f[4]);
    JoinOfFive(f[5], f[6], f[7], f[8], f[9]);
  }

  lemma PrefixLength(p: Prefix)
    ensures |Join(PrefixPieces(p))| == PREFIX_BYTES
  {
    PrefixJoin(p);
  }

  lemma RecordLength(r: RawRecord)
    ensures |Join(RecordPieces(r))| == RECORD_BYTES
  {
    var f := RecordPieces(r);
    JoinOfFive(f[0], f[1], f[2], f[3], f[4]);
  }

  lemma SnapshotLength(s: Snapshot)
    ensures |Join(SnapshotPieces(s))| == SNAPSHOT_BYTES
  {
    var f := SnapshotPieces(s);
    JoinOfThree(f[0], f[1], f[2]);
  }

  lemma {:induction false} RecordsLength(records: seq<Record>)
    ensures |RecordsBytes(records)| == RECORD_BYTES * |records|
  {
    if |records| > 0 {
      RecordsLength(records[..|records| - 1]);
      RecordLength(RawOf(records[|records| - 1]));
    }
  }

  lemma {:induction false} SnapshotsLength(snapshots: seq<Snapshot>)
    ensures |SnapshotsBytes(snapshots)| == SNAPSHOT_BYTES * |snapshots|
  {
    if |snapshots| > 0 {
      SnapshotsLength(snapshots[..|snapshots| - 1]);
      SnapshotLength(snapshots[|snapshots| - 1]);
    }
  }

  lemma PayloadLength(s: State)
    ensures |Payload(s)| == PREFIX_BYTES + RECORD_BYTES * |s.records| + SNAPSHOT_BYTES * |s.snapshots|
  {
    PrefixLength(PrefixOf(s));
    RecordsLength(s.records);
    SnapshotsLength(s.snapshots);
  }

  /** Every valid journal fits the file bound, so encoding a valid journal never fails. */
  lemma ValidStateFits(s: State)
    requires ValidState(s)
    ensures HEADER_BYTES + |Payload(s)| <= MAX_FILE_BYTES
    ensures |Encoded(s)| == HEADER_BYTES + |Payload(s)|
    ensures Encoded(s)[HEADER_BYTES..] == Payload(s) && IsFrame(JOURNAL_MAGIC, JOURNAL_VERSION, Encoded(s))
  {
    PayloadLength(s);
    HeaderLength(HeaderFor(JOURNAL_MAGIC, JOURNAL_VERSION, Payload(s)));
  }

  // ---------------------------------------------------------------- the layout determines the journal

  lemma PrefixUnique(a: Prefix, b: Prefix)
    requires Join(PrefixPieces(a)) == Join(PrefixPieces(b))
    ensures a == b
  {
    JoinInjective(PrefixPieces(a), PrefixPieces(b));
    PrefixFieldsUnique(a, b);
  }

  lemma PrefixFieldsUnique(a: Prefix, b: Prefix)
    requires PrefixPieces(a) == PrefixPieces(b)
    ensures a == b
  {
    Widths();
    var p, q := PrefixPieces(a), PrefixPieces(b);
    assert p[0] == q[0] && p[1] == q[1] && p[2] == q[2] && p[3] == q[3] && p[4] == q[4];
    assert p[5] == q[5] && p[6] == q[6] && p[7] == q[7] && p[8] == q[8] && p[9] == q[9];
    LeInjective(a.runtimeGeneration, b.runtimeGeneration, 8);
    LeInjective(a.leaseGeneration, b.leaseGeneration, 8);
    LeInjective(a.leaseTimeout, b.leaseTimeout, 4);
    LeInjective(a.phase, b.phase, 2);
    LeInjective(a.finalResult, b.finalResult, 2);
    LeInjective(a.recordCount, b.recordCount, 2);
    LeInjective(a.snapshotCount, b.snapshotCount, 2);
    LeInjective(a.reserved, b.reserved, 4);
  }

  lemma RawUnique(a: RawRecord, b: RawRecord)
    requires Join(RecordPieces(a)) == Join(RecordPieces(b))
    ensures a == b
  {
    JoinInjective(RecordPieces(a), RecordPieces(b));
    Widths();
    var p, q := RecordPieces(a), RecordPieces(b);
    assert p[0] == q[0] && p[1] == q[1] && p[2] == q[2] && p[3] == q[3] && p[4] == q[4];
    LeInjective(a.sequence, b.sequence, 8);
    LeInjective(a.kind, b.kind, 2);
    LeInjective(a.reserved, b.reserved, 2);
    LeInjective(a.actionId, b.actionId, 4);
    LeInjective(a.generation, b.generation, 8);
  }

  lemma SnapshotUnique(a: Snapshot, b: Snapshot)
    requires Join(SnapshotPieces(a)) == Join(SnapshotPieces(b))
    ensures a == b
  {
    JoinInjective(SnapshotPieces(a), SnapshotPieces(b));
    Widths();
    var p, q := SnapshotPieces(a), SnapshotPieces(b);
    assert p[0] == q[0] && p[1] == q[1] && p[2] == q[2];
    LeInjective(a.snapshotId, b.snapshotId, 8);
    LeInjective(a.generation, b.generation, 8);
  }

  predicate KnownKinds(records: seq<Record>) {
    forall i :: 0 <= i < |records| ==> !records[i].kind.UnknownKind?
  }

  lemma {:induction false} ReplayedKindsKnown(records: seq<Record>)
    requires Replayed(records).Some?
    ensures KnownKinds(records)
  {
    if |records| > 0 { ReplayedKindsKnown(records[..|records| - 1]); }
  }

  lemma {:induction false} RecordsUnique(a: seq<Record>, b: seq<Record>)
    requires |a| == |b| && RecordsBytes(a) == RecordsBytes(b) && KnownKinds(a) && KnownKinds(b)
    ensures a == b
  {
    if |a| > 0 {
      var n := |a| - 1;
      RecordsLength(a[..n]);
      RecordsLength(b[..n]);
      var cut := RECORD_BYTES * n;
      var x, y := RawOf(a[n]), RawOf(b[n]);
      assert RecordsBytes(a[..n]) == RecordsBytes(a)[..cut] && Join(RecordPieces(x)) == RecordsBytes(a)[cut..];
      assert RecordsBytes(b[..n]) == RecordsBytes(b)[..cut] && Join(RecordPieces(y)) == RecordsBytes(b)[cut..];
      RecordsUnique(a[..n], b[..n]);
      RawUnique(x, y);
      KindCodesDistinct(a[n].kind, b[n].kind);
      assert a == a[..n] + [a[n]] && b == b[..n] + [b[n]];
    }
  }

  lemma KindCodesDistinct(a: RecordKind, b: RecordKind)
    requires !a.UnknownKind? && !b.UnknownKind? && KindCode(a) == KindCode(b)
    ensures a == b
  {
  }

  lemma {:induction false} SnapshotsUnique(a: seq<Snapshot>, b: seq<Snapshot>)
    requires |a| == |b| && SnapshotsBytes(a) == SnapshotsBytes(b)
    ensures a == b
  {
    if |a| > 0 {
      var n := |a| - 1;
      SnapshotsLength(a[..n]);
      SnapshotsLength(b[..n]);
      var cut := SNAPSHOT_BYTES * n;
      assert SnapshotsBytes(a[..n]) == SnapshotsBytes(a)[..cut] && Join(SnapshotPieces(a[n])) == SnapshotsBytes(a)[cut..];
      assert SnapshotsBytes(b[..n]) == SnapshotsBytes(b)[..cut] && Join(SnapshotPieces(b[n])) == SnapshotsBytes(b)[cut..];
      SnapshotsUnique(a[..n], b[..n]);
      SnapshotUnique(a[n], b[n]);
      assert a == a[..n] + [a[n]] && b == b[..n] + [b[n]];
    }
  }

  lemma PayloadParts(s: State)
    ensures var cut := PREFIX_BYTES + RECORD_BYTES * |s.records|;
      && |Payload(s)| == cut + SNAPSHOT_BYTES * |s.snapshots|
      && Payload(s)[..PREFIX_BYTES] == Join(PrefixPieces(PrefixOf(s)))
      && Payload(s)[PREFIX_BYTES..cut] == RecordsBytes(s.records)
      && Payload(s)[cut..] == SnapshotsBytes(s.snapshots)
  {
    PayloadLength(s);
    PrefixLength(PrefixOf(s));
    RecordsLength(s.records);
  }

  lemma StateFromPrefix(a: State, b: State)
    requires ValidState(a) && ValidState(b) && PrefixOf(a) == PrefixOf(b)
    ensures |a.records| == |b.records| && |a.snapshots| == |b.snapshots|
    ensures a == b.(records := a.records, snapshots := a.snapshots)
  {
  }

  /** Two valid journals with the same bytes are the same journal. */
  lemma EncodedInjective(a: State, b: State)
    requires ValidState(a) && ValidState(b) && Encoded(a) == Encoded(b)
    ensures a == b
  {
    ValidStateFits(a);
    ValidStateFits(b);
    PayloadParts(a);
    PayloadParts(b);
    PrefixUnique(PrefixOf(a), PrefixOf(b));
    StateFromPrefix(a, b);
    ReplayedKindsKnown(a.records);
    ReplayedKindsKnown(b.records);
    RecordsUnique(a.records, b.records);
    SnapshotsUnique(a.snapshots, b.snapshots);
  }

  // ---------------------------------------------------------------- encode and decode

  /** The valid journal these bytes are the encoding of, if there is one. Encoding is injective, so it is unique. */
  ghost function Decoded(bytes: Bytes): Option<State> {
    if exists s :: ValidState(s) && Encoded(s) == bytes
    then (var s :| ValidState(s) && Encoded(s) == bytes; Some(s))
    else None
  }

  lemma DecodedEncoded(s: State)
    requires ValidState(s)
    ensures Decoded(Encoded(s)) == Some(s)
  {
    var t := Decoded(Encoded(s)).value;
    EncodedInjective(s, t);
  }

  /** encodeCrashJournal */
  method EncodeJournal(s: State) returns (bytes: Bytes)
    ensures bytes == if ValidState(s) then Encoded(s) else []
  {
    var valid := ValidateState(s);
    if !valid { return []; }
    ValidStateFits(s);
    PayloadLength(s);
    var payloadBytes := PREFIX_BYTES + |s.records| * RECORD_BYTES + |s.snapshots| * SNAPSHOT_BYTES;
    if payloadBytes + HEADER_BYTES > MAX_FILE_BYTES { return []; }
    var payload := WritePayload(s);
    var header := EncodeHeader(JOURNAL_MAGIC, JOURNAL_VERSION, payload);
    return header + payload;
  }

  method WritePayload(s: State) returns (payload: Bytes)
    ensures payload == Payload(s)
  {
    var w := new ByteWriter();
    WritePrefix(w, PrefixOf(s));
    WriteRecords(w, s.records);
    WriteSnapshots(w, s.snapshots);
    return w.bytes;
  }

  method WritePrefix(w: ByteWriter, p: Prefix)
    modifies w
    ensures w.bytes == old(w.bytes) + Join(PrefixPieces(p))
  {
    WritePrefixHead(w, p);
    WritePrefixTail(w, p);
    PrefixJoin(p);
  }

  method WritePrefixHead(w: ByteWriter, p: Prefix)
    modifies w
    ensures w.bytes == old(w.bytes) + PrefixHead(p)
  {
    w.PutBytes(p.sessionId);
    w.PutBytes(p.planHash);
    w.PutWord(p.runtimeGeneration, 8);
    w.PutWord(p.leaseGeneration, 8);
    w.PutWord(p.leaseTimeout, 4);
    var runtime, lease, timeout := Le(p.runtimeGeneration, 8), Le(p.leaseGeneration, 8), Le(p.leaseTimeout, 4);
    AppendFive(old(w.bytes), p.sessionId, p.planHash, runtime, lease, timeout);
    JoinOfFive(p.sessionId, p.planHash, runtime, lease, timeout);
  }

  method WritePrefixTail(w: ByteWriter, p: Prefix)
    modifies w
    ensures w.bytes == old(w.bytes) + PrefixTail(p)
  {
    w.PutWord(p.phase, 2);
    w.PutWord(p.finalResult, 2);
    w.PutWord(p.recordCount, 2);
    w.PutWord(p.snapshotCount, 2);
    w.PutWord(p.reserved, 4);
    var phase, result, records := Le(p.phase, 2), Le(p.finalResult, 2), Le(p.recordCount, 2);
    AppendFive(old(w.bytes), phase, result, records, Le(p.snapshotCount, 2), Le(p.reserved, 4));
    JoinOfFive(phase, result, records, Le(p.snapshotCount, 2), Le(p.reserved, 4));
  }

  method WriteRecords(w: ByteWriter, records: seq<Record>)
    modifies w
    ensures w.bytes == old(w.bytes) + RecordsBytes(records)
  {
    var i := 0;
    while i < |records|
      invariant 0 <= i <= |records|
      invariant w.bytes == old(w.bytes) + RecordsBytes(records[..i])
    {
      WriteRecord(w, RawOf(records[i]));
      assert records[..i + 1][..i] == records[..i];
      i := i + 1;
    }
    assert records[..i] == records;
  }

  method WriteRecord(w: ByteWriter, r: RawRecord)
    modifies w
    ensures w.bytes == old(w.bytes) + Join(RecordPieces(r))
  {
    w.PutWord(r.sequence, 8);
    w.PutWord(r.kind, 2);
    w.PutWord(r.reserved, 2);
    w.PutWord(r.actionId, 4);
    w.PutWord(r.generation, 8);
    AppendFive(old(w.bytes), Le(r.sequence, 8), Le(r.kind, 2), Le(r.reserved, 2), Le(r.actionId, 4), Le(r.generation, 8));
  }

  method WriteSnapshots(w: ByteWriter, snapshots: seq<Snapshot>)
    modifies w
    ensures w.bytes == old(w.bytes) + SnapshotsBytes(snapshots)
  {
    var i := 0;
    while i < |snapshots|
      invariant 0 <= i <= |snapshots|
      invariant w.bytes == old(w.bytes) + SnapshotsBytes(snapshots[..i])
    {
      WriteSnapshot(w, snapshots[i]);
      assert snapshots[..i + 1][..i] == snapshots[..i];
      i := i + 1;
    }
    assert snapshots[..i] == snapshots;
  }

  method WriteSnapshot(w: ByteWriter, s: Snapshot)
    modifies w
    ensures w.bytes == old(w.bytes) + Join(SnapshotPieces(s))
  {
    w.PutWord(s.snapshotId, 8);
    w.PutBytes(s.sha256);
    w.PutWord(s.generation, 8);
    AppendThree(old(w.bytes), Le(s.snapshotId, 8), s.sha256, Le(s.generation, 8));
  }
}
