/** The binary form of the safe-mode marker, framed and checksummed like a journal. */
module MarkerCodec {
  import opened Words
  import opened Watchdog
  import opened ByteStream
  import opened JournalCodec

  const MARKER_FILE_BYTES := 88
  const MARKER_MAGIC: U32 := 0x314d_5348
  const MARKER_VERSION: U16 := 1

  datatype Reason =
    | IncompleteSession
    | CorruptJournal
    | RecoveryRequired
    | JournalWriteFailure
    | ManualRecovery
    | UnknownReason(raw: U16)

  datatype SafeModeMarker = SafeModeMarker(
    sessionId: SessionId, runtimeGeneration: U64, reason: Reason, diagnosticCode: U32, journalHash: Hash256)

  /** A marker names both a session and its generation, or neither. */
  predicate ValidMarker(m: SafeModeMarker) {
    !m.reason.UnknownReason? && (!AllZero(m.sessionId) <==> m.runtimeGeneration != 0)
  }

  function ReasonCode(r: Reason): U16 {
    match r
    case IncompleteSession => 1
    case CorruptJournal => 2
    case RecoveryRequired => 3
    case JournalWriteFailure => 4
    case ManualRecovery => 5
    case UnknownReason(raw) => raw
  }

  function ReasonOf(code: U16): (r: Reason)
    ensures ReasonCode(r) == code
  {
    if code == 1 then IncompleteSession else if code == 2 then CorruptJournal else if code == 3 then RecoveryRequired
    else if code == 4 then JournalWriteFailure else if code == 5 then ManualRecovery else UnknownReason(code)
  }

  datatype RawMarker = RawMarker(sessionId: SessionId, runtimeGeneration: U64, reason: U16, reserved: U16,
                                 diagnosticCode: U32, journalHash: Hash256)

  function MarkerPieces(m: RawMarker): seq<Bytes> {
    [m.sessionId, Le(m.runtimeGeneration, 8), Le(m.reason, 2), Le(m.reserved, 2), Le(m.diagnosticCode, 4)]
  }

  function RawMarkerBytes(m: RawMarker): Bytes {
    Join(MarkerPieces(m)) + m.journalHash
  }

  function RawMarkerOf(m: SafeModeMarker): RawMarker {
    RawMarker(m.sessionId, m.runtimeGeneration, ReasonCode(m.reason), 0, m.diagnosticCode, m.journalHash)
  }

  function EncodedMarker(m: SafeModeMarker): Bytes {
    Frame(MARKER_MAGIC, MARKER_VERSION, RawMarkerBytes(RawMarkerOf(m)))
  }

  lemma RawMarkerUnique(a: RawMarker, b: RawMarker)
    requires RawMarkerBytes(a) == RawMarkerBytes(b)
    ensures a == b
  {
    RawMarkerLength(a);
    RawMarkerLength(b);
    assert Join(MarkerPieces(a)) == RawMarkerBytes(a)[..32] && a.journalHash == RawMarkerBytes(a)[32..];
    assert Join(MarkerPieces(b)) == RawMarkerBytes(b)[..32] && b.journalHash == RawMarkerBytes(b)[32..];
    JoinInjective(MarkerPieces(a), MarkerPieces(b));
    Widths();
    var p, q := MarkerPieces(a), MarkerPieces(b);
    assert p[0] == q[0] && p[1] == q[1] && p[2] == q[2] && p[3] == q[3] && p[4] == q[4];
    LeInjective(a.runtimeGeneration, b.runtimeGeneration, 8);
    LeInjective(a.reason, b.reason, 2);
    LeInjective(a.reserved, b.reserved, 2);
    LeInjective(a.diagnosticCode, b.diagnosticCode, 4);
  }

  lemma RawMarkerLength(m: RawMarker)
    ensures |Join(MarkerPieces(m))| == 32 && |RawMarkerBytes(m)| == 64
  {
    JoinOfFive(m.sessionId, Le(m.runtimeGeneration, 8), Le(m.reason, 2), Le(m.reserved, 2), Le(m.diagnosticCode, 4));
  }

  lemma MarkerFrame(m: SafeModeMarker, magic: U32, version: U16)
    requires magic == MARKER_MAGIC && version == MARKER_VERSION
    ensures IsFrame(magic, version, EncodedMarker(m)) && |EncodedMarker(m)| == MARKER_FILE_BYTES
    ensures EncodedMarker(m)[HEADER_BYTES..] == RawMarkerBytes(RawMarkerOf(m))
  {
    RawMarkerLength(RawMarkerOf(m));
    HeaderLength(HeaderFor(magic, version, RawMarkerBytes(RawMarkerOf(m))));
  }

  /** The valid marker these bytes are the encoding of, if there is one. */
  ghost function DecodedMarker(bytes: Bytes): Option<SafeModeMarker> {
    if exists m :: ValidMarker(m) && EncodedMarker(m) == bytes
    then (var m :| ValidMarker(m) && EncodedMarker(m) == bytes; Some(m))
    else None
  }

  lemma MarkerFits(bytes: Bytes)
    ensures DecodedMarker(bytes).Some? ==> |bytes| == MARKER_FILE_BYTES
  {
    if DecodedMarker(bytes).Some? { MarkerFrame(DecodedMarker(bytes).value, MARKER_MAGIC, MARKER_VERSION); }
  }

  /** Two valid markers with the same bytes are the same marker. */
  lemma MarkerInjective(a: SafeModeMarker, b: SafeModeMarker)
    requires ValidMarker(a) && ValidMarker(b) && EncodedMarker(a) == EncodedMarker(b)
    ensures a == b
  {
    MarkerFrame(a, MARKER_MAGIC, MARKER_VERSION);
    MarkerFrame(b, MARKER_MAGIC, MARKER_VERSION);
    RawMarkerUnique(RawMarkerOf(a), RawMarkerOf(b));
  }

  lemma MarkerDecodedBack(m: SafeModeMarker)
    requires ValidMarker(m)
    ensures DecodedMarker(EncodedMarker(m)) == Some(m)
  {
    hide EncodedMarker;
    MarkerInjective(m, DecodedMarker(EncodedMarker(m)).value);
  }

  /** encodeSafeModeMarker */
  method EncodeMarker(m: SafeModeMarker) returns (bytes: Bytes)
    ensures bytes == if ValidMarker(m) then EncodedMarker(m) else []
  {
    if m.reason.UnknownReason? { return []; }
    if !AllZero(m.sessionId) != (m.runtimeGeneration != 0) { return []; }
    var payload := WriteMarker(RawMarkerOf(m));
    var header := EncodeHeader(MARKER_MAGIC, MARKER_VERSION, payload);
    return header + payload;
  }

  method WriteMarker(m: RawMarker) returns (payload: Bytes)
    ensures payload == RawMarkerBytes(m)
  {
    var w := new ByteWriter();
    w.PutBytes(m.sessionId);
    w.PutWord(m.runtimeGeneration, 8);
    w.PutWord(m.reason, 2);
    w.PutWord(m.reserved, 2);
    w.PutWord(m.diagnosticCode, 4);
    AppendFive([], m.sessionId, Le(m.runtimeGeneration, 8), Le(m.reason, 2), Le(m.reserved, 2), Le(m.diagnosticCode, 4));
    w.PutBytes(m.journalHash);
    return w.bytes;
  }

  /** decodeSafeModeMarker: succeeds exactly on the encodings of valid markers. */
  method DecodeMarker(bytes: Bytes) returns (decoded: Option<SafeModeMarker>)
    ensures decoded == DecodedMarker(bytes)
  {
    ghost var original := DecodedMarker(bytes);
    if original.Some? { MarkerFrame(original.value, MARKER_MAGIC, MARKER_VERSION); }
    if |bytes| != MARKER_FILE_BYTES { return None; }
    var framed, payload := DecodeHeader(bytes, MARKER_MAGIC, MARKER_VERSION);
    if !framed { return None; }
    var raw := ReadMarker(payload);
    if original.Some? { RawMarkerUnique(raw, RawMarkerOf(original.value)); }
    var m := SafeModeMarker(raw.sessionId, raw.runtimeGeneration, ReasonOf(raw.reason), raw.diagnosticCode, raw.journalHash);
    if raw.reserved != 0 || m.reason.UnknownReason? || !AllZero(m.sessionId) != (m.runtimeGeneration != 0) {
      return None;
    }
    assert RawMarkerOf(m) == raw;
    assert EncodedMarker(m) == bytes;
    MarkerInjective(m, DecodedMarker(bytes).value);
    return Some(m);
  }

  method ReadMarker(payload: Bytes) returns (raw: RawMarker)
    requires |payload| == 64
    ensures RawMarkerBytes(raw) == payload
  {
    Widths();
    var r := new ByteReader(payload);
    var ok0, sessionId := r.GetBytes(16);
    var ok1, runtimeGeneration := r.GetWord(8);
    var ok2, reason := r.GetWord(2);
    var ok3, reserved := r.GetWord(2);
    var ok4, diagnosticCode := r.GetWord(4);
    var ok5, journalHash := r.GetBytes(32);
    raw := RawMarker(sessionId, runtimeGeneration, reason, reserved, diagnosticCode, journalHash);
    JoinOfFive(sessionId, Le(runtimeGeneration, 8), Le(reason, 2), Le(reserved, 2), Le(diagnosticCode, 4));
    FiveSlices(payload, 0, 16, 24, 26, 28, 32);
    assert payload == payload[0..32] + payload[32..64];
  }
}
