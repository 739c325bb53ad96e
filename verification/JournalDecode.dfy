/** Decoding journals: the exact inverse of encoding, and the corruption it detects. */
module JournalDecode {
  import opened Words
  import opened Watchdog
  import opened CrashJournal
  import opened ByteStream
  import opened Crc32
  import opened JournalCodec

  /** decodeCrashJournal: succeeds exactly on the encodings of valid journals, and returns that journal. */
  method DecodeJournal(bytes: Bytes) returns (decoded: Option<State>)
    ensures decoded == Decoded(bytes)
  {
    ghost var original := Decoded(bytes);
    if original.Some? { ValidStateFits(original.value); }
    if |bytes| > MAX_FILE_BYTES { return None; }
    var framed, payload := DecodeHeader(bytes, JOURNAL_MAGIC, JOURNAL_VERSION);
    if !framed { return None; }
    var parsed := ParsePayload(payload, original);
    if parsed.None? { return None; }
    var valid := ValidateState(parsed.value);
    if !valid { return None; }
    assert Encoded(parsed.value) == bytes;
    DecodedEncoded(parsed.value);
    return parsed;
  }

  /** Reads the fields; on the payload of a valid journal it cannot fail and reads that journal. */
  method ParsePayload(payload: Bytes, ghost original: Option<State>) returns (parsed: Option<State>)
    requires original.Some? ==> ValidState(original.value) && Payload(original.value) == payload
    ensures parsed.Some? ==> Payload(parsed.value) == payload
    ensures original.Some? ==> parsed == original
  {
    if original.Some? { PayloadParts(original.value); }
    if |payload| < PREFIX_BYTES { return None; }
    var r := new ByteReader(payload);
    var p := ReadPrefix(r);
    ghost var known := None;
    if original.Some? {
      OriginalPrefix(original.value, p);
      known := Some(original.value.records);
    }
    if p.reserved != 0 || p.recordCount == 0 || p.recordCount > MAX_RECORDS || p.snapshotCount > MAX_SNAPSHOTS {
      return None;
    }
    if |payload| != PREFIX_BYTES + p.recordCount * RECORD_BYTES + p.snapshotCount * SNAPSHOT_BYTES { return None; }
    var ok, state := ReadBody(r, p, known);
    if original.Some? { SamePayload(state, original.value, p); }
    return if ok then Some(state) else None;
  }

  lemma OriginalPrefix(s: State, p: Prefix)
    requires ValidState(s) && |Payload(s)| >= PREFIX_BYTES && Payload(s)[..PREFIX_BYTES] == Join(PrefixPieces(p))
    ensures p == PrefixOf(s) && p.reserved == 0
    ensures 0 < p.recordCount == |s.records| <= MAX_RECORDS && p.snapshotCount == |s.snapshots| <= MAX_SNAPSHOTS
    ensures KnownKinds(s.records)
  {
    hide Payload, PrefixPieces, Join, Replayed;
    PayloadParts(s);
    PrefixUnique(p, PrefixOf(s));
    ReplayedKindsKnown(s.records);
  }

  method ReadBody(r: ByteReader, p: Prefix, ghost known: Option<seq<Record>>) returns (ok: bool, state: State)
    requires r.offset == PREFIX_BYTES <= |r.data| && r.data[..PREFIX_BYTES] == Join(PrefixPieces(p))
    requires p.reserved == 0
    requires |r.data| == PREFIX_BYTES + p.recordCount * RECORD_BYTES + p.snapshotCount * SNAPSHOT_BYTES
    requires known.Some? ==>
      && |known.value| == p.recordCount && KnownKinds(known.value)
      && r.data[PREFIX_BYTES..PREFIX_BYTES + RECORD_BYTES * p.recordCount] == RecordsBytes(known.value)
    modifies r
    ensures ok ==> Payload(state) == r.data && PrefixOf(state) == p && state == StateFrom(p, state.records, state.snapshots)
    ensures known.Some? ==> ok && state.records == known.value
  {
    hide RecordsBytes, SnapshotsBytes, Join;
    var read, records := ReadRecords(r, p.recordCount, known);
    state := StateFrom(p, records, []);
    if !read { return false, state; }
    var snapshots := ReadSnapshots(r, p.snapshotCount);
    state := StateFrom(p, records, snapshots);
    PayloadAssembled(r.data, p, state);
    ok := r.Empty();
  }

  function StateFrom(p: Prefix, records: seq<Record>, snapshots: seq<Snapshot>): State {
    State(p.sessionId, p.planHash, p.runtimeGeneration, Lease(p.sessionId, p.leaseGeneration, p.leaseTimeout),
          PhaseOf(p.phase), ResultOf(p.finalResult), records, snapshots)
  }

  /** The decoded fields re-encode to the payload they were read from. */
  lemma PayloadAssembled(payload: Bytes, p: Prefix, s: State)
    requires p == PrefixOf(s)
    requires |payload| == PREFIX_BYTES + RECORD_BYTES * |s.records| + SNAPSHOT_BYTES * |s.snapshots|
    requires payload[..PREFIX_BYTES] == Join(PrefixPieces(p))
    requires payload[PREFIX_BYTES..PREFIX_BYTES + RECORD_BYTES * |s.records|] == RecordsBytes(s.records)
    requires payload[PREFIX_BYTES + RECORD_BYTES * |s.records|..] == SnapshotsBytes(s.snapshots)
    ensures payload == Payload(s)
  {
    var cut := PREFIX_BYTES + RECORD_BYTES * |s.records|;
    assert payload == payload[..PREFIX_BYTES] + payload[PREFIX_BYTES..cut] + payload[cut..];
  }

  /** Reading back a valid journal's bytes gives that journal, so validation cannot fail. */
  lemma SamePayload(s: State, original: State, p: Prefix)
    requires ValidState(original) && Payload(s) == Payload(original)
    requires p == PrefixOf(s) == PrefixOf(original)
    requires s.records == original.records && s == StateFrom(p, s.records, s.snapshots)
    ensures s == original
  {
    PayloadParts(s);
    PayloadParts(original);
    SnapshotsUnique(s.snapshots, original.snapshots);
  }

  lemma {:induction false} RecordAt(records: seq<Record>, i: nat)
    requires i < |records|
    ensures |RecordsBytes(records)| == RECORD_BYTES * |records|
    ensures RecordsBytes(records)[RECORD_BYTES * i..RECORD_BYTES * (i + 1)] == Join(RecordPieces(RawOf(records[i])))
  {
    var init := records[..|records| - 1];
    RecordsLength(records);
    RecordsLength(init);
    if i < |init| {
      RecordAt(init, i);
      assert RecordsBytes(records)[RECORD_BYTES * i..RECORD_BYTES * (i + 1)] ==
        RecordsBytes(init)[RECORD_BYTES * i..RECORD_BYTES * (i + 1)];
    }
  }

  method ReadPrefix(r: ByteReader) returns (p: Prefix)
    requires r.offset == 0 && |r.data| >= PREFIX_BYTES
    modifies r
    ensures r.offset == PREFIX_BYTES && r.data[..PREFIX_BYTES] == Join(PrefixPieces(p))
  {
    var sessionId, planHash, runtimeGeneration, leaseGeneration, leaseTimeout := ReadPrefixHead(r);
    var phase, finalResult, recordCount, snapshotCount, reserved := ReadPrefixTail(r);
    p := Prefix(sessionId, planHash, runtimeGeneration, leaseGeneration, leaseTimeout, phase, finalResult,
                recordCount, snapshotCount, reserved);
    PrefixJoin(p);
    assert r.data[..PREFIX_BYTES] == r.data[..68] + r.data[68..80];
  }

  method ReadPrefixHead(r: ByteReader)
    returns (sessionId: SessionId, planHash: Hash256, runtimeGeneration: U64, leaseGeneration: U64, leaseTimeout: U32)
    requires r.offset == 0 && |r.data| >= PREFIX_BYTES
    modifies r
    ensures r.offset == 68
    ensures r.data[..68] ==
      sessionId + planHash + Le(runtimeGeneration, 8) + Le(leaseGeneration, 8) + Le(leaseTimeout, 4)
  {
    Widths();
    var ok0, ok1, ok2, ok3, ok4;
    ok0, sessionId := r.GetBytes(16);
    ok1, planHash := r.GetBytes(32);
    ok2, runtimeGeneration := r.GetWord(8);
    ok3, leaseGeneration := r.GetWord(8);
    ok4, leaseTimeout := r.GetWord(4);
    FiveSlices(r.data, 0, 16, 48, 56, 64, 68);
  }

  method ReadPrefixTail(r: ByteReader)
    returns (phase: U16, finalResult: U16, recordCount: U16, snapshotCount: U16, reserved: U32)
    requires r.offset == 68 && |r.data| >= PREFIX_BYTES
    modifies r
    ensures r.offset == PREFIX_BYTES
    ensures r.data[68..PREFIX_BYTES] ==
      Le(phase, 2) + Le(finalResult, 2) + Le(recordCount, 2) + Le(snapshotCount, 2) + Le(reserved, 4)
  {
    Widths();
    var ok0, ok1, ok2, ok3, ok4;
    ok0, phase := r.GetWord(2);
    ok1, finalResult := r.GetWord(2);
    ok2, recordCount := r.GetWord(2);
    ok3, snapshotCount := r.GetWord(2);
    ok4, reserved := r.GetWord(4);
    FiveSlices(r.data, 68, 70, 72, 74, 76, 80);
  }

  method ReadRecord(r: ByteReader) returns (raw: RawRecord)
    requires r.offset + RECORD_BYTES <= |r.data|
    modifies r
    ensures r.offset == old(r.offset) + RECORD_BYTES
    ensures r.data[old(r.offset)..r.offset] == Join(RecordPieces(raw))
  {
    hide Le;
    Widths();
    ghost var at := r.offset;
    var ok0, sequence := r.GetWord(8);
    var ok1, kind := r.GetWord(2);
    var ok2, reserved := r.GetWord(2);
    var ok3, actionId := r.GetWord(4);
    var ok4, generation := r.GetWord(8);
    raw := RawRecord(sequence, kind, reserved, actionId, generation);
    JoinOfFive(Le(sequence, 8), Le(kind, 2), Le(reserved, 2), Le(actionId, 4), Le(generation, 8));
    FiveSlices(r.data, at, at + 8, at + 10, at + 12, at + 16, at + 24);
  }

  /** Fails only on a non-zero reserved field, which no encoded record has. */
  method ReadRecords(r: ByteReader, count: nat, ghost known: Option<seq<Record>>) returns (ok: bool, records: seq<Record>)
    requires r.offset == PREFIX_BYTES && PREFIX_BYTES + RECORD_BYTES * count <= |r.data|
    requires known.Some? ==> |known.value| == count && KnownKinds(known.value)
                             && r.data[PREFIX_BYTES..PREFIX_BYTES + RECORD_BYTES * count] == RecordsBytes(known.value)
    modifies r
    ensures ok ==> r.offset == PREFIX_BYTES + RECORD_BYTES * count && |records| == count
                   && r.data[PREFIX_BYTES..r.offset] == RecordsBytes(records)
    ensures known.Some? ==> ok && records == known.value
  {
    hide RecordPieces, Join;
    records := [];
    var i := 0;
    while i < count
      invariant 0 <= i <= count && |records| == i && r.offset == PREFIX_BYTES + RECORD_BYTES * i
      invariant r.data[PREFIX_BYTES..r.offset] == RecordsBytes(records)
      invariant known.Some? ==> records == known.value[..i]
    {
      ghost var start := r.offset;
      var raw := ReadRecord(r);
      if known.Some? {
        KnownRecord(r.data, known.value, i, raw);
      }
      if raw.reserved != 0 { return false, records; }
      var record := Record(raw.sequence, KindOf(raw.kind), raw.actionId, raw.generation);
      PushRecord(r.data, start, r.offset, records, record, raw);
      records := records + [record];
      i := i + 1;
    }
    return true, records;
  }

  /** The record read at position i of a known journal's bytes is that journal's record i. */
  lemma KnownRecord(data: Bytes, known: seq<Record>, i: nat, raw: RawRecord)
    requires i < |known| && PREFIX_BYTES + RECORD_BYTES * |known| <= |data|
    requires data[PREFIX_BYTES..PREFIX_BYTES + RECORD_BYTES * |known|] == RecordsBytes(known)
    requires data[PREFIX_BYTES + RECORD_BYTES * i..PREFIX_BYTES + RECORD_BYTES * (i + 1)] == Join(RecordPieces(raw))
    ensures raw == RawOf(known[i])
  {
    hide RecordsBytes, RecordPieces, Join, RawOf;
    KnownRecordAt(RecordsBytes(known), known, i);
    var all := data[PREFIX_BYTES..PREFIX_BYTES + RECORD_BYTES * |known|];
    RecordSlice(data, all, RECORD_BYTES * i, RECORD_BYTES * (i + 1));
    RawUnique(raw, RawOf(known[i]));
  }

  lemma RecordSlice(data: Bytes, all: Bytes, lo: nat, hi: nat)
    requires PREFIX_BYTES + |all| <= |data| && all == data[PREFIX_BYTES..PREFIX_BYTES + |all|] && lo <= hi <= |all|
    ensures all[lo..hi] == data[PREFIX_BYTES + lo..PREFIX_BYTES + hi]
  {
    var part := data[PREFIX_BYTES + lo..PREFIX_BYTES + hi];
    assert |all[lo..hi]| == |part| && forall i :: 0 <= i < |part| ==> all[lo..hi][i] == part[i];
  }

  lemma KnownRecordAt(bytes: Bytes, known: seq<Record>, i: nat)
    requires i < |known| && bytes == RecordsBytes(known)
    ensures |bytes| == RECORD_BYTES * |known|
    ensures bytes[RECORD_BYTES * i..RECORD_BYTES * (i + 1)] == Join(RecordPieces(RawOf(known[i])))
  {
    RecordAt(known, i);
  }

  lemma PushRecord(data: Bytes, at: nat, end: nat, records: seq<Record>, record: Record, raw: RawRecord)
    requires PREFIX_BYTES <= at <= end <= |data|
    requires data[PREFIX_BYTES..at] == RecordsBytes(records) && data[at..end] == Join(RecordPieces(raw))
    requires RawOf(record) == raw
    ensures data[PREFIX_BYTES..end] == RecordsBytes(records + [record])
  {
    assert (records + [record])[..|records|] == records;
    assert data[PREFIX_BYTES..end] == data[PREFIX_BYTES..at] + data[at..end];
  }

  method ReadSnapshots(r: ByteReader, count: nat) returns (snapshots: seq<Snapshot>)
    requires r.offset + SNAPSHOT_BYTES * count <= |r.data|
    modifies r
    ensures r.offset == old(r.offset) + SNAPSHOT_BYTES * count && |snapshots| == count
    ensures r.data[old(r.offset)..r.offset] == SnapshotsBytes(snapshots)
  {
    snapshots := [];
    ghost var base := r.offset;
    var i := 0;
    while i < count
      invariant 0 <= i <= count && |snapshots| == i && r.offset == base + SNAPSHOT_BYTES * i
      invariant r.data[base..r.offset] == SnapshotsBytes(snapshots)
    {
      ghost var start := r.offset;
      var snapshot := ReadSnapshot(r);
      assert (snapshots + [snapshot])[..i] == snapshots;
      assert r.data[base..r.offset] == r.data[base..start] + r.data[start..r.offset];
      snapshots := snapshots + [snapshot];
      i := i + 1;
    }
  }

  method ReadSnapshot(r: ByteReader) returns (snapshot: Snapshot)
    requires r.offset + SNAPSHOT_BYTES <= |r.data|
    modifies r
    ensures r.offset == old(r.offset) + SNAPSHOT_BYTES
    ensures r.data[old(r.offset)..r.offset] == Join(SnapshotPieces(snapshot))
  {
    hide Le;
    Widths();
    ghost var at := r.offset;
    var ok0, snapshotId := r.GetWord(8);
    var ok1, sha256 := r.GetBytes(32);
    var ok2, generation := r.GetWord(8);
    snapshot := Snapshot(snapshotId, sha256, generation);
    JoinOfThree(Le(snapshotId, 8), sha256, Le(generation, 8));
    assert r.data[at..at + 48] == r.data[at..at + 8] + r.data[at + 8..at + 40] + r.data[at + 40..at + 48];
  }

  // ---------------------------------------------------------------- corruption

  /** Given its payload, a frame's header has no freedom at all. */
  lemma FrameByPayload(magic: U32, version: U16, a: Bytes, b: Bytes)
    requires IsFrame(magic, version, a) && IsFrame(magic, version, b) && a[HEADER_BYTES..] == b[HEADER_BYTES..]
    ensures a == b
  {
  }

  /** Given its header, a frame's payload has a fixed size and checksum. */
  lemma FrameByOwnHeader(magic: U32, version: U16, a: Bytes, b: Bytes)
    requires IsFrame(magic, version, a) && IsFrame(magic, version, b) && a[..HEADER_BYTES] == b[..HEADER_BYTES]
    requires |a| < 0x1_0000_0000 && |b| < 0x1_0000_0000
    ensures |a| == |b| && Checksum(a[HEADER_BYTES..]) == Checksum(b[HEADER_BYTES..])
  {
    FrameByHeader(magic, version, a);
    FrameByHeader(magic, version, b);
    HeaderUnique(HeaderFor(magic, version, a[HEADER_BYTES..]), HeaderFor(magic, version, b[HEADER_BYTES..]));
  }

  lemma PayloadBurst(bytes: Bytes, damaged: Bytes, lo: nat)
    requires HEADER_BYTES <= lo && DifferOnlyWithin(bytes, damaged, lo, 4)
    ensures bytes[..HEADER_BYTES] == damaged[..HEADER_BYTES]
    ensures Checksum(bytes[HEADER_BYTES..]) == Checksum(damaged[HEADER_BYTES..]) ==> bytes == damaged
  {
    assert damaged[..HEADER_BYTES] == damaged[..lo][..HEADER_BYTES];
    assert bytes[..HEADER_BYTES] == bytes[..lo][..HEADER_BYTES];
    var a, b, at := bytes[HEADER_BYTES..], damaged[HEADER_BYTES..], lo - HEADER_BYTES;
    assert a[..at] == bytes[..lo][HEADER_BYTES..] && b[..at] == damaged[..lo][HEADER_BYTES..];
    assert a[at + 4..] == bytes[lo + 4..] && b[at + 4..] == damaged[lo + 4..];
    BurstDetected(a, b, at, 4);
    assert bytes == bytes[..HEADER_BYTES] + a && damaged == damaged[..HEADER_BYTES] + b;
  }

  /** The ways a stored journal can be damaged that the decoder must notice. */
  ghost predicate Damage(bytes: Bytes, damaged: Bytes) {
    && damaged != bytes
    && (|| |damaged| < HEADER_BYTES
        || (|bytes| >= HEADER_BYTES && damaged[HEADER_BYTES..] == bytes[HEADER_BYTES..])
        || (|damaged| != |bytes| && |bytes| >= HEADER_BYTES && damaged[..HEADER_BYTES] == bytes[..HEADER_BYTES])
        || (exists lo :: HEADER_BYTES <= lo && DifferOnlyWithin(bytes, damaged, lo, 4)))
  }

  lemma FrameDamageDetected(magic: U32, version: U16, bytes: Bytes, damaged: Bytes)
    requires IsFrame(magic, version, bytes) && Damage(bytes, damaged)
    requires |bytes| < 0x1_0000_0000 && |damaged| < 0x1_0000_0000
    ensures !IsFrame(magic, version, damaged)
  {
    if IsFrame(magic, version, damaged) {
      if damaged[HEADER_BYTES..] == bytes[HEADER_BYTES..] {
        FrameByPayload(magic, version, bytes, damaged);
      } else if lo :| HEADER_BYTES <= lo && DifferOnlyWithin(bytes, damaged, lo, 4) {
        PayloadBurst(bytes, damaged, lo);
        FrameByOwnHeader(magic, version, bytes, damaged);
      } else {
        FrameByOwnHeader(magic, version, bytes, damaged);
      }
    }
  }

  lemma DecodedIsFrame(bytes: Bytes, magic: U32, version: U16)
    requires Decoded(bytes).Some? && magic == JOURNAL_MAGIC && version == JOURNAL_VERSION
    ensures IsFrame(magic, version, bytes) && PREFIX_BYTES + HEADER_BYTES <= |bytes| <= MAX_FILE_BYTES
  {
    ValidStateFits(Decoded(bytes).value);
    PayloadLength(Decoded(bytes).value);
  }

  /**
   * A stored journal cut below its header, cut or grown behind an intact header, changed anywhere in its header,
   * or changed within four consecutive payload bytes no longer decodes.
   */
  lemma DamageDetected(bytes: Bytes, damaged: Bytes)
    requires Decoded(bytes).Some? && Damage(bytes, damaged)
    ensures Decoded(damaged).None?
  {
    if Decoded(damaged).Some? {
      var magic, version := JOURNAL_MAGIC, JOURNAL_VERSION;
      DecodedIsFrame(bytes, magic, version);
      DecodedIsFrame(damaged, magic, version);
      FrameDamageDetected(magic, version, bytes, damaged);
    }
  }

  /** Changing any one byte of an encoded journal makes it undecodable. */
  lemma SingleByteDamageDetected(bytes: Bytes, i: nat, value: U8)
    requires Decoded(bytes).Some? && i < |bytes| && value != bytes[i]
    ensures Decoded(bytes[i := value]).None?
  {
    var damaged := bytes[i := value];
    DecodedIsFrame(bytes, JOURNAL_MAGIC, JOURNAL_VERSION);
    assert damaged[i] != bytes[i];
    if i >= HEADER_BYTES {
      var lo := if i + 4 <= |bytes| then i else |bytes| - 4;
      assert DifferOnlyWithin(bytes, damaged, lo, 4);
    }
    DamageDetected(bytes, damaged);
  }
}
