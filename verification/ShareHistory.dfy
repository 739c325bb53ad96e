/** The local history file: a header line and one encoded result a line, kept to a retention limit. */
module ShareHistory {
  import opened Words
  import opened Submission

  datatype ShareCode =
    | Done | InvalidResultCode | NoActiveResult | InvalidState | PreviewMissing | SubmissionFailed
    | InvalidPrivacySettings | SharingDisabled | ResultNotFound | ExportFailed | InvalidLocalHistory
    | LocalHistoryTooLarge | StaleApproval | PayloadIdentityMismatch

  const MAXIMUM_RETAINED := 64
  const MAXIMUM_RESULT_BYTES := 262144
  const MAXIMUM_HISTORY_BYTES := MAXIMUM_RETAINED * (MAXIMUM_RESULT_BYTES + 1) + 128
  const HEADER_SCHEMA := "{\"schemaVersion\":1,\"kind\":"
  const HEADER_KIND := "\"compatibility-local-history\"}"
  const HEADER := HEADER_SCHEMA + HEADER_KIND

  /** The newest `limit` elements. */
  function Kept<T>(s: seq<T>, limit: nat): (r: seq<T>)
    ensures |r| == if |s| <= limit then |s| else limit
  {
    if |s| <= limit then s else s[|s| - limit..]
  }

  lemma KeptTwice<T>(s: seq<T>, t: seq<T>, limit: nat)
    ensures Kept(Kept(s, limit) + t, limit) == Kept(s + t, limit)
  {
    if |s| > limit {
      var a, b, cut := Kept(s, limit) + t, s + t, |s| - limit;
      assert a == b[cut..];
      assert a[|t|..] == b[cut + |t|..];
    }
  }

  // ---------------------------------------------------------------- laws of the codec

  /** Canonical form is a fixed point and keeps the result's id. */
  ghost predicate Lawful(codec: Codec) {
    forall r :: codec.canonical(r).Some? ==>
      codec.canonical(r).value.resultId == r.resultId && codec.canonical(codec.canonical(r).value) == codec.canonical(r)
  }

  predicate IsLine(line: string) {
    && 0 < |line| <= MAXIMUM_RESULT_BYTES && line[|line| - 1] != '\r'
    && forall i :: 0 <= i < |line| ==> line[i] != '\n'
  }

  predicate Recordable(codec: Codec, r: CompatibilityResult) {
    codec.canonical(r) == Some(r) && codec.publicEnvironment(r)
  }

  /** Every canonical result prints as one line and is read back from it. */
  ghost predicate Faithful(codec: Codec) {
    forall r :: codec.canonical(r) == Some(r) ==>
      && codec.encode(r).Some? && IsLine(codec.encode(r).value)
      && codec.decode(codec.encode(r).value) == Some(r)
  }

  predicate DistinctIds(results: seq<CompatibilityResult>) {
    forall i, j :: 0 <= i < j < |results| ==> results[i].resultId != results[j].resultId
  }

  function Ids(results: seq<CompatibilityResult>): set<string> {
    set r | r in results :: r.resultId
  }

  // ---------------------------------------------------------------- text to results

  function NewlineFrom(text: string, from: nat): (k: nat)
    requires from <= |text|
    ensures from <= k <= |text| && (k < |text| ==> text[k] == '\n') && forall i :: from <= i < k ==> text[i] != '\n'
    decreases |text| - from
  {
    if from == |text| || text[from] == '\n' then from else NewlineFrom(text, from + 1)
  }

  function Lines(text: string): (lines: seq<string>)
    ensures |lines| > 0
    decreases |text|
  {
    var k := NewlineFrom(text, 0);
    if k == |text| then [text] else [text[..k]] + Lines(text[k + 1..])
  }

  function StripCr(line: string): string {
    if line != "" && line[|line| - 1] == '\r' then line[..|line| - 1] else line
  }

  predicate IsHeader(line: string) { StripCr(line) == HEADER }

  datatype Loaded = Restored(results: seq<CompatibilityResult>) | Refused(code: ShareCode)

  /** One line on top of what is kept so far. */
  function RestoreLine(codec: Codec, line: string, limit: nat, seen: set<string>, count: nat,
                       kept: seq<CompatibilityResult>): (step: Loaded)
    ensures step.Refused? ==> step.code != Done
  {
    if line == "" then Refused(InvalidLocalHistory)
    else if |line| > MAXIMUM_RESULT_BYTES || count + 1 > MAXIMUM_RETAINED then Refused(LocalHistoryTooLarge)
    else
      var decoded := codec.decode(line);
      if decoded.None? || decoded.value.resultId in seen then Refused(InvalidLocalHistory)
      else
        var r := codec.canonical(decoded.value);
        if r.None? || !codec.publicEnvironment(r.value) || r.value.resultId in Ids(kept) then Refused(InvalidLocalHistory)
        else Restored(Kept(kept + [r.value], limit))
  }

  function LineId(codec: Codec, line: string): string {
    var decoded := codec.decode(line);
    if decoded.None? then "" else decoded.value.resultId
  }

  function RestoreLines(codec: Codec, lines: seq<string>, limit: nat, seen: set<string>, count: nat,
                        kept: seq<CompatibilityResult>): Loaded
    decreases |lines|
  {
    if lines == [] then Restored(kept)
    else
      var line := StripCr(lines[0]);
      var step := RestoreLine(codec, line, limit, seen, count, kept);
      if step.Refused? then step
      else RestoreLines(codec, lines[1..], limit, seen + {LineId(codec, line)}, count + 1, step.results)
  }

  function LoadedHistory(codec: Codec, text: string, limit: nat): Loaded {
    if text == "" then Refused(InvalidLocalHistory)
    else if |text| > MAXIMUM_HISTORY_BYTES then Refused(LocalHistoryTooLarge)
    else if !IsHeader(Lines(text)[0]) then Refused(InvalidLocalHistory)
    else RestoreLines(codec, Lines(text)[1..], limit, {}, 0, [])
  }

  // ---------------------------------------------------------------- results to text

  function Encodable(codec: Codec, results: seq<CompatibilityResult>): bool {
    forall i :: 0 <= i < |results| ==> codec.encode(results[i]).Some?
  }

  function HistoryText(codec: Codec, results: seq<CompatibilityResult>): string
    requires Encodable(codec, results)
    decreases |results|
  {
    if results == [] then HEADER
    else HistoryText(codec, results[..|results| - 1]) + "\n" + codec.encode(results[|results| - 1]).value
  }

  function EncodedLines(codec: Codec, results: seq<CompatibilityResult>): (lines: seq<string>)
    requires Encodable(codec, results)
    ensures |lines| == |results| && forall i :: 0 <= i < |lines| ==> lines[i] == codec.encode(results[i]).value
  {
    seq(|results|, i requires 0 <= i < |results| => codec.encode(results[i]).value)
  }

  lemma {:induction false} NewlineAfter(a: string, b: string, from: nat)
    requires from <= |a| && forall i :: 0 <= i < |a| ==> a[i] != '\n'
    ensures NewlineFrom(a + "\n" + b, from) == |a| && NewlineFrom(a, from) == |a|
    decreases |a| - from
  {
    if from < |a| { NewlineAfter(a, b, from + 1); }
  }

  lemma {:induction false} LinesAppend(text: string, line: string)
    requires forall i :: 0 <= i < |line| ==> line[i] != '\n'
    ensures Lines(text + "\n" + line) == Lines(text) + [line]
    decreases |text|
  {
    hide Lines, NewlineFrom;
    FirstLine(text);
    var k := NewlineFrom(text, 0);
    if k == |text| {
      LinesSplit(text, line);
      Unbroken(line);
    } else {
      var rest := text[k + 1..];
      assert text + "\n" + line == text[..k] + "\n" + (rest + "\n" + line);
      LinesSplit(text[..k], rest + "\n" + line);
      LinesAppend(rest, line);
      assert [text[..k]] + (Lines(rest) + [line]) == ([text[..k]] + Lines(rest)) + [line];
    }
  }

  lemma FirstLine(text: string)
    ensures var k := NewlineFrom(text, 0);
      Lines(text) == if k == |text| then [text] else [text[..k]] + Lines(text[k + 1..])
  {
  }

  lemma LinesSplit(a: string, b: string)
    requires forall i :: 0 <= i < |a| ==> a[i] != '\n'
    ensures Lines(a + "\n" + b) == [a] + Lines(b)
  {
    NewlineAfter(a, b, 0);
    var whole := a + "\n" + b;
    assert whole[..|a|] == a && whole[|a| + 1..] == b;
  }

  lemma Unbroken(line: string)
    requires forall i :: 0 <= i < |line| ==> line[i] != '\n'
    ensures Lines(line) == [line]
  {
    NewlineAfter(line, "", 0);
  }

  lemma HeaderLine()
    ensures Lines(HEADER) == [HEADER]
  {
    HeaderUnbroken();
    NewlineAfter(HEADER, "", 0);
    OneLine(HEADER);
  }

  lemma HeaderUnbroken()
    ensures forall i :: 0 <= i < |HEADER| ==> HEADER[i] != '\n'
  {
    var schema, kind := HEADER_SCHEMA, HEADER_KIND;
    forall i | 0 <= i < |schema| ensures schema[i] != '\n' {}
    forall i | 0 <= i < |kind| ensures kind[i] != '\n' {}
  }

  lemma OneLine(line: string)
    requires NewlineFrom(line, 0) == |line|
    ensures Lines(line) == [line]
  {
  }

  lemma {:induction false} HistoryLines(codec: Codec, results: seq<CompatibilityResult>)
    requires Faithful(codec) && Encodable(codec, results) && forall i :: 0 <= i < |results| ==> Recordable(codec, results[i])
    ensures Lines(HistoryText(codec, results)) == [HEADER] + EncodedLines(codec, results)
    ensures |HistoryText(codec, results)| <= |HEADER| + |results| * (MAXIMUM_RESULT_BYTES + 1)
    decreases |results|
  {
    hide Faithful;
    if results == [] {
      HeaderLine();
      assert EncodedLines(codec, results) == [];
    } else {
      var init, last := results[..|results| - 1], results[|results| - 1];
      HistoryLines(codec, init);
      FaithfulLine(codec, last);
      LinesAppend(HistoryText(codec, init), codec.encode(last).value);
      assert EncodedLines(codec, results) == EncodedLines(codec, init) + [codec.encode(last).value];
    }
  }

  lemma FaithfulLine(codec: Codec, r: CompatibilityResult)
    requires Faithful(codec) && Recordable(codec, r)
    ensures codec.encode(r).Some? && IsLine(codec.encode(r).value) && codec.decode(codec.encode(r).value) == Some(r)
  {
  }

  // ---------------------------------------------------------------- the round trip

  lemma {:induction false} RestoreEncoded(codec: Codec, results: seq<CompatibilityResult>, n: nat, limit: nat)
    requires Faithful(codec) && Encodable(codec, results) && DistinctIds(results)
    requires forall i :: 0 <= i < |results| ==> Recordable(codec, results[i])
    requires n <= |results| <= limit && |results| <= MAXIMUM_RETAINED
    ensures RestoreLines(codec, EncodedLines(codec, results)[n..], limit, Ids(results[..n]), n, results[..n]) == Restored(results)
    decreases |results| - n
  {
    hide Faithful, Ids;
    var lines := EncodedLines(codec, results);
    if n == |results| {
      assert results[..n] == results;
    } else {
      var r, line := results[n], lines[n];
      FaithfulLine(codec, r);
      assert StripCr(lines[n..][0]) == line;
      NewId(results, n);
      assert lines[n..][1..] == lines[n + 1..];
      assert results[..n] + [r] == results[..n + 1];
      RestoreEncoded(codec, results, n + 1, limit);
    }
  }

  lemma NewId(results: seq<CompatibilityResult>, n: nat)
    requires DistinctIds(results) && n < |results|
    ensures results[n].resultId !in Ids(results[..n])
    ensures Ids(results[..n]) + {results[n].resultId} == Ids(results[..n + 1])
  {
    assert results[..n + 1] == results[..n] + [results[n]];
  }

  /** Loading what was exported, under no smaller a limit, restores the same results in the same order. */
  lemma ExportedHistoryLoads(codec: Codec, results: seq<CompatibilityResult>, limit: nat)
    requires Faithful(codec) && DistinctIds(results) && |results| <= limit <= MAXIMUM_RETAINED
    requires forall i :: 0 <= i < |results| ==> Recordable(codec, results[i])
    ensures Encodable(codec, results) && LoadedHistory(codec, HistoryText(codec, results), limit) == Restored(results)
  {
    hide Faithful;
    forall i | 0 <= i < |results| ensures codec.encode(results[i]).Some? { FaithfulLine(codec, results[i]); }
    HistoryLines(codec, results);
    var lines := EncodedLines(codec, results);
    assert ([HEADER] + lines)[1..] == lines == lines[0..];
    RestoreEncoded(codec, results, 0, limit);
    assert results[..0] == [] && Ids(results[..0]) == {};
    HistoryFits(codec, results);
  }

  lemma HistoryFits(codec: Codec, results: seq<CompatibilityResult>)
    requires Faithful(codec) && |results| <= MAXIMUM_RETAINED && Encodable(codec, results)
    requires forall i :: 0 <= i < |results| ==> Recordable(codec, results[i])
    ensures 0 < |HistoryText(codec, results)| <= MAXIMUM_HISTORY_BYTES
  {
    hide Faithful, Recordable;
    HistoryLines(codec, results);
    HeaderLength();
  }

  lemma HeaderLength()
    ensures 0 < |HEADER| <= 128
  {
  }

  // ---------------------------------------------------------------- smaller limits

  lemma KeptIds(s: seq<CompatibilityResult>, limit: nat)
    ensures Ids(Kept(s, limit)) <= Ids(s)
  {
  }

  lemma {:induction false} RestoreWithLimit(codec: Codec, lines: seq<string>, limit: nat, seen: set<string>, count: nat,
                                            all: seq<CompatibilityResult>)
    requires Lawful(codec) && 0 < limit <= MAXIMUM_RETAINED && count == |all| <= MAXIMUM_RETAINED && Ids(all) <= seen
    ensures RestoreLines(codec, lines, limit, seen, count, Kept(all, limit)) ==
            match RestoreLines(codec, lines, MAXIMUM_RETAINED, seen, count, all)
            case Restored(results) => Restored(Kept(results, limit))
            case Refused(code) => Refused(code)
    decreases |lines|
  {
    hide Lawful, Ids, RestoreLine, Kept;
    if lines != [] {
      var line := StripCr(lines[0]);
      StepWithLimit(codec, line, limit, seen, count, all);
      var step := RestoreLine(codec, line, MAXIMUM_RETAINED, seen, count, all);
      if step.Restored? {
        RestoreWithLimit(codec, lines[1..], limit, seen + {LineId(codec, line)}, count + 1, step.results);
      }
    }
  }

  lemma StepWithLimit(codec: Codec, line: string, limit: nat, seen: set<string>, count: nat, all: seq<CompatibilityResult>)
    requires Lawful(codec) && 0 < limit <= MAXIMUM_RETAINED && count == |all| <= MAXIMUM_RETAINED && Ids(all) <= seen
    ensures var step := RestoreLine(codec, line, MAXIMUM_RETAINED, seen, count, all);
      && RestoreLine(codec, line, limit, seen, count, Kept(all, limit)) ==
           (if step.Restored? then Restored(Kept(step.results, limit)) else step)
      && (step.Restored? ==>
            |step.results| == count + 1 <= MAXIMUM_RETAINED && Ids(step.results) <= seen + {LineId(codec, line)})
  {
    hide Lawful, Ids;
    KeptIds(all, limit);
    var decoded := codec.decode(line);
    if decoded.Some? {
      LawfulId(codec, decoded.value);
      var r := codec.canonical(decoded.value);
      if r.Some? {
        KeptTwice(all, [r.value], limit);
        AddedIds(all, r.value);
      }
    }
  }

  lemma AddedIds(all: seq<CompatibilityResult>, r: CompatibilityResult)
    ensures Ids(all + [r]) == Ids(all) + {r.resultId}
  {
    assert forall x :: x in all + [r] <==> x in all || x == r;
    assert r in all + [r];
  }

  lemma LawfulId(codec: Codec, r: CompatibilityResult)
    requires Lawful(codec)
    ensures codec.canonical(r).Some? ==> codec.canonical(r).value.resultId == r.resultId
  {
  }

  /** A smaller limit changes neither acceptance nor anything but the length: the newest results are kept. */
  lemma SmallerLimitKeepsNewest(codec: Codec, text: string, limit: nat)
    requires Lawful(codec) && 0 < limit <= MAXIMUM_RETAINED
    ensures LoadedHistory(codec, text, limit) ==
            match LoadedHistory(codec, text, MAXIMUM_RETAINED)
            case Restored(results) => Restored(Kept(results, limit))
            case Refused(code) => Refused(code)
  {
    hide Lawful;
    if text != "" && |text| <= MAXIMUM_HISTORY_BYTES && IsHeader(Lines(text)[0]) {
      assert Kept<CompatibilityResult>([], limit) == [];
      RestoreWithLimit(codec, Lines(text)[1..], limit, {}, 0, []);
    }
  }
}
