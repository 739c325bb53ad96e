/** One explicit sharing session: prepare, approve the exact bytes, submit. */
module Submission {
  import opened Words

  /** A compatibility result; the fields the sharing flow never looks at are its body. */
  datatype CompatibilityResult = CompatibilityResult(resultId: string, protectedExperimental: bool, body: string)

  /** The result schema, which is not part of this model: canonical form, public environment, JSON codec, hash. */
  datatype Codec = Codec(
    canonical: CompatibilityResult -> Option<CompatibilityResult>,
    publicEnvironment: CompatibilityResult -> bool,
    encode: CompatibilityResult -> Option<string>,
    decode: string -> Option<CompatibilityResult>,
    identity: string -> string)

  datatype Availability = Available | Offline | Unavailable

  /** `Unknown` stands for a value outside the enumeration. */
  datatype TransportResult =
    | Accepted | DuplicateAccepted | TransportOffline | TransportUnavailable | Timeout
    | RetryableFailure | PermanentFailure | InvalidResponse | Unknown

  datatype Envelope = Envelope(submissionId: string, idempotencyKey: string, resultId: string, json: string,
                               protectedExperimental: bool)

  datatype Receipt = Receipt(result: TransportResult, receiptId: Option<string>, remoteAccepted: bool) {
    predicate Succeeded() { result.Accepted? || result.DuplicateAccepted? }
  }

  const DEFAULT_RECEIPT := Receipt(RetryableFailure, None, false)

  datatype SubmissionCode =
    | Success | InvalidResult | PreviewRequired | PreviewMismatch | OfflineCode | UnavailableCode | TimeoutCode
    | RetryableCode | PermanentCode | InvalidTransportResponse

  const MAXIMUM_RECEIPT_BYTES := 128

  predicate ReceiptChar(c: char) {
    'A' <= c <= 'Z' || 'a' <= c <= 'z' || '0' <= c <= '9' || c == '-' || c == '_' || c == '.' || c == ':'
  }

  predicate ValidReceiptId(id: string) {
    0 < |id| <= MAXIMUM_RECEIPT_BYTES && forall i :: 0 <= i < |id| ==> ReceiptChar(id[i])
  }

  function ValidateReceipt(r: Receipt): SubmissionCode {
    if r.result.Unknown? then InvalidTransportResponse
    else if r.receiptId.Some? && !ValidReceiptId(r.receiptId.value) then InvalidTransportResponse
    else if r.Succeeded() then
      if !r.remoteAccepted || r.receiptId.None? then InvalidTransportResponse else Success
    else if r.remoteAccepted then InvalidTransportResponse
    else Success
  }

  function TransportFailure(r: Receipt): SubmissionCode {
    match r.result
    case Accepted => Success
    case DuplicateAccepted => Success
    case TransportOffline => OfflineCode
    case TransportUnavailable => UnavailableCode
    case Timeout => TimeoutCode
    case RetryableFailure => RetryableCode
    case PermanentFailure => PermanentCode
    case InvalidResponse => InvalidTransportResponse
    case Unknown => InvalidTransportResponse
  }

  /** The transport proved that the remote side took the result. */
  predicate Proven(r: Receipt) {
    r.Succeeded() && r.remoteAccepted && r.receiptId.Some? && ValidReceiptId(r.receiptId.value)
  }

  /** The answer says of acceptance only what its result allows, and any receipt it names is well formed. */
  predicate Coherent(r: Receipt) {
    && !r.result.Unknown?
    && (r.receiptId.Some? ==> ValidReceiptId(r.receiptId.value))
    && (r.remoteAccepted <==> r.result.Accepted? || r.result.DuplicateAccepted?)
    && (r.remoteAccepted ==> r.receiptId.Some?)
  }

  /** What a submission reports for an answer. */
  function AnswerCode(r: Receipt): SubmissionCode {
    if !Coherent(r) || r.result.InvalidResponse? then InvalidTransportResponse
    else if r.remoteAccepted then Success
    else if r.result.TransportOffline? then OfflineCode
    else if r.result.TransportUnavailable? then UnavailableCode
    else if r.result.Timeout? then TimeoutCode
    else if r.result.RetryableFailure? then RetryableCode
    else PermanentCode
  }

  /** A receipt passes both checks exactly when it proves acceptance; otherwise the code says why not. */
  lemma AcceptanceProven(r: Receipt)
    ensures ValidateReceipt(r) == Success && TransportFailure(r) == Success <==> Proven(r)
    ensures ValidateReceipt(r) == Success <==> Coherent(r)
    ensures (if ValidateReceipt(r) != Success then ValidateReceipt(r) else TransportFailure(r)) == AnswerCode(r)
  {
  }

  const UPPER := "ABCDEFGHIJKLMNOPQRSTUVWXYZ"
  const LOWER := "abcdefghijklmnopqrstuvwxyz"
  const DIGITS := "0123456789"

  lemma UpperExactly(c: char)
    ensures 'A' <= c <= 'Z' <==> c in UPPER
  {
    if 'A' <= c <= 'Z' { assert UPPER[c as int - 65] == c; }
  }

  lemma LowerExactly(c: char)
    ensures 'a' <= c <= 'z' <==> c in LOWER
  {
    if 'a' <= c <= 'z' { assert LOWER[c as int - 97] == c; }
  }

  lemma DigitExactly(c: char)
    ensures '0' <= c <= '9' <==> c in DIGITS
  {
    if '0' <= c <= '9' { assert DIGITS[c as int - 48] == c; }
  }

  predicate ReceiptLetter(c: char) {
    c in UPPER || c in LOWER || c in DIGITS || c in "-_.:"
  }

  /** What counts as proof of acceptance, down to the letters of the receipt. */
  lemma ProvenExactly(r: Receipt)
    ensures Proven(r) <==>
              && (r.result == Accepted || r.result == DuplicateAccepted) && r.remoteAccepted
              && r.receiptId.Some? && 1 <= |r.receiptId.value| <= 128
              && forall c :: c in r.receiptId.value ==> ReceiptLetter(c)
  {
    forall c: char
      ensures ReceiptChar(c) <==> ReceiptLetter(c)
    {
      UpperExactly(c);
      LowerExactly(c);
      DigitExactly(c);
    }
    if r.receiptId.Some? {
      hide ReceiptLetter, ReceiptChar;
      assert (forall c :: c in r.receiptId.value ==> ReceiptLetter(c)) <==>
             (forall c :: c in r.receiptId.value ==> ReceiptChar(c));
    }
  }

  function EnvelopeOf(codec: Codec, r: CompatibilityResult, json: string): Envelope {
    Envelope("compat:" + r.resultId, "compat-v1-" + codec.identity(json), r.resultId, json, r.protectedExperimental)
  }

  /** What prepare freezes for a result; None when the result has no valid encoding. */
  function Prepared(codec: Codec, r: CompatibilityResult): Option<Envelope> {
    var canonical := codec.canonical(r);
    if canonical.None? then None
    else
      var json := codec.encode(canonical.value);
      if json.None? then None else Some(EnvelopeOf(codec, canonical.value, json.value))
  }

  /**
   * The outside world. It changes its availability at will, and may answer anything; the log is what it has received,
   * answers is what it has said.
   */
  class Transport {
    var availability: Availability
    ghost var log: seq<Envelope>
    ghost var answers: seq<Receipt>

    constructor ()
      ensures log == [] && answers == []
    {
      availability, log, answers := *, [], [];
    }

    method Drift()
      modifies this`availability
    {
      availability := *;
    }

    method Submit(envelope: Envelope) returns (r: Receipt)
      modifies this
      ensures log == old(log) + [envelope] && answers == old(answers) + [r]
    {
      r := *;
      log, answers := log + [envelope], answers + [r];
      Drift();
    }

    ghost function LastAnswer(): Receipt
      requires answers != []
      reads this
    {
      answers[|answers| - 1]
    }
  }

  class Session {
    const codec: Codec
    var localResult: Option<CompatibilityResult>
    var envelope: Option<Envelope>
    var approved: bool

    /** Whatever is prepared is what prepare makes of the result it was given. */
    ghost predicate Valid()
      reads this
    {
      && (approved ==> envelope.Some?)
      && (envelope.Some? ==> localResult.Some? && exists r :: codec.canonical(r) == localResult && Prepared(codec, r) == envelope)
    }

    constructor (codec: Codec)
      ensures Valid() && envelope.None? && !approved && this.codec == codec
    {
      this.codec := codec;
      localResult, envelope, approved := None, None, false;
    }

    method Prepare(r: CompatibilityResult) returns (code: SubmissionCode)
      requires Valid()
      modifies this
      ensures Valid()
      ensures code == if Prepared(codec, r).Some? then Success else InvalidResult
      ensures code == Success ==> envelope == Prepared(codec, r) && !approved
      ensures code != Success ==> envelope == old(envelope) && approved == old(approved)
    {
      var canonical := codec.canonical(r);
      if canonical.None? { return InvalidResult; }
      var json := codec.encode(canonical.value);
      if json.None? { return InvalidResult; }
      localResult := canonical;
      envelope := Some(EnvelopeOf(codec, canonical.value, json.value));
      approved := false;
      code := Success;
    }

    method Approve(json: string) returns (code: SubmissionCode)
      requires Valid()
      modifies this`approved
      ensures Valid()
      ensures code == if envelope.None? then PreviewRequired
                      else if json != envelope.value.json then PreviewMismatch else Success
      ensures approved == if envelope.None? then old(approved) else code == Success
    {
      if envelope.None? { return PreviewRequired; }
      approved := json == envelope.value.json;
      code := if approved then Success else PreviewMismatch;
    }

    /** One message, the prepared envelope, exactly when it was approved and the transport is there; its answer decides. */
    method Submit(transport: Transport) returns (code: SubmissionCode, receipt: Receipt, sent: bool)
      requires Valid()
      modifies transport
      ensures sent <==> envelope.Some? && approved && old(transport.availability).Available?
      ensures !sent ==> transport.log == old(transport.log) && transport.answers == old(transport.answers)
      ensures sent ==>
                && transport.log == old(transport.log) + [envelope.value]
                && |transport.answers| == |old(transport.answers)| + 1
                && (code == Success <==> Proven(transport.LastAnswer()))
                && code == AnswerCode(transport.LastAnswer())
                && receipt == if Coherent(transport.LastAnswer()) then transport.LastAnswer() else DEFAULT_RECEIPT
      ensures !sent ==>
                && receipt == DEFAULT_RECEIPT
                && code == if envelope.None? || !approved then PreviewRequired
                           else if old(transport.availability).Offline? then OfflineCode else UnavailableCode
    {
      receipt, sent := DEFAULT_RECEIPT, false;
      if envelope.None? || !approved { return PreviewRequired, receipt, sent; }
      var a := transport.availability;
      if a.Offline? { return OfflineCode, receipt, sent; }
      if a.Unavailable? { return UnavailableCode, receipt, sent; }
      var candidate := transport.Submit(envelope.value);
      sent := true;
      AcceptanceProven(candidate);
      code := ValidateReceipt(candidate);
      if code != Success { return; }
      receipt := candidate;
      code := TransportFailure(candidate);
    }
  }
}
