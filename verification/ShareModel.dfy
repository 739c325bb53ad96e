/** The local-first sharing model: results, previews, one-use approvals, and what may reach the transport. */
module ShareModel {
  import opened Words
  import opened Submission
  import opened ShareHistory

  const CANONICALIZATION_VERSION := 1
  const DEFAULT_RETAINED := 32

  datatype ShareState =
    | TestNotRun | LocalResultAvailable | PreviewReady | UserDeclined
    | SubmitPending | SubmitSucceeded | SubmitFailed | Superseded

  datatype Preview = Preview(version: nat, json: string, identity: string, submissionId: string,
                             protectedExperimental: bool, generation: U64)

  datatype ShareEntry = ShareEntry(result: CompatibilityResult, state: ShareState, preview: Option<Preview>,
                                   receipt: Option<Receipt>, lastCode: Option<SubmissionCode>, supersededBy: Option<string>)

  datatype Settings = Settings(sharing: bool, retained: nat)

  datatype LocalExport = LocalExport(resultId: Option<string>, json: string, identity: string, generation: U64, approved: bool)

  datatype ExportPreview = ExportPreview(version: nat, resultId: string, json: string, identity: string, generation: U64)

  const NO_EXPORT := LocalExport(None, "", "", 0, false)

  /** What happened to consent: an approval was given, it was withdrawn, a message went out. */
  datatype Event =
    | Approved(json: string, resultId: string)
    | Withdrawn
    | Sent(envelope: Envelope, sharing: bool)

  /** Every message went out with sharing enabled, straight after the approval of its bytes for its result. */
  predicate Consented(events: seq<Event>) {
    forall k :: 0 <= k < |events| && events[k].Sent? ==>
      && events[k].sharing
      && k > 0 && events[k - 1] == Approved(events[k].envelope.json, events[k].envelope.resultId)
  }

  function CountSent(events: seq<Event>): nat {
    if events == [] then 0
    else CountSent(events[..|events| - 1]) + (if events[|events| - 1].Sent? then 1 else 0)
  }

  function CountApproved(events: seq<Event>): nat {
    if events == [] then 0
    else CountApproved(events[..|events| - 1]) + (if events[|events| - 1].Approved? then 1 else 0)
  }

  /** One approval lets out one message at most. */
  lemma {:induction false} OneMessageEach(events: seq<Event>)
    requires Consented(events)
    ensures CountSent(events) <= CountApproved(events)
    ensures events != [] && events[|events| - 1].Approved? ==> CountSent(events) < CountApproved(events)
    decreases |events|
  {
    if events != [] {
      var init := events[..|events| - 1];
      OneMessageEach(init);
      if events[|events| - 1].Sent? { assert events[|events| - 2] == init[|init| - 1]; }
    }
  }

  // ---------------------------------------------------------------- the history

  function Results(h: seq<ShareEntry>): (r: seq<CompatibilityResult>)
    ensures |r| == |h| && forall i :: 0 <= i < |h| ==> r[i] == h[i].result
  {
    seq(|h|, i requires 0 <= i < |h| => h[i].result)
  }

  /** Only the newest entry can be active, and all others are superseded. */
  ghost predicate HistoryOk(codec: Codec, h: seq<ShareEntry>, active: Option<nat>, retained: nat) {
    1 <= retained <= MAXIMUM_RETAINED && |h| <= retained && Shaped(codec, h, active)
  }

  ghost predicate Shaped(codec: Codec, h: seq<ShareEntry>, active: Option<nat>) {
    && DistinctIds(Results(h))
    && (active.Some? ==> h != [] && active.value == |h| - 1)
    && (forall i :: 0 <= i < |h| && active != Some(i) ==> h[i].state.Superseded?)
    && (forall i :: 0 <= i < |h| ==> Recordable(codec, h[i].result))
  }

  /** The preview on show is the envelope that would be sent. */
  predicate Shows(p: Preview, e: Envelope) {
    && p.version == CANONICALIZATION_VERSION && p.json == e.json && p.identity == e.idempotencyKey
    && p.submissionId == e.submissionId && p.protectedExperimental == e.protectedExperimental
  }

  predicate NeedsPreview(s: ShareState) {
    s.PreviewReady? || s.UserDeclined? || s.SubmitPending? || s.SubmitFailed?
  }

  /** The active entry's preview is the last one issued, for the envelope that is prepared; pending means approved. */
  ghost predicate ActiveOk(codec: Codec, entry: ShareEntry, envelope: Option<Envelope>, approved: bool, sharing: bool,
                           issued: seq<Preview>, events: seq<Event>) {
    && !entry.state.Superseded? && !entry.state.TestNotRun?
    && (entry.preview.Some? ==>
          && issued != [] && issued[|issued| - 1] == entry.preview.value
          && envelope.Some? && Shows(entry.preview.value, envelope.value)
          && envelope.value.resultId == entry.result.resultId && Prepared(codec, entry.result) == envelope)
    && (NeedsPreview(entry.state) ==> entry.preview.Some?)
    && (entry.state.SubmitPending? ==>
          approved && sharing && events != []
          && events[|events| - 1] == Approved(entry.preview.value.json, entry.result.resultId))
  }

  /** Generations were handed out in increasing order, never zero; zero next means they are used up. */
  ghost predicate Numbered(issued: seq<Preview>, next: U64) {
    && (forall i :: 0 <= i < |issued| ==> 0 < issued[i].generation && (next == 0 || issued[i].generation < next))
    && (forall i, j :: 0 <= i < j < |issued| ==> issued[i].generation < issued[j].generation)
  }

  /** What is frozen for export is the encoding of a result in the history. */
  ghost predicate ExportOk(codec: Codec, x: LocalExport, h: seq<ShareEntry>) {
    && (x.approved ==> x.resultId.Some?)
    && (x.resultId.Some? ==> x.generation != 0 && exists i :: 0 <= i < |h| && FrozenFrom(codec, x, h[i].result))
  }

  predicate FrozenFrom(codec: Codec, x: LocalExport, r: CompatibilityResult) {
    && x.resultId == Some(r.resultId) && Prepared(codec, r).Some?
    && Prepared(codec, r).value.json == x.json && Prepared(codec, r).value.idempotencyKey == x.identity
  }

  /** What changing the settings does to the active entry. */
  function Adjusted(e: ShareEntry, retentionChanged: bool, sharing: bool): ShareEntry {
    var a :=
      if retentionChanged && e.preview.Some? then
        e.(preview := None,
           state := if NeedsPreview(e.state) then LocalResultAvailable else e.state)
      else e;
    if !sharing && a.state.SubmitPending? then a.(state := PreviewReady) else a
  }

  function SetActive(h: seq<ShareEntry>, active: Option<nat>, e: ShareEntry): seq<ShareEntry> {
    if active.Some? && active.value < |h| then h[active.value := e] else h
  }

  /** The history after a new result: the active one is superseded, the new one becomes active, the oldest may go. */
  function WithRecorded(h: seq<ShareEntry>, active: Option<nat>, r: CompatibilityResult, retained: nat): seq<ShareEntry> {
    Kept(Marked(h, active, r.resultId) + [Fresh(r)], retained)
  }

  function Marked(h: seq<ShareEntry>, active: Option<nat>, id: string): seq<ShareEntry> {
    if active.Some? && active.value < |h|
    then h[active.value := h[active.value].(state := Superseded, supersededBy := Some(id))]
    else h
  }

  function Fresh(r: CompatibilityResult): ShareEntry {
    ShareEntry(r, LocalResultAvailable, None, None, None, None)
  }

  lemma RecordedOk(codec: Codec, h: seq<ShareEntry>, active: Option<nat>, r: CompatibilityResult, retained: nat)
    requires HistoryOk(codec, h, active, retained) && Recordable(codec, r)
    requires forall i :: 0 <= i < |h| ==> h[i].result.resultId != r.resultId
    ensures var g := WithRecorded(h, active, r, retained);
      HistoryOk(codec, g, Some(|g| - 1), retained) && g != [] && g[|g| - 1] == Fresh(r)
      && Results(g) == Kept(Results(h) + [r], retained)
  {
    hide Shaped;
    var marked := Marked(h, active, r.resultId);
    MarkShape(codec, h, active, r.resultId);
    PushShape(codec, marked, r);
    KeptShape(codec, marked + [Fresh(r)], Some(|h|), retained);
  }

  lemma MarkShape(codec: Codec, h: seq<ShareEntry>, active: Option<nat>, id: string)
    requires Shaped(codec, h, active)
    ensures var g := Marked(h, active, id);
      Shaped(codec, g, None) && |g| == |h| && Results(g) == Results(h)
      && forall i :: 0 <= i < |h| ==> g[i].result == h[i].result
  {
    hide Recordable;
    assert Results(Marked(h, active, id)) == Results(h);
  }

  lemma PushShape(codec: Codec, h: seq<ShareEntry>, r: CompatibilityResult)
    requires Shaped(codec, h, None) && Recordable(codec, r)
    requires forall i :: 0 <= i < |h| ==> h[i].result.resultId != r.resultId
    ensures Shaped(codec, h + [Fresh(r)], Some(|h|)) && Results(h + [Fresh(r)]) == Results(h) + [r]
  {
    hide Recordable;
    assert Results(h + [Fresh(r)]) == Results(h) + [r];
  }

  lemma KeptShape(codec: Codec, h: seq<ShareEntry>, active: Option<nat>, limit: nat)
    requires Shaped(codec, h, active) && 1 <= limit
    ensures var g := Kept(h, limit);
      Shaped(codec, g, if active.Some? then Some(|g| - 1) else None) && Results(g) == Kept(Results(h), limit)
      && (active.Some? ==> g != [] && g[|g| - 1] == h[|h| - 1])
  {
    hide Recordable;
    assert Results(Kept(h, limit)) == Kept(Results(h), limit);
  }

  lemma KeptOk(codec: Codec, h: seq<ShareEntry>, active: Option<nat>, retained: nat, limit: nat)
    requires HistoryOk(codec, h, active, retained) && 1 <= limit <= MAXIMUM_RETAINED
    ensures var g := Kept(h, limit);
      HistoryOk(codec, g, if active.Some? then Some(|g| - 1) else None, limit)
      && Results(g) == Kept(Results(h), limit)
      && (active.Some? ==> g != [] && g[|g| - 1] == h[|h| - 1])
  {
    hide Shaped;
    KeptShape(codec, h, active, limit);
  }

  lemma AdjustOk(codec: Codec, h: seq<ShareEntry>, active: Option<nat>, retained: nat, e: ShareEntry)
    requires HistoryOk(codec, h, active, retained) && active.Some? && e.result == h[active.value].result
    ensures HistoryOk(codec, SetActive(h, active, e), active, retained)
    ensures Results(SetActive(h, active, e)) == Results(h)
  {
    hide Recordable;
  }

  lemma DeleteOk(codec: Codec, h: seq<ShareEntry>, active: Option<nat>, retained: nat, k: nat)
    requires HistoryOk(codec, h, active, retained) && k < |h|
    ensures var g := h[..k] + h[k + 1..];
      HistoryOk(codec, g, if active == Some(k) || active.None? then None else Some(active.value - 1), retained)
      && (active.Some? && active != Some(k) ==> g[|g| - 1] == h[|h| - 1])
  {
    hide Recordable;
  }

  // ---------------------------------------------------------------- the whole state

  datatype View = View(history: seq<ShareEntry>, active: Option<nat>, envelope: Option<Envelope>, approved: bool,
                       settings: Settings, localExport: LocalExport, next: U64, nextExport: U64,
                       issued: seq<Preview>, events: seq<Event>)

  ghost predicate Sound(codec: Codec, v: View) {
    && HistoryOk(codec, v.history, v.active, v.settings.retained)
    && (v.active.Some? ==>
          v.active.value < |v.history|
          && ActiveOk(codec, v.history[v.active.value], v.envelope, v.approved, v.settings.sharing, v.issued, v.events))
    && Numbered(v.issued, v.next)
    && Consented(v.events)
    && ExportOk(codec, v.localExport, v.history)
  }

  function Bumped(n: U64): U64 {
    if n + 1 == TWO_TO_64 then 0 else n + 1
  }

  function AdjustedHistory(h: seq<ShareEntry>, active: Option<nat>, retentionChanged: bool, sharing: bool): (g: seq<ShareEntry>)
    ensures |g| == |h|
  {
    if active.Some? && active.value < |h| then h[active.value := Adjusted(h[active.value], retentionChanged, sharing)] else h
  }

  function AfterSettings(v: View, s: Settings): View {
    var retention := s.retained != v.settings.retained;
    var kept := Kept(AdjustedHistory(v.history, v.active, retention, s.sharing), s.retained);
    View(kept, if v.active.Some? && kept != [] then Some(|kept| - 1) else None,
         if retention then None else v.envelope, !retention && v.approved, s,
         if s != v.settings then NO_EXPORT else v.localExport, v.next, v.nextExport, v.issued,
         if retention || !s.sharing then v.events + [Withdrawn] else v.events)
  }

  function AfterRecord(v: View, r: CompatibilityResult): View {
    var g := WithRecorded(v.history, v.active, r, v.settings.retained);
    v.(history := g, active := if g == [] then None else Some(|g| - 1), envelope := None, approved := false,
       localExport := NO_EXPORT, events := v.events + [Withdrawn])
  }

  function NewPreview(e: Envelope, generation: U64): Preview {
    Preview(CANONICALIZATION_VERSION, e.json, e.idempotencyKey, e.submissionId, e.protectedExperimental, generation)
  }

  function AfterPrepare(v: View, e: Envelope): View
    requires v.active.Some? && v.active.value < |v.history|
  {
    var p := NewPreview(e, v.next);
    var entry := v.history[v.active.value].(preview := Some(p), receipt := None, lastCode := None, state := PreviewReady);
    v.(history := v.history[v.active.value := entry], envelope := Some(e), approved := false, next := Bumped(v.next),
       issued := v.issued + [p], events := v.events + [Withdrawn])
  }

  function AfterDecline(v: View): View
    requires v.active.Some? && v.active.value < |v.history|
  {
    v.(history := v.history[v.active.value := v.history[v.active.value].(state := UserDeclined)])
  }

  function AfterBegin(v: View): View
    requires v.active.Some? && v.active.value < |v.history| && v.history[v.active.value].preview.Some?
  {
    var e := v.history[v.active.value];
    v.(history := v.history[v.active.value := e.(state := SubmitPending)], approved := true,
       events := v.events + [Approved(e.preview.value.json, e.result.resultId)])
  }

  function AfterComplete(v: View, code: SubmissionCode, receipt: Receipt, sent: bool): View
    requires v.active.Some? && v.active.value < |v.history| && v.envelope.Some?
  {
    var e := v.history[v.active.value].(lastCode := Some(code));
    var f := if code == Success then e.(receipt := Some(receipt), state := SubmitSucceeded)
             else if receipt.receiptId.Some? || receipt.remoteAccepted || receipt.result != RetryableFailure
             then e.(receipt := Some(receipt), state := SubmitFailed)
             else e.(state := SubmitFailed);
    v.(history := v.history[v.active.value := f],
       events := if sent then v.events + [Sent(v.envelope.value, v.settings.sharing)] else v.events)
  }

  function AfterDelete(v: View, k: nat): View
    requires k < |v.history|
  {
    var gone := v.active == Some(k);
    v.(history := v.history[..k] + v.history[k + 1..],
       active := if gone then None else if v.active.Some? && v.active.value > k then Some(v.active.value - 1) else v.active,
       envelope := if gone then None else v.envelope, approved := !gone && v.approved,
       localExport := NO_EXPORT, events := if gone then v.events + [Withdrawn] else v.events)
  }

  function AfterClear(v: View): View {
    v.(history := [], active := None, envelope := None, approved := false, localExport := NO_EXPORT,
       events := v.events + [Withdrawn])
  }

  /** The history after a load: the results in order, the last one active and the others superseded by their next. */
  ghost predicate IsAfterLoad(codec: Codec, v: View, w: View, results: seq<CompatibilityResult>) {
    && Results(w.history) == results
    && w.active == (if results == [] then None else Some(|results| - 1))
    && (results != [] ==> w.history[|results| - 1] == Fresh(results[|results| - 1]))
    && w == v.(history := w.history, active := w.active, envelope := None, approved := false, localExport := NO_EXPORT,
               events := v.events + [Withdrawn])
  }

  // ---------------------------------------------------------------- every step keeps the invariant

  lemma ActiveIsLast(codec: Codec, h: seq<ShareEntry>, active: Option<nat>, retained: nat)
    requires HistoryOk(codec, h, active, retained)
    ensures active.Some? ==> h != [] && active.value == |h| - 1
  {
  }

  lemma AdjustedActive(codec: Codec, e: ShareEntry, envelope: Option<Envelope>, approved: bool, sharing: bool, issued: seq<Preview>,
                       events: seq<Event>, retention: bool, s: Settings)
    requires ActiveOk(codec, e, envelope, approved, sharing, issued, events)
    ensures ActiveOk(codec, Adjusted(e, retention, s.sharing), if retention then None else envelope, !retention && approved,
                     s.sharing, issued, if retention || !s.sharing then events + [Withdrawn] else events)
  {
  }

  /** The history part: what is left is still well formed and ends in the adjusted active entry. */
  lemma SettingsHistory(codec: Codec, v: View, s: Settings)
    requires HistoryOk(codec, v.history, v.active, v.settings.retained) && 1 <= s.retained <= MAXIMUM_RETAINED
    ensures var w := AfterSettings(v, s);
      && HistoryOk(codec, w.history, w.active, s.retained)
      && (w.active.Some? <==> v.active.Some?)
      && (w.active.Some? ==>
            && v.active.value < |v.history| && w.active.value < |w.history|
            && w.history[w.active.value] ==
                 Adjusted(v.history[v.active.value], s.retained != v.settings.retained, s.sharing))
  {
    hide HistoryOk, Adjusted, Kept, AdjustedHistory;
    var retention := s.retained != v.settings.retained;
    ActiveIsLast(codec, v.history, v.active, v.settings.retained);
    AdjustedHistoryOk(codec, v.history, v.active, v.settings.retained, retention, s.sharing);
    KeptOk(codec, AdjustedHistory(v.history, v.active, retention, s.sharing), v.active, v.settings.retained, s.retained);
  }

  lemma AdjustedHistoryOk(codec: Codec, h: seq<ShareEntry>, active: Option<nat>, retained: nat, retention: bool, sharing: bool)
    requires HistoryOk(codec, h, active, retained)
    ensures var g := AdjustedHistory(h, active, retention, sharing);
      && HistoryOk(codec, g, active, retained)
      && (active.Some? ==> active.value == |g| - 1 && g[|g| - 1] == Adjusted(h[|g| - 1], retention, sharing))
  {
    hide HistoryOk, Adjusted;
    ActiveIsLast(codec, h, active, retained);
    if active.Some? {
      SameResult(h[active.value], retention, sharing);
      AdjustOk(codec, h, active, retained, Adjusted(h[active.value], retention, sharing));
    }
  }

  lemma SettingsExport(codec: Codec, v: View, s: Settings)
    requires HistoryOk(codec, v.history, v.active, v.settings.retained) && ExportOk(codec, v.localExport, v.history)
    ensures ExportOk(codec, AfterSettings(v, s).localExport, AfterSettings(v, s).history)
  {
    hide HistoryOk, Adjusted, Kept, ExportOk;
    if s == v.settings {
      ActiveIsLast(codec, v.history, v.active, v.settings.retained);
      var h := AdjustedHistory(v.history, v.active, false, s.sharing);
      if v.active.Some? { SameResult(v.history[v.active.value], false, s.sharing); }
      WithinLimit(codec, v.history, v.active, s.retained);
      AllKept(h, s.retained);
      SameExport(codec, v.localExport, v.history, h);
    } else {
      NoExportOk(codec, AfterSettings(v, s).history);
    }
  }

  lemma AllKept(h: seq<ShareEntry>, limit: nat)
    requires |h| <= limit
    ensures Kept(h, limit) == h
  {
  }

  lemma SettingsSound(codec: Codec, v: View, s: Settings)
    requires Sound(codec, v) && 1 <= s.retained <= MAXIMUM_RETAINED
    ensures Sound(codec, AfterSettings(v, s))
  {
    hide HistoryOk, Numbered, ActiveOk, Adjusted, Kept, ExportOk, SetActive;
    SettingsHistory(codec, v, s);
    SettingsExport(codec, v, s);
    if v.active.Some? {
      AdjustedActive(codec, v.history[v.active.value], v.envelope, v.approved, v.settings.sharing, v.issued, v.events,
                     s.retained != v.settings.retained, s);
    }
  }

  lemma SameResult(e: ShareEntry, retention: bool, sharing: bool)
    ensures Adjusted(e, retention, sharing).result == e.result
  {
  }

  lemma WithinLimit(codec: Codec, h: seq<ShareEntry>, active: Option<nat>, retained: nat)
    requires HistoryOk(codec, h, active, retained)
    ensures |h| <= retained
  {
  }

  lemma NoExportOk(codec: Codec, h: seq<ShareEntry>)
    ensures ExportOk(codec, NO_EXPORT, h)
  {
  }

  lemma RecordSound(codec: Codec, v: View, r: CompatibilityResult)
    requires Sound(codec, v) && Recordable(codec, r)
    requires forall i :: 0 <= i < |v.history| ==> v.history[i].result.resultId != r.resultId
    ensures Sound(codec, AfterRecord(v, r))
    ensures Results(AfterRecord(v, r).history) == Kept(Results(v.history) + [r], v.settings.retained)
  {
    hide HistoryOk, Numbered, Recordable, WithRecorded;
    RecordedOk(codec, v.history, v.active, r, v.settings.retained);
  }

  lemma PrepareSound(codec: Codec, v: View, e: Envelope)
    requires Sound(codec, v) && v.active.Some? && v.next != 0
    requires e.resultId == v.history[v.active.value].result.resultId
    requires Prepared(codec, v.history[v.active.value].result) == Some(e)
    ensures Sound(codec, AfterPrepare(v, e))
  {
    hide HistoryOk, ExportOk, Prepared;
    var entry := AfterPrepare(v, e).history[v.active.value];
    AdjustOk(codec, v.history, v.active, v.settings.retained, entry);
    SameExport(codec, v.localExport, v.history, AfterPrepare(v, e).history);
  }

  lemma SameExport(codec: Codec, x: LocalExport, g: seq<ShareEntry>, h: seq<ShareEntry>)
    requires ExportOk(codec, x, g) && |g| == |h| && forall i :: 0 <= i < |g| ==> g[i].result == h[i].result
    ensures ExportOk(codec, x, h)
  {
    if x.resultId.Some? {
      var i :| 0 <= i < |g| && FrozenFrom(codec, x, g[i].result);
      assert FrozenFrom(codec, x, h[i].result);
    }
  }

  lemma ActiveSound(codec: Codec, v: View, w: View)
    requires Sound(codec, v) && v.active.Some? && |w.history| == |v.history|
    requires w.history == SetActive(v.history, v.active, w.history[v.active.value])
    requires w.history[v.active.value].result == v.history[v.active.value].result
    requires w == v.(history := w.history, approved := w.approved, events := w.events)
    requires ActiveOk(codec, w.history[v.active.value], w.envelope, w.approved, w.settings.sharing, w.issued, w.events)
    requires Consented(w.events)
    ensures Sound(codec, w)
  {
    hide HistoryOk, ExportOk, ActiveOk, Numbered, Consented;
    AdjustOk(codec, v.history, v.active, v.settings.retained, w.history[v.active.value]);
    SameExport(codec, v.localExport, v.history, w.history);
  }

  lemma BeginSound(codec: Codec, v: View)
    requires Sound(codec, v) && v.active.Some? && v.settings.sharing
    requires v.history[v.active.value].preview.Some?
    ensures Sound(codec, AfterBegin(v))
  {
    hide HistoryOk, ExportOk, Numbered;
    ActiveSound(codec, v, AfterBegin(v));
  }

  lemma DeclineSound(codec: Codec, v: View)
    requires Sound(codec, v) && v.active.Some? && v.history[v.active.value].state.PreviewReady?
    ensures Sound(codec, AfterDecline(v))
  {
    hide HistoryOk, ExportOk, Numbered;
    ActiveSound(codec, v, AfterDecline(v));
  }

  lemma CompleteSound(codec: Codec, v: View, code: SubmissionCode, receipt: Receipt, sent: bool)
    requires Sound(codec, v) && v.active.Some? && v.history[v.active.value].state.SubmitPending?
    ensures v.envelope.Some? && Sound(codec, AfterComplete(v, code, receipt, sent))
  {
    hide HistoryOk, ExportOk, Numbered;
    ActiveSound(codec, v, AfterComplete(v, code, receipt, sent));
  }

  lemma DeleteSound(codec: Codec, v: View, k: nat)
    requires Sound(codec, v) && k < |v.history|
    ensures Sound(codec, AfterDelete(v, k))
  {
    hide Shaped, Numbered;
    ActiveIsLast(codec, v.history, v.active, v.settings.retained);
    DeleteOk(codec, v.history, v.active, v.settings.retained, k);
  }

  lemma ClearSound(codec: Codec, v: View)
    requires Sound(codec, v)
    ensures Sound(codec, AfterClear(v))
  {
    hide Numbered;
  }

  lemma LoadSound(codec: Codec, v: View, w: View, results: seq<CompatibilityResult>)
    requires Sound(codec, v) && IsAfterLoad(codec, v, w, results)
    requires HistoryOk(codec, w.history, w.active, v.settings.retained)
    ensures Sound(codec, w)
  {
    hide HistoryOk, Numbered;
  }

  lemma StartSound(codec: Codec)
    ensures Sound(codec, View([], None, None, false, Settings(false, DEFAULT_RETAINED), NO_EXPORT, 1, 1, [], []))
  {
  }
}
