/** What a client of the sharing model can always bring about, call by call and in terms of what it holds in its hands. */
module ShareJourneys {
  import opened Words
  import opened Submission
  import opened ShareHistory
  import opened ShareModel
  import opened ShareSessions

  /** The result can be recorded, and its canonical form encoded. */
  predicate Shareable(codec: Codec, r: CompatibilityResult) {
    && codec.canonical(r).Some? && codec.publicEnvironment(codec.canonical(r).value)
    && codec.encode(codec.canonical(r).value).Some?
  }

  /** The message says what the result's encoding says, under the names made from its id and its bytes. */
  predicate Carries(codec: Codec, e: Envelope, r: CompatibilityResult) {
    && codec.canonical(r).Some?
    && codec.encode(codec.canonical(r).value) == Some(e.json)
    && e.resultId == r.resultId && e.submissionId == "compat:" + r.resultId
    && e.idempotencyKey == "compat-v1-" + codec.identity(e.json)
    && e.protectedExperimental == codec.canonical(r).value.protectedExperimental
  }

  lemma ShareablePrepared(codec: Codec, r: CompatibilityResult)
    requires Lawful(codec) && Shareable(codec, r)
    ensures var c := codec.canonical(r).value;
      c.resultId == r.resultId && Prepared(codec, c).Some? && Carries(codec, Prepared(codec, c).value, r)
  {
  }

  /** The entry that could be shared now. */
  ghost predicate Offers(model: CompatibilityShareModel, r: CompatibilityResult, state: ShareState)
    reads model
  {
    && model.activeIndex.Some? && model.history != [] && model.activeIndex.value == |model.history| - 1
    && model.history[|model.history| - 1].state == state
    && Some(model.history[|model.history| - 1].result) == model.codec.canonical(r)
  }

  /** The preview the newest entry shows, if the entry is in this state. */
  ghost predicate Showing(model: CompatibilityShareModel, p: Preview, state: ShareState)
    reads model
  {
    && model.activeIndex.Some? && model.history != [] && model.activeIndex.value == |model.history| - 1
    && model.history[|model.history| - 1].state == state
    && model.history[|model.history| - 1].preview == Some(p)
  }

  /** A result just recorded can be previewed; the preview shows the message that is prepared for it, not approved yet. */
  method RecordAndPreview(model: CompatibilityShareModel, r: CompatibilityResult) returns (p: Preview)
    requires model.Valid() && model.nextPreview != 0
    requires Shareable(model.codec, r) && !model.Holds(r.resultId)
    modifies model
    ensures model.Valid() && fresh(model.submission) && model.settings == old(model.settings)
    ensures Offers(model, r, PreviewReady) && Showing(model, p, PreviewReady)
    ensures p.generation == old(model.nextPreview)
    ensures model.submission.envelope.Some? && Carries(model.codec, model.submission.envelope.value, r)
    ensures Shows(p, model.submission.envelope.value) && !model.submission.approved
  {
    hide Sound, Lawful, Prepared, Carries, WithRecorded;
    ghost var v := model.State();
    ShareablePrepared(model.codec, r);
    LawfulResult(model.codec, r);
    RecordedLast(model.codec, v, model.codec.canonical(r).value);
    var recorded := model.RecordLocalResult(r);
    var code, shown := model.PreparePreview();
    p := shown.value;
  }

  /** A preview on show is the last one issued, numbered, and of the version in force. */
  lemma ShownIsGood(codec: Codec, v: View)
    requires Sound(codec, v) && v.active.Some? && v.history[v.active.value].preview.Some?
    ensures v.active.value < |v.history|
    ensures v.history[v.active.value].preview.value.generation != 0
    ensures v.history[v.active.value].preview.value.version == CANONICALIZATION_VERSION
    ensures v.envelope.Some? && Shows(v.history[v.active.value].preview.value, v.envelope.value)
  {
    hide HistoryOk, Consented, ExportOk;
    PreviewIsCurrent(codec, v);
  }

  /** With sharing on, whoever returns the preview on show has consented to it; after a failure, again. */
  method Consent(model: CompatibilityShareModel, p: Preview)
    requires model.Valid() && model.settings.sharing
    requires Showing(model, p, PreviewReady) || Showing(model, p, SubmitFailed)
    modifies model`history, model`events, model.submission`approved
    ensures model.Valid() && Showing(model, p, SubmitPending) && Results(model.history) == Results(old(model.history))
    ensures model.submission.approved
    ensures model.submission.envelope.Some? && Shows(p, model.submission.envelope.value)
  {
    hide Sound, Lawful;
    model.ActiveLast();
    ShownIsGood(model.codec, model.State());
    var code := model.BeginSubmission(p);
    assert Results(model.history) == Results(old(model.history));
  }

  /** A pending submission reaches a transport that is there; it has succeeded exactly when the answer proves it. */
  method Send(model: CompatibilityShareModel, transport: Transport, p: Preview)
    requires model.Valid() && Showing(model, p, SubmitPending)
    modifies model`history, model`events, transport
    ensures model.Valid() && Results(model.history) == Results(old(model.history))
    ensures model.submission.envelope.Some? && Shows(p, model.submission.envelope.value)
    ensures var there := old(transport.availability).Available?;
      && transport.log == (if there then old(transport.log) + [model.submission.envelope.value] else old(transport.log))
      && (there ==> transport.answers != [])
      && if there && Proven(transport.LastAnswer())
         then Showing(model, p, SubmitSucceeded) && model.history[|model.history| - 1].receipt == Some(transport.LastAnswer())
         else Showing(model, p, SubmitFailed)
  {
    hide Sound, Lawful, Proven, Coherent, AnswerCode;
    model.ActiveLast();
    ghost var v := model.State();
    ShownIsGood(model.codec, v);
    PendingIsApproved(model.codec, v);
    var code, receipt, sent := model.CompleteSubmission(transport);
    if sent { AnswerMeans(transport.LastAnswer()); }
    assert Results(model.history) == Results(old(model.history));
  }

  lemma AnswerMeans(r: Receipt)
    ensures AnswerCode(r) == Success <==> Proven(r)
    ensures Proven(r) ==> Coherent(r)
  {
  }

  /** From a result to its message: recorded, previewed, consented to, sent. */
  method ShareOnce(model: CompatibilityShareModel, transport: Transport, r: CompatibilityResult) returns (p: Preview)
    requires model.Valid() && model.settings.sharing && model.nextPreview != 0
    requires Shareable(model.codec, r) && !model.Holds(r.resultId) && transport.availability.Available?
    modifies model, model.submission, transport
    ensures model.Valid()
    ensures |transport.log| == |old(transport.log)| + 1 && old(transport.log) <= transport.log
    ensures Carries(model.codec, transport.log[|transport.log| - 1], r)
    ensures transport.answers != [] &&
      if Proven(transport.LastAnswer()) then Showing(model, p, SubmitSucceeded) else Showing(model, p, SubmitFailed)
    ensures model.history != [] && Some(model.history[|model.history| - 1].result) == model.codec.canonical(r)
  {
    hide Sound, Lawful, Proven, Carries, Shareable;
    p := RecordAndPreview(model, r);
    Consent(model, p);
    Send(model, transport, p);
  }

  /** The newest entry has no preview and waits for one. */
  ghost predicate Waiting(model: CompatibilityShareModel)
    reads model
  {
    && model.activeIndex.Some? && model.history != [] && model.activeIndex.value == |model.history| - 1
    && model.history[|model.history| - 1].state == LocalResultAvailable
    && model.history[|model.history| - 1].preview == None
  }

  /** A declined preview is refused and sends nothing. */
  method Decline(model: CompatibilityShareModel, transport: Transport, p: Preview)
    requires model.Valid() && model.settings.sharing && Showing(model, p, PreviewReady)
    modifies model`history, model`events, model.submission`approved, transport
    ensures model.Valid() && Showing(model, p, UserDeclined) && transport.log == old(transport.log)
    ensures model.submission.envelope == old(model.submission.envelope)
  {
    hide Sound, Lawful;
    model.ActiveLast();
    ShownIsGood(model.codec, model.State());
    var code := model.DeclineSharing();
    var begun := model.BeginSubmission(p);
    assert begun == InvalidState;
    var done, receipt, sent := model.CompleteSubmission(transport);
    assert done == InvalidState && !sent;
  }

  /** After a refusal or a failure the same preview can be had again, under a later number, and consented to. */
  method Return(model: CompatibilityShareModel, p: Preview) returns (q: Preview)
    requires model.Valid() && model.settings.sharing && model.nextPreview != 0
    requires Showing(model, p, UserDeclined) || Showing(model, p, SubmitFailed)
    modifies model, model.submission
    ensures model.Valid() && Showing(model, q, SubmitPending)
    ensures q == p.(generation := q.generation) && p.generation < q.generation
  {
    hide Sound, Lawful, Prepared;
    model.ActiveLast();
    Refreshed(model.codec, model.State());
    var prepared, shown := model.PreparePreview();
    q := shown.value;
    Consent(model, q);
  }

  /** Preparing again gives the same preview under a later number. */
  lemma Refreshed(codec: Codec, v: View)
    requires Sound(codec, v) && v.active.Some? && v.history[v.active.value].preview.Some? && v.next != 0
    ensures v.active.value < |v.history| && Prepared(codec, v.history[v.active.value].result).Some?
    ensures var p := v.history[v.active.value].preview.value;
      p.generation < v.next
      && NewPreview(Prepared(codec, v.history[v.active.value].result).value, v.next) == p.(generation := v.next)
  {
    hide HistoryOk, Consented, ExportOk;
    PreviewIsCurrent(codec, v);
  }

  /** What a change of settings leaves of the newest entry. */
  lemma NewestAdjusted(codec: Codec, v: View, s: Settings)
    requires Sound(codec, v) && v.active.Some? && 1 <= s.retained <= MAXIMUM_RETAINED
    ensures var w := AfterSettings(v, s);
      && v.active.value < |v.history| && v.active.value == |v.history| - 1
      && w.history != [] && w.active == Some(|w.history| - 1) && w.settings == s
      && w.history[|w.history| - 1] ==
           Adjusted(v.history[v.active.value], s.retained != v.settings.retained, s.sharing)
  {
    hide HistoryOk, Adjusted, ActiveOk, Consented, Numbered, ExportOk, Kept, AdjustedHistory;
    SettingsHistory(codec, v, s);
    ActiveIsLast(codec, v.history, v.active, v.settings.retained);
    ActiveIsLast(codec, AfterSettings(v, s).history, AfterSettings(v, s).active, s.retained);
  }

  /** Turning sharing off takes a pending consent back; nothing can be approved or sent. */
  method Pause(model: CompatibilityShareModel, transport: Transport, p: Preview)
    requires model.Valid() && Showing(model, p, SubmitPending)
    modifies model, model.submission, transport
    ensures model.Valid() && Showing(model, p, PreviewReady) && transport.log == old(transport.log)
    ensures model.settings == Settings(false, old(model.settings).retained)
    ensures model.submission == old(model.submission) || fresh(model.submission)
  {
    hide Sound, Lawful, AfterSettings;
    model.ActiveLast();
    ghost var v := model.State();
    var off := Settings(false, model.settings.retained);
    NewestAdjusted(model.codec, v, off);
    var paused := model.SetPrivacySettings(off);
    var begun := model.BeginSubmission(p);
    assert begun == SharingDisabled;
    var done, receipt, sent := model.CompleteSubmission(transport);
    assert done == SharingDisabled && !sent;
  }

  /** Turned on again, the same preview serves. */
  method PauseAndResume(model: CompatibilityShareModel, transport: Transport, p: Preview)
    requires model.Valid() && Showing(model, p, SubmitPending)
    modifies model, model.submission, transport
    ensures model.Valid() && Showing(model, p, SubmitPending)
    ensures model.settings == Settings(true, old(model.settings).retained)
    ensures transport.log == old(transport.log)
  {
    hide Sound, Lawful, AfterSettings;
    Pause(model, transport, p);
    model.ActiveLast();
    var on := Settings(true, model.settings.retained);
    NewestAdjusted(model.codec, model.State(), on);
    var resumed := model.SetPrivacySettings(on);
    Consent(model, p);
  }

  /** Another limit voids every preview, consented to or not; the entry can be previewed again. */
  method NewLimit(model: CompatibilityShareModel, p: Preview, limit: nat)
    requires model.Valid() && 1 <= limit <= MAXIMUM_RETAINED && limit != model.settings.retained && model.settings.sharing
    requires Showing(model, p, PreviewReady) || Showing(model, p, SubmitPending)
             || Showing(model, p, SubmitFailed) || Showing(model, p, UserDeclined)
    modifies model, model.submission
    ensures model.Valid() && Waiting(model)
    ensures model.history[|model.history| - 1].result == old(model.history[|model.history| - 1]).result
  {
    hide Sound, Lawful, AfterSettings;
    model.ActiveLast();
    NewestAdjusted(model.codec, model.State(), Settings(true, limit));
    var code := model.SetPrivacySettings(Settings(true, limit));
    assert Waiting(model);
    var begun := model.BeginSubmission(p);
    assert begun == StaleApproval;
  }

  /** A newer result supersedes the one on show, whose consent is void from then on. */
  method NewerResult(model: CompatibilityShareModel, p: Preview, r: CompatibilityResult)
    requires model.Valid() && model.settings.sharing && Showing(model, p, PreviewReady)
    requires Shareable(model.codec, r) && !model.Holds(r.resultId)
    modifies model, model.submission
    ensures model.Valid() && Waiting(model) && model.history[|model.history| - 1].result == model.codec.canonical(r).value
    ensures |model.history| > 1 ==>
              && model.history[|model.history| - 2].state == Superseded
              && model.history[|model.history| - 2].supersededBy == Some(r.resultId)
              && model.history[|model.history| - 2].result == old(model.history[|model.history| - 1]).result
  {
    hide Sound, Lawful;
    ghost var v := model.State();
    model.ActiveLast();
    LawfulResult(model.codec, r);
    RecordedLast(model.codec, v, model.codec.canonical(r).value);
    var code := model.RecordLocalResult(r);
    assert Waiting(model);
    var begun := model.BeginSubmission(p);
    assert begun == StaleApproval;
  }

  /** A result in the history can be exported whether or not sharing is on, once the preview of the export is approved. */
  method ExportOnce(model: CompatibilityShareModel, i: nat) returns (json: string)
    requires model.Valid() && i < |model.history| && model.nextExport != 0
    requires model.codec.encode(model.history[i].result).Some?
    modifies model
    ensures model.Valid() && model.history == old(model.history) && model.settings == old(model.settings)
    ensures model.codec.encode(model.history[i].result) == Some(json)
  {
    hide Sound, Lawful;
    HistoryResults(model.codec, model.State());
    var id := model.history[i].result.resultId;
    var prepared, shown := model.PrepareLocalExport(id);
    var early, nothing := model.ExportLocalResult(id);
    assert early == PreviewMissing;
    var approved := model.ApproveLocalExport(shown.value);
    var exported;
    exported, json := model.ExportLocalResult(id);
  }
}