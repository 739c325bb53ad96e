/** The sharing model as its clients call it: every call keeps the invariant and has the state change stated here. */
module ShareSessions {
  import opened Words
  import opened Submission
  import opened ShareHistory
  import opened ShareModel

  class CompatibilityShareModel {
    const codec: Codec
    var history: seq<ShareEntry>
    var activeIndex: Option<nat>
    var submission: Session
    var localExport: LocalExport
    var settings: Settings
    var nextPreview: U64
    var nextExport: U64
    ghost var issued: seq<Preview>
    ghost var events: seq<Event>

    ghost function State(): View
      reads this, submission
    {
      View(history, activeIndex, submission.envelope, submission.approved, settings, localExport, nextPreview, nextExport,
           issued, events)
    }

    ghost predicate Valid()
      reads this, submission
    {
      submission.codec == codec && submission.Valid() && Lawful(codec) && Sound(codec, State())
    }

    constructor (codec: Codec)
      requires Lawful(codec)
      ensures Valid() && fresh(submission) && this.codec == codec
      ensures State() == View([], None, None, false, Settings(false, DEFAULT_RETAINED), NO_EXPORT, 1, 1, [], [])
    {
      this.codec := codec;
      history, activeIndex, localExport := [], None, NO_EXPORT;
      submission := new Session(codec);
      settings := Settings(false, DEFAULT_RETAINED);
      nextPreview, nextExport := 1, 1;
      issued, events := [], [];
      new;
      StartSound(codec);
    }

    /** enforceRetentionLimit: the oldest entries go; an active entry among them takes the session with it. */
    method EnforceRetentionLimit()
      requires submission.codec == codec && submission.Valid() && (activeIndex.Some? ==> activeIndex.value < |history|)
      modifies this`history, this`activeIndex, this`submission, this`localExport
      ensures submission.codec == codec && submission.Valid() && (submission == old(submission) || fresh(submission))
      ensures history == Kept(old(history), settings.retained)
      ensures localExport == if |old(history)| <= settings.retained then old(localExport) else NO_EXPORT
      ensures var gone := |old(history)| - |history|;
        && activeIndex == (if old(activeIndex).Some? && old(activeIndex).value >= gone
                           then Some(old(activeIndex).value - gone) else None)
        && (old(activeIndex).None? || old(activeIndex).value >= gone ==> submission == old(submission))
        && (old(activeIndex).Some? && old(activeIndex).value < gone ==> submission.envelope.None? && !submission.approved)
    {
      if |history| <= settings.retained { return; }
      localExport := NO_EXPORT;
      var removed := |history| - settings.retained;
      history := history[removed..];
      if activeIndex.None? { return; }
      if activeIndex.value < removed {
        activeIndex := None;
        submission := new Session(codec);
        return;
      }
      activeIndex := Some(activeIndex.value - removed);
    }

    lemma ActiveLast()
      requires Valid()
      ensures activeIndex.Some? ==> history != [] && activeIndex.value == |history| - 1
      ensures 1 <= settings.retained <= MAXIMUM_RETAINED && |history| <= settings.retained
    {
      hide Shaped;
      ActiveIsLast(codec, history, activeIndex, settings.retained);
    }

    method SetPrivacySettings(s: Settings) returns (code: ShareCode)
      requires Valid()
      modifies this
      ensures Valid() && (submission == old(submission) || fresh(submission))
      ensures code == if 1 <= s.retained <= MAXIMUM_RETAINED then Done else InvalidPrivacySettings
      ensures State() == if code.Done? then AfterSettings(old(State()), s) else old(State())
    {
      hide Sound, Lawful, Kept, AdjustedHistory, AfterSettings, HistoryOk;
      if s.retained == 0 || s.retained > MAXIMUM_RETAINED { return InvalidPrivacySettings; }
      ghost var v := State();
      ActiveLast();
      SettingsSound(codec, v, s);
      var retentionChanged := s.retained != settings.retained;
      if s != settings { localExport := NO_EXPORT; }
      AdjustActive(retentionChanged, s);
      if retentionChanged || !s.sharing { events := events + [Withdrawn]; }
      EnforceRetentionLimit();
      SoundHistory(codec, v);
      SettingsReached(codec, v, s, State());
      code := Done;
    }

    /** The preview and the pending submission that the new settings make void. */
    method AdjustActive(retentionChanged: bool, s: Settings)
      requires retentionChanged <==> s.retained != settings.retained
      requires submission.codec == codec && submission.Valid()
      modifies this`history, this`submission, this`settings
      ensures history == AdjustedHistory(old(history), activeIndex, retentionChanged, s.sharing) && settings == s
      ensures submission.codec == codec && submission.Valid() && (submission == old(submission) || fresh(submission))
      ensures !retentionChanged ==> submission == old(submission)
      ensures retentionChanged ==> submission.envelope.None? && !submission.approved
    {
      if retentionChanged {
        if activeIndex.Some? && activeIndex.value < |history| && history[activeIndex.value].preview.Some? {
          var entry := history[activeIndex.value];
          var state := if NeedsPreview(entry.state) then LocalResultAvailable else entry.state;
          history := history[activeIndex.value := entry.(preview := None, state := state)];
        }
        submission := new Session(codec);
      }
      settings := s;
      if !s.sharing && activeIndex.Some? && activeIndex.value < |history| && history[activeIndex.value].state.SubmitPending? {
        history := history[activeIndex.value := history[activeIndex.value].(state := PreviewReady)];
      }
    }

    /** The index of the result with this id. */
    method FindResult(id: string) returns (found: Option<nat>)
      ensures found.Some? ==> found.value < |history| && history[found.value].result.resultId == id
      ensures found.None? ==> forall i :: 0 <= i < |history| ==> history[i].result.resultId != id
    {
      for n := 0 to |history|
        invariant forall i :: 0 <= i < n ==> history[i].result.resultId != id
      {
        if history[n].result.resultId == id { return Some(n); }
      }
      found := None;
    }

    ghost predicate Holds(id: string)
      reads this
    {
      exists i :: 0 <= i < |history| && history[i].result.resultId == id
    }

    method RecordLocalResult(r: CompatibilityResult) returns (code: ShareCode)
      requires Valid()
      modifies this
      ensures Valid() && if code.Done? then fresh(submission) else submission == old(submission)
      ensures code == if codec.canonical(r).Some? && codec.publicEnvironment(codec.canonical(r).value) && !old(Holds(r.resultId))
                      then Done else InvalidResultCode
      ensures State() == if code.Done? then AfterRecord(old(State()), codec.canonical(r).value) else old(State())
      ensures code.Done? ==> Results(history) == Kept(Results(old(history)) + [codec.canonical(r).value], settings.retained)
    {
      hide Sound, Lawful, Kept, AfterRecord, WithRecorded, Marked, Results;
      var canonical := codec.canonical(r);
      LawfulResult(codec, r);
      if canonical.None? { return InvalidResultCode; }
      if !codec.publicEnvironment(canonical.value) { return InvalidResultCode; }
      var duplicate := FindResult(canonical.value.resultId);
      if duplicate.Some? { return InvalidResultCode; }
      ghost var v := State();
      ActiveLast();
      RecordSound(codec, v, canonical.value);
      PushResult(canonical.value);
      submission := new Session(codec);
      localExport := NO_EXPORT;
      events := events + [Withdrawn];
      EnforceRetentionLimit();
      RecordReached(v, canonical.value, State());
      code := Done;
    }

    method PushResult(r: CompatibilityResult)
      modifies this`history, this`activeIndex
      ensures history == Marked(old(history), old(activeIndex), r.resultId) + [Fresh(r)]
      ensures activeIndex == Some(|history| - 1) && |history| == |old(history)| + 1
    {
      var previous := activeIndex;
      history := history + [Fresh(r)];
      if previous.Some? && previous.value < |history| - 1 {
        history := history[previous.value :=
          history[previous.value].(state := Superseded, supersededBy := Some(history[|history| - 1].result.resultId))];
      }
      activeIndex := Some(|history| - 1);
    }

    method PreparePreview() returns (code: ShareCode, preview: Option<Preview>)
      requires Valid()
      modifies this, submission
      ensures Valid() && submission == old(submission)
      ensures old(activeIndex).None? ==> code == NoActiveResult
      ensures old(activeIndex).Some? ==>
                var e := old(history[activeIndex.value]);
                code == if !(e.state.LocalResultAvailable? || e.state.UserDeclined? || e.state.SubmitFailed?) then InvalidState
                        else if old(nextPreview) == 0 then InvalidState
                        else if Prepared(codec, e.result).None? then InvalidResultCode else Done
      ensures code == Done ==>
                && State() == AfterPrepare(old(State()), Prepared(codec, old(history[activeIndex.value]).result).value)
                && preview == Some(issued[|issued| - 1])
      ensures code != Done ==> State() == old(State()) && preview == None
    {
      hide Sound, Lawful, Prepared, Consented;
      ActiveLast();
      preview := None;
      if activeIndex.None? { return NoActiveResult, None; }
      var entry := history[activeIndex.value];
      if !(entry.state.LocalResultAvailable? || entry.state.UserDeclined? || entry.state.SubmitFailed?) {
        return InvalidState, None;
      }
      if nextPreview == 0 { return InvalidState, None; }
      var prepared := submission.Prepare(entry.result);
      if prepared != Success { return InvalidResultCode, None; }
      ghost var v := old(State());
      ActiveRecordable(codec, v);
      PrepareSound(codec, v, submission.envelope.value);
      var p := ShowPreview(submission.envelope.value);
      code, preview := Done, Some(p);
    }

    /** Numbers the preview of an envelope and puts it on the active entry. */
    method ShowPreview(e: Envelope) returns (p: Preview)
      requires activeIndex.Some? && activeIndex.value < |history|
      modifies this`history, this`nextPreview, this`issued, this`events
      ensures p == NewPreview(e, old(nextPreview)) && nextPreview == Bumped(old(nextPreview))
      ensures issued == old(issued) + [p] && events == old(events) + [Withdrawn]
      ensures history == old(history)[activeIndex.value :=
                old(history)[activeIndex.value].(preview := Some(p), receipt := None, lastCode := None, state := PreviewReady)]
    {
      p := NewPreview(e, nextPreview);
      nextPreview := Bumped(nextPreview);
      history := history[activeIndex.value :=
        history[activeIndex.value].(preview := Some(p), receipt := None, lastCode := None, state := PreviewReady)];
      issued := issued + [p];
      events := events + [Withdrawn];
    }

    method DeclineSharing() returns (code: ShareCode)
      requires Valid()
      modifies this`history
      ensures Valid()
      ensures code == if activeIndex.None? then NoActiveResult
                      else if !old(history[activeIndex.value]).state.PreviewReady? then PreviewMissing else Done
      ensures State() == if code.Done? then AfterDecline(old(State())) else old(State())
    {
      hide Sound, Lawful;
      ActiveLast();
      if activeIndex.None? { return NoActiveResult; }
      if !history[activeIndex.value].state.PreviewReady? { return PreviewMissing; }
      DeclineSound(codec, State()) by { ActiveLast(); }
      history := history[activeIndex.value := history[activeIndex.value].(state := UserDeclined)];
      code := Done;
    }

    /** Why beginSubmission refuses an approval; Done when it does not. */
    function BeginCode(p: Preview): ShareCode
      reads this
    {
      if !settings.sharing then SharingDisabled
      else if activeIndex.None? || activeIndex.value >= |history| then NoActiveResult
      else
        var e := history[activeIndex.value];
        if e.preview.None? || p.generation == 0 || p.generation != e.preview.value.generation then StaleApproval
        else if !e.state.PreviewReady? && !e.state.SubmitFailed? then InvalidState
        else if p.version != CANONICALIZATION_VERSION || p != e.preview.value then PayloadIdentityMismatch
        else Done
    }

    /** Only the preview issued last, in every field, is accepted; what is approved is what would be sent. */
    method BeginSubmission(p: Preview) returns (code: ShareCode)
      requires Valid()
      modifies this`history, this`events, submission`approved
      ensures Valid()
      ensures code == old(BeginCode(p))
      ensures State() == if code.Done? then AfterBegin(old(State())) else old(State())
      ensures code.Done? ==>
                && settings.sharing && issued != [] && p == issued[|issued| - 1]
                && submission.envelope.Some? && Shows(p, submission.envelope.value)
                && history[activeIndex.value].state.SubmitPending?
    {
      hide Sound, Lawful, Consented;
      ActiveLast();
      if !settings.sharing { return SharingDisabled; }
      if activeIndex.None? { return NoActiveResult; }
      var entry := history[activeIndex.value];
      if entry.preview.None? || p.generation == 0 || p.generation != entry.preview.value.generation { return StaleApproval; }
      if !entry.state.PreviewReady? && !entry.state.SubmitFailed? { return InvalidState; }
      var shown := entry.preview.value;
      if p.version != CANONICALIZATION_VERSION || p.version != shown.version || p.identity != shown.identity
         || p.submissionId != shown.submissionId || p.protectedExperimental != shown.protectedExperimental
         || p.json != shown.json
      {
        PreviewIsCurrent(codec, State());
        return PayloadIdentityMismatch;
      }
      ghost var v := State();
      PreviewIsCurrent(codec, v);
      BeginSound(codec, v);
      // The session's own comparison cannot fail: the preview on show is its envelope.
      var approved := submission.Approve(p.json);
      assert approved == Success;
      history := history[activeIndex.value := entry.(state := SubmitPending)];
      events := events + [Approved(p.json, entry.result.resultId)];
      code := Done;
    }

    /** The only call that reaches the transport. */
    method CompleteSubmission(transport: Transport) returns (code: ShareCode, receipt: Option<Receipt>, sent: bool)
      requires Valid()
      modifies this`history, this`events, transport
      ensures Valid()
      ensures old(activeIndex).None? ==> code == NoActiveResult
      ensures activeIndex.Some? ==>
                var e := old(history[activeIndex.value]);
                && (!settings.sharing ==> code == SharingDisabled)
                && (settings.sharing && !e.state.SubmitPending? ==> code == InvalidState)
                && (settings.sharing && e.state.SubmitPending? ==> code == Done || code == SubmissionFailed)
                && (sent <==> settings.sharing && e.state.SubmitPending? && old(transport.availability).Available?)
      ensures sent ==>
                && submission.envelope.Some? && transport.log == old(transport.log) + [submission.envelope.value]
                && transport.answers != []
                && (code == Done <==> Proven(transport.LastAnswer()))
      ensures code == Done ==> sent
      ensures !sent ==> transport.log == old(transport.log)
      ensures sent ==>
                && settings.sharing && old(events) != []
                && old(events)[|old(events)| - 1] ==
                     Approved(submission.envelope.value.json, submission.envelope.value.resultId)
      ensures code != Done && code != SubmissionFailed ==> !sent && State() == old(State())
      ensures code == Done || code == SubmissionFailed ==>
                && (submission.envelope.Some? && activeIndex.Some? && activeIndex.value < |history| == |old(history)|)
                && var c := if sent then AnswerCode(transport.LastAnswer())
                            else if old(transport.availability).Offline? then OfflineCode else UnavailableCode;
                   var r := if sent && Coherent(transport.LastAnswer()) then transport.LastAnswer() else DEFAULT_RECEIPT;
                   && State() == AfterComplete(old(State()), c, r, sent)
                   && (code == Done ==> receipt == Some(r))
    {
      hide Sound, Lawful, Consented;
      ActiveLast();
      receipt, sent := None, false;
      if activeIndex.None? { return NoActiveResult, receipt, sent; }
      // A pending entry implies that sharing is enabled, so there is no pending state to take back here.
      if !settings.sharing { return SharingDisabled, receipt, sent; }
      var entry := history[activeIndex.value];
      if !entry.state.SubmitPending? { return InvalidState, receipt, sent; }
      ghost var v := State();
      PendingIsApproved(codec, v);
      var submitted, candidate, out := submission.Submit(transport);
      sent := out;
      CompleteSound(codec, v, submitted, candidate, sent);
      if submitted == Success {
        history := history[activeIndex.value :=
          entry.(lastCode := Some(submitted), receipt := Some(candidate), state := SubmitSucceeded)];
        receipt := Some(candidate);
        code := Done;
      } else {
        var failed := entry.(lastCode := Some(submitted), state := SubmitFailed);
        if candidate.receiptId.Some? || candidate.remoteAccepted || candidate.result != RetryableFailure {
          failed := failed.(receipt := Some(candidate));
          receipt := Some(candidate);
        }
        history := history[activeIndex.value := failed];
        code := SubmissionFailed;
      }
      if sent { events := events + [Sent(submission.envelope.value, settings.sharing)]; }
      assert State() == AfterComplete(v, submitted, candidate, sent);
    }

    method DeleteLocalResult(id: string) returns (code: ShareCode)
      requires Valid()
      modifies this
      ensures Valid() && (submission == old(submission) || fresh(submission))
      ensures code == if old(Holds(id)) then Done else ResultNotFound
      ensures !Holds(id)
      ensures forall i :: 0 <= i < |old(history)| && old(history)[i].result.resultId != id ==>
                old(history)[i].result in Results(history)
      ensures code != Done ==> State() == old(State())
      ensures code == Done ==>
                exists k :: 0 <= k < |old(history)| && old(history)[k].result.resultId == id
                  && State() == AfterDelete(old(State()), k)
    {
      hide Sound, Lawful, Results;
      var found := FindResult(id);
      if found.None? {
        AllStay(history);
        return ResultNotFound;
      }
      OneHolder(codec, State(), found.value);
      OthersStay(history, found.value);
      RemoveAt(found.value);
      code := Done;
    }

    /** Takes the entry at an index out; an active entry takes its session with it. */
    method RemoveAt(index: nat)
      requires Valid() && index < |history|
      modifies this
      ensures Valid() && (submission == old(submission) || fresh(submission))
      ensures State() == AfterDelete(old(State()), index)
      ensures history == old(history)[..index] + old(history)[index + 1..]
    {
      hide Sound, Lawful;
      ActiveLast();
      ghost var v := State();
      DeleteSound(codec, v, index);
      var deletingActive := activeIndex == Some(index);
      history := history[..index] + history[index + 1..];
      localExport := NO_EXPORT;
      if deletingActive {
        activeIndex := None;
        submission := new Session(codec);
        events := events + [Withdrawn];
      } else if activeIndex.Some? && activeIndex.value > index {
        activeIndex := Some(activeIndex.value - 1);
      }
      assert State() == AfterDelete(v, index);
    }

    method ClearLocalResults()
      requires Valid()
      modifies this
      ensures Valid() && fresh(submission)
      ensures State() == AfterClear(old(State()))
      ensures history == [] && activeIndex == None && !submission.approved && localExport == NO_EXPORT
    {
      hide Sound, Lawful;
      ClearSound(codec, State());
      history, activeIndex := [], None;
      submission := new Session(codec);
      localExport := NO_EXPORT;
      events := events + [Withdrawn];
    }

    // ---------------------------------------------------------------- local export

    method PrepareLocalExport(id: string) returns (code: ShareCode, preview: Option<ExportPreview>)
      requires Valid()
      modifies this`localExport, this`nextExport
      ensures Valid()
      ensures code == if !Holds(id) then ResultNotFound else if old(nextExport) == 0 then InvalidState
                      else if preview.None? then ExportFailed else Done
      ensures forall i :: 0 <= i < |history| && history[i].result.resultId == id && old(nextExport) != 0 ==>
                (code == Done <==> Prepared(codec, history[i].result).Some?)
                && (code == Done ==> FrozenFrom(codec, localExport, history[i].result))
      ensures code != Done ==> localExport == NO_EXPORT && nextExport == old(nextExport) && preview == None
      ensures code == Done ==>
                && preview == Some(ExportPreview(CANONICALIZATION_VERSION, id, localExport.json, localExport.identity, old(nextExport)))
                && localExport == LocalExport(Some(id), localExport.json, localExport.identity, old(nextExport), false)
                && nextExport == Bumped(old(nextExport))
    {
      hide Sound, Lawful;
      ghost var v := State();
      localExport := NO_EXPORT;
      NoExportOk(codec, history);
      ExportSound(codec, v, NO_EXPORT, nextExport);
      var found := FindResult(id);
      if found.None? { return ResultNotFound, None; }
      if nextExport == 0 { return InvalidState, None; }
      OneHolder(codec, v, found.value);
      code, preview := FreezeExport(history[found.value].result);
      if code == Done {
        assert FrozenFrom(codec, localExport, history[found.value].result);
        ExportSound(codec, v, localExport, nextExport);
      }
    }

    method FreezeExport(r: CompatibilityResult) returns (code: ShareCode, preview: Option<ExportPreview>)
      requires Lawful(codec) && nextExport != 0 && localExport == NO_EXPORT
      modifies this`localExport, this`nextExport
      ensures code == if Prepared(codec, r).Some? then Done else ExportFailed
      ensures code == ExportFailed ==> preview == None && localExport == NO_EXPORT && nextExport == old(nextExport)
      ensures code == Done ==>
                && FrozenFrom(codec, localExport, r) && nextExport == Bumped(old(nextExport))
                && localExport == LocalExport(Some(r.resultId), localExport.json, localExport.identity, old(nextExport), false)
                && preview == Some(ExportPreview(CANONICALIZATION_VERSION, r.resultId, localExport.json,
                                                 localExport.identity, old(nextExport)))
    {
      var canonicalizer := new Session(codec);
      var prepared := canonicalizer.Prepare(r);
      if prepared != Success { return ExportFailed, None; }
      var frozen := canonicalizer.envelope.value;
      localExport := LocalExport(Some(r.resultId), frozen.json, frozen.idempotencyKey, nextExport, false);
      nextExport := Bumped(nextExport);
      code, preview := Done,
        Some(ExportPreview(CANONICALIZATION_VERSION, r.resultId, frozen.json, frozen.idempotencyKey, localExport.generation));
    }

    method ApproveLocalExport(p: ExportPreview) returns (code: ShareCode)
      requires Valid()
      modifies this`localExport
      ensures Valid()
      ensures var x := old(localExport);
        && code == (if x.resultId.None? || x.generation == 0 then PreviewMissing
                    else if p.generation == 0 || p.generation != x.generation then StaleApproval
                    else if p != ExportPreview(CANONICALIZATION_VERSION, x.resultId.value, x.json, x.identity, x.generation)
                    then PayloadIdentityMismatch else Done)
        && localExport == if code == PreviewMissing then x else x.(approved := code == Done)
    {
      hide Sound, Lawful;
      if localExport.resultId.None? || localExport.generation == 0 { return PreviewMissing; }
      var matches := p.version == CANONICALIZATION_VERSION && p.resultId == localExport.resultId.value
                     && p.json == localExport.json && p.identity == localExport.identity;
      var current := p.generation != 0 && p.generation == localExport.generation;
      ApprovalSound(codec, State(), current && matches);
      localExport := localExport.(approved := current && matches);
      code := if !current then StaleApproval else if !matches then PayloadIdentityMismatch else Done;
    }

    method DeclineLocalExport() returns (code: ShareCode)
      requires Valid()
      modifies this`localExport
      ensures Valid()
      ensures code == if old(localExport).resultId.None? || old(localExport).generation == 0 then PreviewMissing else Done
      ensures localExport == if code == Done then NO_EXPORT else old(localExport)
    {
      hide Sound, Lawful;
      if localExport.resultId.None? || localExport.generation == 0 { return PreviewMissing; }
      NoExportOk(codec, history);
      ExportSound(codec, State(), NO_EXPORT, nextExport);
      localExport := NO_EXPORT;
      code := Done;
    }

    /** Only approved bytes leave, and they encode the result of that id as it still is in the history. */
    method ExportLocalResult(id: string) returns (code: ShareCode, json: string)
      requires Valid()
      ensures code == if !Holds(id) then ResultNotFound
                      else if localExport.resultId.None? || !localExport.approved || localExport.generation == 0 then PreviewMissing
                      else if localExport.resultId != Some(id) then StaleApproval else Done
      ensures code == Done ==>
                && json == localExport.json && localExport.approved
                && exists i :: 0 <= i < |history| && FrozenFrom(codec, localExport, history[i].result)
                     && history[i].result.resultId == id
    {
      json := "";
      var found := FindResult(id);
      if found.None? { return ResultNotFound, json; }
      if localExport.resultId.None? || !localExport.approved || localExport.generation == 0 { return PreviewMissing, json; }
      if localExport.resultId != Some(id) { return StaleApproval, json; }
      code, json := Done, localExport.json;
    }

    // ---------------------------------------------------------------- the history file

    method ExportLocalHistory() returns (code: ShareCode, text: string)
      requires Valid()
      ensures code == Done ==> Encodable(codec, Results(history)) && text == HistoryText(codec, Results(history))
      ensures Faithful(codec) ==> code == Done
    {
      hide Sound, Lawful, Faithful;
      ActiveLast();
      text := HEADER;
      ghost var results := Results(history);
      HistoryResults(codec, State());
      for n := 0 to |history|
        invariant Encodable(codec, results[..n]) && text == HistoryText(codec, results[..n])
      {
        assert results[..n + 1][..n] == results[..n];
        var encoded := codec.encode(history[n].result);
        if encoded.None? {
          if Faithful(codec) { FaithfulLine(codec, history[n].result); }
          return ExportFailed, text;
        }
        EncodablePush(codec, results, n);
        if Faithful(codec) { HistoryFits(codec, results[..n + 1]); }
        if |text| + 1 + |encoded.value| > MAXIMUM_HISTORY_BYTES { return LocalHistoryTooLarge, text; }
        text := text + "\n" + encoded.value;
      }
      assert results[..|history|] == results;
      code := Done;
    }

    /** What the loading pass has built so far: only results recorded in a fresh model. */
    ghost predicate Loading(kept: seq<CompatibilityResult>)
      reads this, submission
    {
      && Valid() && Results(history) == kept && issued == []
      && activeIndex == (if kept == [] then None else Some(|kept| - 1))
      && (kept != [] ==> |history| == |kept| && history[|kept| - 1] == Fresh(kept[|kept| - 1]))
    }

    /** One line of the file: decoded, checked, recorded. */
    method LoadLine(line: string, seen: set<string>, count: nat, ghost kept: seq<CompatibilityResult>) returns (code: ShareCode)
      requires Loading(kept)
      modifies this
      ensures Valid() && (submission == old(submission) || fresh(submission)) && settings == old(settings)
      ensures var step := RestoreLine(codec, line, settings.retained, seen, count, kept);
        if step.Restored? then code == Done && Loading(step.results) else code == step.code
    {
      hide Sound, Lawful, Kept, WithRecorded;
      ActiveLast();
      if line == "" { return InvalidLocalHistory; }
      if |line| > MAXIMUM_RESULT_BYTES { return LocalHistoryTooLarge; }
      if count + 1 > MAXIMUM_RETAINED { return LocalHistoryTooLarge; }
      var decoded := codec.decode(line);
      if decoded.None? { return InvalidLocalHistory; }
      if decoded.value.resultId in seen { return InvalidLocalHistory; }
      LawfulResult(codec, decoded.value);
      HeldIds(decoded.value.resultId);
      ghost var before := State();
      code := RecordLocalResult(decoded.value);
      if code != Done { return InvalidLocalHistory; }
      RecordedLast(codec, before, codec.canonical(decoded.value).value);
    }

    lemma HeldIds(id: string)
      ensures Holds(id) <==> id in Ids(Results(history))
    {
      if Holds(id) {
        var i :| 0 <= i < |history| && history[i].result.resultId == id;
        assert Results(history)[i] in Results(history);
      }
      if id in Ids(Results(history)) {
        var r :| r in Results(history) && r.resultId == id;
        var i :| 0 <= i < |history| && Results(history)[i] == r;
      }
    }

    /** A model with the given settings and nothing recorded yet. */
    constructor Empty(codec: Codec, settings: Settings)
      requires Lawful(codec) && 1 <= settings.retained <= MAXIMUM_RETAINED
      ensures Loading([]) && fresh(submission) && this.codec == codec && this.settings == settings
    {
      this.codec := codec;
      history, activeIndex, localExport := [], None, NO_EXPORT;
      submission := new Session(codec);
      this.settings := settings;
      nextPreview, nextExport := 1, 1;
      issued, events := [], [];
      new;
      assert Results(history) == [];
    }

    /** The results after the header, recorded one by one in a fresh model. */
    method ReadResults(text: string, start: nat) returns (code: ShareCode, candidate: CompatibilityShareModel)
      requires Valid() && start <= |text|
      ensures fresh(candidate) && fresh(candidate.submission) && candidate.codec == codec && candidate.settings == settings
      ensures var l := Remaining(codec, text, start, settings.retained, {}, 0, []);
        if l.Restored? then code == Done && candidate.Loading(l.results) else code == l.code && code != Done
    {
      hide Sound, Lawful, RestoreLine, RestoreLines, Lines, NewlineFrom, Remaining, Loading, StripCr, LineId;
      SettingsInRange();
      candidate := new CompatibilityShareModel.Empty(codec, settings);
      var seen: set<string> := {};
      var count, position := 0, start;
      ghost var kept: seq<CompatibilityResult> := [];
      while position < |text|
        invariant position <= |text|
        invariant fresh(candidate) && fresh(candidate.submission) && candidate.codec == codec && candidate.settings == settings
        invariant candidate.Loading(kept)
        invariant Remaining(codec, text, start, settings.retained, {}, 0, []) ==
                  Remaining(codec, text, position, settings.retained, seen, count, kept)
        decreases |text| - position
      {
        var end := NewlineFrom(text, position);
        var line := StripCr(text[position..end]);
        RemainingStep(codec, text, position, settings.retained, seen, count, kept);
        ghost var step := RestoreLine(codec, line, settings.retained, seen, count, kept);
        code := candidate.LoadLine(line, seen, count, kept);
        if code != Done { return; }
        kept := step.results;
        seen := seen + {LineId(codec, line)};
        count := count + 1;
        if end == |text| {
          position := |text|;
          break;
        }
        position := end + 1;
        if position == |text| {
          code := InvalidLocalHistory;
          return;
        }
      }
      RemainingNone(codec, text, settings.retained, seen, count, kept);
      code := Done;
    }

    lemma SettingsInRange()
      requires Valid()
      ensures 1 <= settings.retained <= MAXIMUM_RETAINED
    {
      ActiveLast();
    }

    /** Replaces the history by the file's, or changes nothing. */
    method LoadLocalHistory(text: string) returns (code: ShareCode)
      requires Valid()
      modifies this
      ensures Valid() && (submission == old(submission) || fresh(submission))
      ensures var l := LoadedHistory(codec, text, settings.retained);
        if l.Restored? then code == Done && IsAfterLoad(codec, old(State()), State(), l.results)
        else code == l.code && State() == old(State())
    {
      hide Sound, Lawful, Shaped, RestoreLines, Lines, NewlineFrom, Remaining, IsHeader;
      if text == "" { return InvalidLocalHistory; }
      if |text| > MAXIMUM_HISTORY_BYTES { return LocalHistoryTooLarge; }
      var first := NewlineFrom(text, 0);
      HeaderRead(text);
      if !IsHeader(text[..first]) { return InvalidLocalHistory; }
      HistoryRemaining(codec, text, settings.retained);
      if first < |text| && first + 1 == |text| { return InvalidLocalHistory; }
      var candidate;
      code, candidate := ReadResults(text, if first == |text| then |text| else first + 1);
      if code != Done { return; }
      ghost var v := State();
      SoundHistory(codec, candidate.State());
      history, activeIndex := candidate.history, candidate.activeIndex;
      submission := new Session(codec);
      localExport := NO_EXPORT;
      events := events + [Withdrawn];
      LoadSound(codec, v, State(), Results(history));
    }
  }

  lemma LawfulResult(codec: Codec, r: CompatibilityResult)
    requires Lawful(codec)
    ensures codec.canonical(r).Some? ==>
              codec.canonical(r).value.resultId == r.resultId
              && (codec.publicEnvironment(codec.canonical(r).value) ==> Recordable(codec, codec.canonical(r).value))
  {
  }

  /** Trimming the adjusted history is all that separates it from the outcome. */
  lemma SettingsReached(codec: Codec, v: View, s: Settings, w: View)
    requires HistoryOk(codec, v.history, v.active, v.settings.retained) && 1 <= s.retained
    requires var retention := s.retained != v.settings.retained;
      w == View(Kept(AdjustedHistory(v.history, v.active, retention, s.sharing), s.retained), w.active,
                if retention then None else v.envelope, !retention && v.approved, s, w.localExport, v.next, v.nextExport,
                v.issued, if retention || !s.sharing then v.events + [Withdrawn] else v.events)
    requires var gone := |v.history| - |w.history|;
      w.active == if v.active.Some? && v.active.value >= gone then Some(v.active.value - gone) else None
    requires w.localExport == if |v.history| <= s.retained && s == v.settings then v.localExport else NO_EXPORT
    ensures w == AfterSettings(v, s)
  {
    hide HistoryOk, AdjustedHistory;
    ActiveIsLast(codec, v.history, v.active, v.settings.retained);
    WithinLimit(codec, v.history, v.active, v.settings.retained);
  }

  lemma SoundHistory(codec: Codec, v: View)
    requires Sound(codec, v)
    ensures HistoryOk(codec, v.history, v.active, v.settings.retained)
  {
  }

  lemma RecordReached(v: View, r: CompatibilityResult, w: View)
    requires w == View(Kept(Marked(v.history, v.active, r.resultId) + [Fresh(r)], v.settings.retained), w.active, None, false,
                       v.settings, NO_EXPORT, v.next, v.nextExport, v.issued, v.events + [Withdrawn])
    requires |Marked(v.history, v.active, r.resultId)| == |v.history| && v.settings.retained > 0
    requires var gone := |v.history| + 1 - |w.history|;
      w.active == if |v.history| >= gone then Some(|v.history| - gone) else None
    ensures w == AfterRecord(v, r)
  {
    hide Marked;
  }

  lemma ActiveRecordable(codec: Codec, v: View)
    requires Sound(codec, v) && v.active.Some?
    ensures v.active.value < |v.history|
    ensures var r := v.history[v.active.value].result;
      Prepared(codec, r).Some? ==> Prepared(codec, r).value.resultId == r.resultId
  {
    hide ActiveOk, Consented, Numbered, ExportOk;
    assert Recordable(codec, v.history[v.active.value].result);
  }

  /** The active entry's preview is the last issued and shows the prepared envelope. */
  lemma PreviewIsCurrent(codec: Codec, v: View)
    requires Sound(codec, v) && v.active.Some? && v.history[v.active.value].preview.Some?
    ensures v.active.value < |v.history| && v.issued != []
    ensures v.issued[|v.issued| - 1] == v.history[v.active.value].preview.value
    ensures v.envelope.Some? && Shows(v.history[v.active.value].preview.value, v.envelope.value)
    ensures Prepared(codec, v.history[v.active.value].result) == v.envelope
  {
    hide HistoryOk, Consented, Numbered, ExportOk;
  }

  lemma PendingIsApproved(codec: Codec, v: View)
    requires Sound(codec, v) && v.active.Some? && v.history[v.active.value].state.SubmitPending?
    ensures v.active.value < |v.history| && v.approved && v.settings.sharing && v.envelope.Some? && v.events != []
    ensures v.events[|v.events| - 1] == Approved(v.envelope.value.json, v.envelope.value.resultId)
  {
    hide HistoryOk, Consented, Numbered, ExportOk;
  }

  lemma ExportSound(codec: Codec, v: View, x: LocalExport, next: U64)
    requires Sound(codec, v) && ExportOk(codec, x, v.history)
    ensures Sound(codec, v.(localExport := x, nextExport := next))
  {
    hide HistoryOk, ActiveOk, Consented, Numbered, ExportOk;
  }

  lemma ApprovalSound(codec: Codec, v: View, approved: bool)
    requires Sound(codec, v) && v.localExport.resultId.Some?
    ensures Sound(codec, v.(localExport := v.localExport.(approved := approved)))
  {
    hide HistoryOk, ActiveOk, Consented, Numbered;
    if v.localExport.resultId.Some? {
      var i :| 0 <= i < |v.history| && FrozenFrom(codec, v.localExport, v.history[i].result);
      assert FrozenFrom(codec, v.localExport.(approved := approved), v.history[i].result);
    }
  }

  lemma HistoryResults(codec: Codec, v: View)
    requires Sound(codec, v)
    ensures |v.history| <= MAXIMUM_RETAINED && DistinctIds(Results(v.history))
    ensures forall i :: 0 <= i < |v.history| ==> Recordable(codec, v.history[i].result)
  {
    hide ActiveOk, Consented, Numbered, ExportOk, Recordable;
  }

  lemma OneHolder(codec: Codec, v: View, k: nat)
    requires Sound(codec, v) && k < |v.history|
    ensures forall i :: 0 <= i < |v.history| && v.history[i].result.resultId == v.history[k].result.resultId ==> i == k
  {
    hide Sound, Recordable;
    HistoryResults(codec, v);
    forall i | 0 <= i < |v.history| && v.history[i].result.resultId == v.history[k].result.resultId
      ensures i == k
    {
      assert Results(v.history)[i].resultId == Results(v.history)[k].resultId;
    }
  }

  lemma AllStay(h: seq<ShareEntry>)
    ensures forall i :: 0 <= i < |h| ==> h[i].result in Results(h)
  {
    forall i | 0 <= i < |h| ensures h[i].result in Results(h) { assert Results(h)[i] == h[i].result; }
  }

  lemma OthersStay(h: seq<ShareEntry>, k: nat)
    requires k < |h|
    ensures forall i :: 0 <= i < |h| && i != k ==> h[i].result in Results(h[..k] + h[k + 1..])
    ensures forall i :: 0 <= i < |h| - 1 ==> (h[..k] + h[k + 1..])[i] == if i < k then h[i] else h[i + 1]
  {
    var g := h[..k] + h[k + 1..];
    forall i | 0 <= i < |h| && i != k
      ensures h[i].result in Results(g)
    {
      var j := if i < k then i else i - 1;
      assert g[j] == h[i] && Results(g)[j] == h[i].result;
    }
  }

  lemma EncodablePush(codec: Codec, results: seq<CompatibilityResult>, n: nat)
    requires n < |results| && Encodable(codec, results[..n]) && codec.encode(results[n]).Some?
    ensures Encodable(codec, results[..n + 1])
    ensures HistoryText(codec, results[..n + 1]) == HistoryText(codec, results[..n]) + "\n" + codec.encode(results[n]).value
  {
    assert results[..n + 1][..n] == results[..n];
  }

  lemma RecordedLast(codec: Codec, v: View, r: CompatibilityResult)
    requires Sound(codec, v) && Recordable(codec, r)
    requires forall i :: 0 <= i < |v.history| ==> v.history[i].result.resultId != r.resultId
    ensures var g := AfterRecord(v, r).history; g != [] && g[|g| - 1] == Fresh(r)
  {
    hide Shaped, Marked, ActiveOk, Consented, Numbered, ExportOk;
    RecordedOk(codec, v.history, v.active, r, v.settings.retained);
  }

  lemma LinesStep(text: string, position: nat)
    requires position <= |text|
    ensures var k := NewlineFrom(text, position);
      Lines(text[position..]) == if k == |text| then [text[position..k]] else [text[position..k]] + Lines(text[k + 1..])
  {
    NewlineSuffix(text, position, position);
    var k := NewlineFrom(text, position);
    assert text[position..][..k - position] == text[position..k];
    if k < |text| {
      assert text[position..][k - position + 1..] == text[k + 1..];
    } else {
      assert text[position..k] == text[position..];
    }
  }

  lemma {:induction false} NewlineSuffix(text: string, from: nat, base: nat)
    requires base <= from <= |text|
    ensures NewlineFrom(text[base..], from - base) == NewlineFrom(text, from) - base
    decreases |text| - from
  {
    if from < |text| && text[from] != '\n' { NewlineSuffix(text, from + 1, base); }
  }

  /** What reading on from a position gives; after a newline at the very end there is one empty line. */
  function Remaining(codec: Codec, text: string, position: nat, limit: nat, seen: set<string>, count: nat,
                     kept: seq<CompatibilityResult>): Loaded
    requires position <= |text|
  {
    if position == |text| then Restored(kept)
    else RestoreLines(codec, Lines(text[position..]), limit, seen, count, kept)
  }

  lemma RemainingStep(codec: Codec, text: string, position: nat, limit: nat, seen: set<string>, count: nat,
                      kept: seq<CompatibilityResult>)
    requires position < |text|
    ensures var end := NewlineFrom(text, position); var line := StripCr(text[position..end]);
      var step := RestoreLine(codec, line, limit, seen, count, kept);
      Remaining(codec, text, position, limit, seen, count, kept) ==
        if step.Refused? then step
        else if end + 1 == |text| then Refused(InvalidLocalHistory)
        else Remaining(codec, text, if end == |text| then end else end + 1, limit, seen + {LineId(codec, line)},
                       count + 1, step.results)
  {
    hide RestoreLine, RestoreLines, Lines, NewlineFrom, StripCr, LineId;
    LinesStep(text, position);
    var end := NewlineFrom(text, position);
    var rest := if end == |text| then [] else Lines(text[end + 1..]);
    assert Lines(text[position..]) == [text[position..end]] + rest;
    RestoreFirst(codec, text[position..end], rest, limit, seen, count, kept);
    var line := StripCr(text[position..end]);
    var step := RestoreLine(codec, line, limit, seen, count, kept);
    if step.Restored? {
      RestoreNone(codec, limit, seen + {LineId(codec, line)}, count + 1, step.results);
      TrailingNewline(codec, limit, seen + {LineId(codec, line)}, count + 1, step.results);
      assert text[|text|..] == "";
    }
  }

  lemma RestoreFirst(codec: Codec, first: string, rest: seq<string>, limit: nat, seen: set<string>, count: nat,
                     kept: seq<CompatibilityResult>)
    ensures var line := StripCr(first); var step := RestoreLine(codec, line, limit, seen, count, kept);
      RestoreLines(codec, [first] + rest, limit, seen, count, kept) ==
        if step.Refused? then step
        else RestoreLines(codec, rest, limit, seen + {LineId(codec, line)}, count + 1, step.results)
  {
    hide RestoreLine, StripCr, LineId;
    assert ([first] + rest)[1..] == rest;
  }

  /** A file that ends in a newline has an empty last line, which is refused. */
  lemma TrailingNewline(codec: Codec, limit: nat, seen: set<string>, count: nat, kept: seq<CompatibilityResult>)
    ensures RestoreLines(codec, Lines(""), limit, seen, count, kept) == Refused(InvalidLocalHistory)
  {
    assert Lines("") == [""];
  }

  lemma RestoreNone(codec: Codec, limit: nat, seen: set<string>, count: nat, kept: seq<CompatibilityResult>)
    ensures RestoreLines(codec, [], limit, seen, count, kept) == Restored(kept)
  {
  }

  lemma RemainingNone(codec: Codec, text: string, limit: nat, seen: set<string>, count: nat, kept: seq<CompatibilityResult>)
    ensures Remaining(codec, text, |text|, limit, seen, count, kept) == Restored(kept)
  {
  }

  lemma HeaderRead(text: string)
    ensures Lines(text)[0] == text[..NewlineFrom(text, 0)]
  {
    assert text[..|text|] == text;
  }

  lemma HistoryRemaining(codec: Codec, text: string, limit: nat)
    requires text != "" && |text| <= MAXIMUM_HISTORY_BYTES && IsHeader(Lines(text)[0])
    ensures var first := NewlineFrom(text, 0);
      LoadedHistory(codec, text, limit) ==
        if first < |text| && first + 1 == |text| then Refused(InvalidLocalHistory)
        else Remaining(codec, text, if first == |text| then |text| else first + 1, limit, {}, 0, [])
  {
    hide RestoreLine, RestoreLines, Lines, NewlineFrom, IsHeader;
    LinesStep(text, 0);
    assert text[0..] == text && text[|text|..] == "";
    var first := NewlineFrom(text, 0);
    var rest := if first == |text| then [] else Lines(text[first + 1..]);
    assert Lines(text)[1..] == rest;
    RestoreNone(codec, limit, {}, 0, []);
    TrailingNewline(codec, limit, {}, 0, []);
  }
}
