/** Whole runs of the sharing model against one transport. */
module ShareRuns {
  import opened Words
  import opened Submission
  import opened ShareHistory
  import opened ShareModel
  import opened ShareSessions

  /** The messages among the events. */
  function Messages(events: seq<Event>): seq<Envelope>
    decreases |events|
  {
    if events == [] then []
    else
      var last := events[|events| - 1];
      Messages(events[..|events| - 1]) + if last.Sent? then [last.envelope] else []
  }

  lemma MessagesPush(events: seq<Event>, e: Event)
    ensures Messages(events + [e]) == Messages(events) + if e.Sent? then [e.envelope] else []
  {
    assert (events + [e])[..|events|] == events;
  }

  lemma {:induction false} MessageHasApproval(events: seq<Event>, n: nat)
    requires Consented(events) && n < |Messages(events)|
    ensures exists k :: 0 < k < |events| && events[k] == Sent(Messages(events)[n], true)
              && events[k - 1] == Approved(Messages(events)[n].json, Messages(events)[n].resultId)
    decreases |events|
  {
    var init, last := events[..|events| - 1], events[|events| - 1];
    if n < |Messages(init)| {
      MessageHasApproval(init, n);
      var k :| 0 < k < |init| && init[k] == Sent(Messages(init)[n], true)
               && init[k - 1] == Approved(Messages(init)[n].json, Messages(init)[n].resultId);
      assert events[k] == init[k] && events[k - 1] == init[k - 1];
    } else {
      var k := |events| - 1;
      assert events[k].Sent? && events[k] == Sent(Messages(events)[n], true);
    }
  }

  /** One call of any kind, with any arguments. */
  method Call(model: CompatibilityShareModel, transport: Transport)
    requires model.Valid() && transport.log == Messages(model.events)
    modifies model, model.submission, transport
    ensures model.Valid() && (model.submission == old(model.submission) || fresh(model.submission))
    ensures transport.log == Messages(model.events)
  {
    hide Sound, Lawful, AfterSettings, AfterRecord, AfterDelete, Messages;
    ghost var v := model.State();
    ghost var before := model.events;
    MessagesPush(before, Withdrawn);
    transport.Drift();
    var which: nat := *;
    if which == 0 {
      var s: Settings := *;
      var code := model.SetPrivacySettings(s);
      SettingsEvents(v, s);
    } else if which == 1 {
      var r: CompatibilityResult := *;
      var code := model.RecordLocalResult(r);
      if code.Done? { RecordEvents(v, model.codec.canonical(r).value); }
    } else if which == 2 {
      var code, preview := model.PreparePreview();
    } else if which == 3 {
      var code := model.DeclineSharing();
    } else if which == 4 {
      var p: Preview := *;
      Begin(model, p);
    } else if which == 5 {
      Complete(model, transport);
    } else if which == 6 {
      var id: string := *;
      var code := model.DeleteLocalResult(id);
      if code.Done? {
        ghost var k :| 0 <= k < |v.history| && v.history[k].result.resultId == id && model.State() == AfterDelete(v, k);
        DeleteEvents(v, k);
      }
    } else if which == 7 {
      model.ClearLocalResults();
    } else if which == 8 {
      var text: string := *;
      var code := model.LoadLocalHistory(text);
    } else if which == 9 {
      var id: string := *;
      var code, p := model.PrepareLocalExport(id);
    } else if which == 10 {
      var p: ExportPreview := *;
      var code := model.ApproveLocalExport(p);
    } else {
      var code := model.DeclineLocalExport();
    }
  }

  method Begin(model: CompatibilityShareModel, p: Preview)
    requires model.Valid()
    modifies model`history, model`events, model.submission`approved
    ensures model.Valid() && Messages(model.events) == Messages(old(model.events))
  {
    hide Sound, Lawful, Messages;
    ghost var events := model.events;
    var code := model.BeginSubmission(p);
    if code.Done? { MessagesPush(events, model.events[|model.events| - 1]); }
  }

  method Complete(model: CompatibilityShareModel, transport: Transport)
    requires model.Valid() && transport.log == Messages(model.events)
    modifies model`history, model`events, transport
    ensures model.Valid() && transport.log == Messages(model.events)
  {
    hide Sound, Lawful, Messages;
    ghost var v := model.State();
    var code, receipt, sent := model.CompleteSubmission(transport);
    if sent { MessagesPush(v.events, Sent(v.envelope.value, v.settings.sharing)); }
  }

  lemma SettingsEvents(v: View, s: Settings)
    ensures AfterSettings(v, s).events == v.events || AfterSettings(v, s).events == v.events + [Withdrawn]
  {
  }

  lemma RecordEvents(v: View, r: CompatibilityResult)
    ensures AfterRecord(v, r).events == v.events + [Withdrawn]
  {
  }

  lemma DeleteEvents(v: View, k: nat)
    requires k < |v.history|
    ensures AfterDelete(v, k).events == v.events || AfterDelete(v, k).events == v.events + [Withdrawn]
  {
  }

  /** However the calls interleave, each message was sent with sharing on, straight after its own approval. */
  method Run(codec: Codec) returns (model: CompatibilityShareModel, transport: Transport)
    requires Lawful(codec)
    ensures model.Valid() && transport.log == Messages(model.events)
    ensures forall n :: 0 <= n < |transport.log| ==>
              exists k :: 0 < k < |model.events| && model.events[k] == Sent(transport.log[n], true)
                && model.events[k - 1] == Approved(transport.log[n].json, transport.log[n].resultId)
    ensures |transport.log| <= CountApproved(model.events)
  {
    hide Lawful;
    model := new CompatibilityShareModel(codec);
    transport := new Transport();
    var calls: nat := *;
    while calls > 0
      invariant fresh(model) && fresh(model.submission) && fresh(transport)
      invariant model.Valid() && transport.log == Messages(model.events)
    {
      Call(model, transport);
      calls := calls - 1;
    }
    SoundConsent(codec, model.State());
    forall n | 0 <= n < |transport.log|
      ensures exists k :: 0 < k < |model.events| && model.events[k] == Sent(transport.log[n], true)
                && model.events[k - 1] == Approved(transport.log[n].json, transport.log[n].resultId)
    {
      MessageHasApproval(model.events, n);
    }
    OneMessageEach(model.events);
    MessagesCounted(model.events);
  }

  lemma SoundConsent(codec: Codec, v: View)
    requires Sound(codec, v)
    ensures Consented(v.events)
  {
  }

  lemma {:induction false} MessagesCounted(events: seq<Event>)
    ensures |Messages(events)| == CountSent(events)
    decreases |events|
  {
    if events != [] { MessagesCounted(events[..|events| - 1]); }
  }

  /** An approval of any preview but the last issued is refused and changes nothing. */
  method OldApprovalRefused(model: CompatibilityShareModel, p: Preview, ghost i: nat) returns (code: ShareCode)
    requires model.Valid() && i < |model.issued| - 1 && p == model.issued[i]
    modifies model, model.submission
    ensures model.Valid() && code != Done && model.State() == old(model.State())
  {
    hide Lawful, HistoryOk, ActiveOk, Consented, ExportOk;
    ghost var issued := model.issued;
    assert issued[i].generation < issued[|issued| - 1].generation;
    code := model.BeginSubmission(p);
  }

  /** Exporting the history and loading it back under the same settings restores the same results. */
  method ExportAndReload(model: CompatibilityShareModel) returns (text: string)
    requires model.Valid() && Faithful(model.codec)
    modifies model
    ensures model.Valid() && Results(model.history) == Results(old(model.history))
    ensures model.settings == old(model.settings)
  {
    hide Lawful, Faithful, Sound, LoadedHistory, HistoryText;
    ghost var results := Results(model.history);
    HistoryResults(model.codec, model.State());
    model.ActiveLast();
    ExportedHistoryLoads(model.codec, results, model.settings.retained);
    var code;
    code, text := model.ExportLocalHistory();
    code := model.LoadLocalHistory(text);
  }
}
