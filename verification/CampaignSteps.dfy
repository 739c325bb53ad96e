/** What each campaign step changes, and exactly when the changed campaign is still valid. */
module CampaignSteps {
  import opened Words
  import opened CampaignModel

  // ---------------------------------------------------------------- the steps

  function Fresh(stage: Stage): StageRecord { StageRecord(stage, Pending, 0, 0, 0, [], "") }

  /** The campaign with stage record k replaced, written at `now`. */
  function Replaced(c: Campaign, k: nat, r: StageRecord, now: U64): Campaign
    requires k < |c.stages|
  {
    Campaign(c.schemaVersion, c.identity, c.created, now, c.stages[k := r])
  }

  function Started(r: StageRecord, now: U64): StageRecord
    requires r.attempt + 1 < 0x1_0000_0000
  {
    StageRecord(r.stage, Running, r.attempt + 1, now, 0, [], "")
  }

  /** The state a stage gets from its evidence. */
  function StateFrom(e: Evidence): StageState {
    if !e.automatedPassed then Failed else if RequiresReview(e.stage) then AwaitingManualReview else Passed
  }

  function Attached(r: StageRecord, e: Evidence, now: U64): StageRecord {
    StageRecord(r.stage, StateFrom(e), r.attempt, r.started, now, r.evidence + [e],
                if StateFrom(e).Failed? then "evidence reported failure"
                else if StateFrom(e).AwaitingManualReview? then "manual review is required" else "")
  }

  function WithVerdict(evidence: seq<Evidence>, v: Verdict): (marked: seq<Evidence>)
    ensures |marked| == |evidence| && forall i :: 0 <= i < |evidence| ==> marked[i] == evidence[i].(verdict := v)
  {
    seq(|evidence|, i requires 0 <= i < |evidence| => evidence[i].(verdict := v))
  }

  function Judged(r: StageRecord, v: Verdict, note: string, now: U64): StageRecord {
    StageRecord(r.stage, if v.Pass? then Passed else Failed, r.attempt, r.started, now, WithVerdict(r.evidence, v), note)
  }

  const INTERRUPTED := "campaign was interrupted while the stage was running"

  function Interrupted(r: StageRecord, now: U64): StageRecord {
    if r.state.Running? then StageRecord(r.stage, RecoveryRequired, r.attempt, r.started, now, r.evidence, INTERRUPTED) else r
  }

  function Recovered(c: Campaign, now: U64): Campaign {
    Campaign(c.schemaVersion, c.identity, c.created, now, RecoveredStages(c.stages, now))
  }

  function RecoveredStages(stages: seq<StageRecord>, now: U64): (u: seq<StageRecord>)
    ensures |u| == |stages| && forall i :: 0 <= i < |u| ==> u[i] == Interrupted(stages[i], now)
  {
    seq(|stages|, i requires 0 <= i < |stages| => Interrupted(stages[i], now))
  }

  // ---------------------------------------------------------------- when the result is valid

  /** The header of a valid campaign stays valid when written at `now`. */
  predicate Fits(c: Campaign, now: U64) { c.created <= now <= Horizon(now) }

  lemma FitsWithoutWrap(now: U64)
    ensures now <= Horizon(now) <==> now + CLOCK_SKEW < TWO_TO_64
  {
  }

  lemma DistinctAfter(stages: seq<StageRecord>, k: nat, r: StageRecord)
    requires k < |stages| && DistinctStages(stages) && r.stage == stages[k].stage
    ensures DistinctStages(stages[k := r])
  {
  }

  /** Replacing a record: the header, the new record and its evidence among the others decide. */
  lemma ReplacedValid(c: Campaign, k: nat, r: StageRecord, now: U64)
    requires ValidCampaign(c, now) && k < |c.stages| && r.stage == c.stages[k].stage
    requires DistinctEvidence(c.stages[k := r])
    ensures ValidCampaign(Replaced(c, k, r, now), now) <==> Fits(c, now) && StageValid(c.identity, r, now)
  {
    hide StageValid, ValidIdentity, DistinctEvidence, Horizon;
    DistinctAfter(c.stages, k, r);
    var u := Replaced(c, k, r, now);
    assert u.stages[k] == r;
    if Fits(c, now) && StageValid(c.identity, r, now) {
      forall i | 0 <= i < |u.stages| ensures StageValid(u.identity, u.stages[i], now) {
        if i != k { assert u.stages[i] == c.stages[i]; }
      }
    }
  }

  lemma NoEvidenceDistinct(stages: seq<StageRecord>, k: nat, r: StageRecord)
    requires DistinctEvidence(stages) && k < |stages| && r.evidence == []
    ensures DistinctEvidence(stages[k := r])
  {
    hide Names;
    CollectedAround(stages, k, r);
    CollectedAround(stages, k, stages[k]);
    assert stages[k := stages[k]] == stages;
    var pre, post := Collected(stages, 0, k), Collected(stages, k + 1, |stages|);
    DropMiddle(pre, stages[k].evidence, post);
    assert pre + [] + post == pre + post;
  }

  lemma DropMiddle(a: seq<Evidence>, b: seq<Evidence>, c: seq<Evidence>)
    requires DistinctNames(a + b + c)
    ensures DistinctNames(a + c)
  {
    hide Names;
    var whole, less := a + b + c, a + c;
    forall i, j | 0 <= i < j < |less| ensures Names(less[i]) !! Names(less[j]) {
      var x, y := if i < |a| then i else i + |b|, if j < |a| then j else j + |b|;
      assert less[i] == whole[x] && less[j] == whole[y];
    }
  }

  lemma SameNamesDistinct(a: seq<Evidence>, b: seq<Evidence>)
    requires DistinctNames(a) && |a| == |b| && forall i :: 0 <= i < |a| ==> Names(a[i]) == Names(b[i])
    ensures DistinctNames(b)
  {
    hide Names;
  }

  lemma StartedValid(c: Campaign, k: nat, now: U64)
    requires ValidCampaign(c, now) && k < |c.stages| && c.stages[k].attempt + 1 < 0x1_0000_0000
    ensures ValidCampaign(Replaced(c, k, Started(c.stages[k], now), now), now) <==> Fits(c, now)
  {
    hide DistinctEvidence, ValidIdentity, Horizon;
    NoEvidenceDistinct(c.stages, k, Started(c.stages[k], now));
    ReplacedValid(c, k, Started(c.stages[k], now), now);
  }

  /** A new piece of evidence shares no name with any other in the campaign. */
  ghost predicate NewNames(stages: seq<StageRecord>, e: Evidence) {
    forall i, a :: 0 <= i < |stages| && 0 <= a < |stages[i].evidence| ==> Names(e) !! Names(stages[i].evidence[a])
  }

  lemma {:induction false} NewAmongCollected(stages: seq<StageRecord>, e: Evidence, lo: nat, hi: nat)
    requires NewNames(stages, e) && lo <= hi <= |stages|
    ensures forall x :: x in Collected(stages, lo, hi) ==> Names(e) !! Names(x)
    decreases hi
  {
    hide Names;
    if lo < hi {
      NewAmongCollected(stages, e, lo, hi - 1);
      forall x | x in stages[hi - 1].evidence ensures Names(e) !! Names(x) {
        var a :| 0 <= a < |stages[hi - 1].evidence| && stages[hi - 1].evidence[a] == x;
      }
    }
  }

  lemma AttachedDistinct(stages: seq<StageRecord>, k: nat, r: StageRecord, e: Evidence)
    requires DistinctEvidence(stages) && k < |stages| && stages[k].evidence == [] && r.evidence == [e] && NewNames(stages, e)
    ensures DistinctEvidence(stages[k := r])
  {
    hide Names, NewNames;
    CollectedAround(stages, k, r);
    CollectedAround(stages, k, stages[k]);
    assert stages[k := stages[k]] == stages;
    var pre, post := Collected(stages, 0, k), Collected(stages, k + 1, |stages|);
    NewAmongCollected(stages, e, 0, k);
    NewAmongCollected(stages, e, k + 1, |stages|);
    InsertMiddle(pre, e, post);
  }

  lemma InsertMiddle(a: seq<Evidence>, e: Evidence, c: seq<Evidence>)
    requires DistinctNames(a + [] + c)
    requires forall x :: x in a || x in c ==> Names(e) !! Names(x)
    ensures DistinctNames(a + [e] + c)
  {
    hide Names;
    var whole, less := a + [e] + c, a + [] + c;
    forall i, j | 0 <= i < j < |whole| ensures Names(whole[i]) !! Names(whole[j]) {
      if i == |a| {
        assert whole[j] == c[j - |a| - 1];
      } else if j == |a| {
        assert whole[i] == a[i];
      } else {
        var x, y := if i < |a| then i else i - 1, if j < |a| then j else j - 1;
        assert whole[i] == less[x] && whole[j] == less[y];
      }
    }
  }

  lemma AttachedValid(c: Campaign, k: nat, e: Evidence, now: U64)
    requires ValidCampaign(c, now) && k < |c.stages| && c.stages[k].state.Running? && e.stage == c.stages[k].stage
    requires CheckEvidence(c.identity, e, now) == Success && e.verdict.Undecided? && NewNames(c.stages, e)
    ensures ValidCampaign(Replaced(c, k, Attached(c.stages[k], e, now), now), now) <==>
            Fits(c, now) && (StateFrom(e).AwaitingManualReview? || c.stages[k].started <= now)
  {
    hide DistinctEvidence, ValidIdentity, Horizon, CheckEvidence, NewNames;
    var r := Attached(c.stages[k], e, now);
    assert StageValid(c.identity, c.stages[k], now);
    assert r.evidence == [e];
    AttachedDistinct(c.stages, k, r, e);
    ReplacedValid(c, k, r, now);
  }

  lemma VerdictChecked(identity: Identity, e: Evidence, v: Verdict, now: U64)
    ensures CheckEvidence(identity, e.(verdict := v), now) == CheckEvidence(identity, e, now)
    ensures Names(e.(verdict := v)) == Names(e)
  {
  }

  lemma JudgedDistinct(stages: seq<StageRecord>, k: nat, r: StageRecord, v: Verdict)
    requires DistinctEvidence(stages) && k < |stages| && r.evidence == WithVerdict(stages[k].evidence, v)
    ensures DistinctEvidence(stages[k := r])
  {
    hide Names;
    CollectedAround(stages, k, r);
    CollectedAround(stages, k, stages[k]);
    assert stages[k := stages[k]] == stages;
    var pre, post := Collected(stages, 0, k), Collected(stages, k + 1, |stages|);
    var a, b := pre + stages[k].evidence + post, pre + r.evidence + post;
    forall i | 0 <= i < |a| ensures Names(a[i]) == Names(b[i]) {
      if |pre| <= i < |pre| + |r.evidence| {
        VerdictNames(stages[k].evidence[i - |pre|], v);
      }
    }
    SameNamesDistinct(a, b);
  }

  lemma VerdictNames(e: Evidence, v: Verdict)
    ensures Names(e.(verdict := v)) == Names(e)
  {
  }

  lemma JudgedValid(c: Campaign, k: nat, v: Verdict, note: string, now: U64)
    requires ValidCampaign(c, now) && k < |c.stages| && c.stages[k].state.AwaitingManualReview?
    requires !v.Undecided? && |note| <= MAXIMUM_NOTE_BYTES
    ensures ValidCampaign(Replaced(c, k, Judged(c.stages[k], v, note, now), now), now) <==>
            Fits(c, now) && c.stages[k].started <= now
  {
    hide DistinctEvidence, ValidIdentity, Horizon, CheckEvidence, Names;
    var r := Judged(c.stages[k], v, note, now);
    assert StageValid(c.identity, c.stages[k], now);
    forall i | 0 <= i < |r.evidence| ensures CheckEvidence(c.identity, r.evidence[i], now) == Success {
      VerdictChecked(c.identity, c.stages[k].evidence[i], v, now);
    }
    JudgedDistinct(c.stages, k, r, v);
    ReplacedValid(c, k, r, now);
  }

  lemma {:induction false} SameEvidenceCollected(a: seq<StageRecord>, b: seq<StageRecord>, lo: nat, hi: nat)
    requires |a| == |b| && lo <= hi <= |a| && forall i :: 0 <= i < |a| ==> a[i].evidence == b[i].evidence
    ensures Collected(a, lo, hi) == Collected(b, lo, hi)
    decreases hi
  {
    if lo < hi { SameEvidenceCollected(a, b, lo, hi - 1); }
  }

  lemma RecoveredValid(c: Campaign, now: U64)
    requires ValidCampaign(c, now)
    ensures ValidCampaign(Recovered(c, now), now) <==>
            Fits(c, now) && forall i :: 0 <= i < |c.stages| && c.stages[i].state.Running? ==> c.stages[i].started <= now
  {
    hide ValidIdentity, Horizon, CheckEvidence, DistinctNames, StageValid;
    var u := Recovered(c, now);
    SameEvidenceCollected(c.stages, u.stages, 0, |c.stages|);
    forall i | 0 <= i < |c.stages|
      ensures StageValid(c.identity, u.stages[i], now) <==> (c.stages[i].state.Running? ==> c.stages[i].started <= now)
    {
      InterruptedValid(c.identity, c.stages[i], now);
    }
  }

  lemma InterruptedValid(identity: Identity, r: StageRecord, now: U64)
    requires StageValid(identity, r, now)
    ensures StageValid(identity, Interrupted(r, now), now) <==> (r.state.Running? ==> r.started <= now)
  {
    hide CheckEvidence, Horizon;
    assert |INTERRUPTED| <= MAXIMUM_NOTE_BYTES;
  }

  /** A campaign that was valid stays valid exactly until its oldest evidence is a week old. */
  lemma ValidLater(c: Campaign, now: U64, later: U64)
    requires ValidCampaign(c, now) && now <= later && later + CLOCK_SKEW < TWO_TO_64
    ensures ValidCampaign(c, later) <==>
            forall i, a :: 0 <= i < |c.stages| && 0 <= a < |c.stages[i].evidence| ==>
              later <= c.stages[i].evidence[a].created + MAXIMUM_EVIDENCE_AGE
  {
    hide ValidIdentity, WellFormed, DistinctEvidence, StageValid;
    forall i | 0 <= i < |c.stages|
      ensures StageValid(c.identity, c.stages[i], later) <==>
              forall a :: 0 <= a < |c.stages[i].evidence| ==> later <= c.stages[i].evidence[a].created + MAXIMUM_EVIDENCE_AGE
    {
      StageLater(c.identity, c.stages[i], now, later);
    }
  }

  lemma StageLater(identity: Identity, r: StageRecord, now: U64, later: U64)
    requires StageValid(identity, r, now) && now <= later && later + CLOCK_SKEW < TWO_TO_64
    ensures StageValid(identity, r, later) <==>
            forall a :: 0 <= a < |r.evidence| ==> later <= r.evidence[a].created + MAXIMUM_EVIDENCE_AGE
  {
    hide WellFormed;
    forall a | 0 <= a < |r.evidence|
      ensures CheckEvidence(identity, r.evidence[a], later) == Success <==>
              later <= r.evidence[a].created + MAXIMUM_EVIDENCE_AGE
    {
      assert CheckEvidence(identity, r.evidence[a], now) == Success;
    }
  }
}
