/** Campaigns can be completed: what belongs is accepted, stage by stage, to the end. */
module CampaignProgress {
  import opened Words
  import opened CampaignModel
  import opened CampaignSteps
  import opened CampaignEvidence
  import opened CampaignMoves
  import opened AcceptanceCampaigns

  /** The two share neither id, nor artifact, nor test. */
  predicate Apart(e: Evidence, f: Evidence) {
    e.evidenceId != f.evidenceId && e.artifactName != f.artifactName && e.testName != f.testName
  }

  /** A piece of evidence that should let this stage pass at this time. */
  predicate Suffices(identity: Identity, stage: Stage, e: Evidence, now: U64) {
    Belongs(identity, stage, e) && InWindow(e, now) && e.automatedPassed && e.verdict.Undecided?
  }

  predicate ApartFromOthers(c: Campaign, k: nat, e: Evidence) {
    forall i, a :: 0 <= i < |c.stages| && i != k && 0 <= a < |c.stages[i].evidence| ==> Apart(e, c.stages[i].evidence[a])
  }

  predicate CanBegin(r: StageRecord) {
    (r.state.Pending? || r.state.Failed? || r.state.RecoveryRequired?) && r.attempt < 0xFFFF_FFFF
  }

  predicate PassedBelow(c: Campaign, k: nat) {
    k <= |c.stages| && forall i :: 0 <= i < k ==> c.stages[i].state.Passed?
  }

  lemma ApartNames(e: Evidence, f: Evidence)
    ensures Apart(e, f) <==> Names(e) !! Names(f)
  {
    if !Apart(e, f) {
      if e.evidenceId == f.evidenceId { assert EvidenceId(e.evidenceId) in Names(e) && EvidenceId(e.evidenceId) in Names(f); }
      if e.artifactName == f.artifactName { assert Artifact(e.artifactName) in Names(e) && Artifact(e.artifactName) in Names(f); }
      if e.testName == f.testName { assert Test(e.testName) in Names(e) && Test(e.testName) in Names(f); }
    }
  }

  /** Evidence that belongs needs nothing filled in. */
  lemma BoundIsItself(identity: Identity, stage: Stage, e: Evidence)
    requires Belongs(identity, stage, e)
    ensures Bound(identity.binding, e) == e
  {
    hide Named, LowerHex;
    SubjectExactly(e.binding, identity.binding);
  }

  lemma Startable(c: Campaign, k: Stage)
    requires Orderly(c) && PassedBelow(c, k) && CanBegin(c.stages[k])
    ensures CanStart(c, k, k)
  {
    hide Earned;
    assert RecordOrderly(c.stages[k], k, c.updated);
    forall s: int | 0 <= s < k ensures PassedAt(c.stages, s) {
      assert RecordOrderly(c.stages[s], s, c.updated);
    }
  }

  /** The next stage can be started. */
  method Begin(campaign: AcceptanceCampaign, k: Stage, now: U64)
    requires Orderly(campaign.View()) && ValidCampaign(campaign.View(), now) && campaign.updated <= now
    requires now + 300 < 0x1_0000_0000_0000_0000
    requires PassedBelow(campaign.View(), k) && CanBegin(campaign.stages[k])
    modifies campaign
    ensures Orderly(campaign.View()) && ValidCampaign(campaign.View(), now) && campaign.updated == now
    ensures campaign.identity == old(campaign.identity) && |campaign.stages| == |old(campaign.stages)|
    ensures campaign.stages[k].state == Running && campaign.stages[k].evidence == []
    ensures forall i :: 0 <= i < |campaign.stages| && i != k ==> campaign.stages[i] == old(campaign.stages)[i]
  {
    hide Orderly, ValidCampaign, Prerequisites, PassedKept, Fits, PassedBelow;
    ghost var c := campaign.View();
    Startable(c, k);
    var code := campaign.StartStage(k, now);
    ghost var j: nat :| CanStart(c, j, k) && campaign.View() == Replaced(c, j, Started(c.stages[j], now), now);
    StageOf(c, j, k);
  }

  lemma StageOf(c: Campaign, j: nat, k: Stage)
    requires Orderly(c) && j < |c.stages| && c.stages[j].stage == k
    ensures j == k
  {
    hide Earned;
    assert RecordOrderly(c.stages[j], j, c.updated);
  }

  lemma Attachable(c: Campaign, k: Stage, e: Evidence, now: U64)
    requires Orderly(c) && ValidCampaign(c, now) && c.stages[k].state.Running?
    requires Suffices(c.identity, k, e, now) && ApartFromOthers(c, k, e)
    ensures Bound(c.identity.binding, e) == e && CanAttach(c, k, e, now)
  {
    hide Earned, Belongs, InWindow, CheckEvidence, Names, Apart, ValidIdentity, Bound;
    assert RecordOrderly(c.stages[k], k, c.updated);
    assert e.stage == k by { StageNamed(c.identity, k, e); }
    BoundIsItself(c.identity, k, e);
    CheckedExactly(c.identity, e, now);
    forall i, a | 0 <= i < |c.stages| && 0 <= a < |c.stages[i].evidence|
      ensures Names(e) !! Names(c.stages[i].evidence[a])
    {
      ApartNames(e, c.stages[i].evidence[a]);
    }
  }

  lemma StageNamed(identity: Identity, k: Stage, e: Evidence)
    requires Belongs(identity, k, e)
    ensures e.stage == k && (e.origin.Physical? <==> !Automatic(k)) && (RequiresReview(k) <==> !Automatic(k))
  {
  }

  /** The running stage accepts evidence that suffices. */
  method Report(campaign: AcceptanceCampaign, k: Stage, e: Evidence, now: U64)
    requires Orderly(campaign.View()) && ValidCampaign(campaign.View(), now) && campaign.updated <= now
    requires now + 300 < 0x1_0000_0000_0000_0000
    requires campaign.stages[k].state.Running?
    requires Suffices(campaign.identity, k, e, now) && ApartFromOthers(campaign.View(), k, e)
    modifies campaign
    ensures Orderly(campaign.View()) && ValidCampaign(campaign.View(), now) && campaign.updated == now
    ensures campaign.identity == old(campaign.identity) && |campaign.stages| == |old(campaign.stages)|
    ensures campaign.stages[k].state == (if Automatic(k) then Passed else AwaitingManualReview)
    ensures campaign.stages[k].evidence == [e]
    ensures forall i :: 0 <= i < |campaign.stages| && i != k ==> campaign.stages[i] == old(campaign.stages)[i]
  {
    hide Orderly, ValidCampaign, PassedKept, Fits, Belongs, InWindow, CheckEvidence, NewNames, ApartFromOthers, Bound;
    ghost var c := campaign.View();
    Attachable(c, k, e, now);
    StageNamed(c.identity, k, e);
    var code := campaign.AttachEvidence(e, now);
    ghost var j: nat :| CanAttach(c, j, e, now) && campaign.View() == Replaced(c, j, Attached(c.stages[j], e, now), now);
    StageOf(c, j, k);
    RunningIsEmpty(c, k, now);
  }

  /** A human passes a stage that waits for a verdict. */
  method Review(campaign: AcceptanceCampaign, k: Stage, e: Evidence, note: string, now: U64)
    requires Orderly(campaign.View()) && ValidCampaign(campaign.View(), now) && campaign.updated <= now
    requires now + 300 < 0x1_0000_0000_0000_0000
    requires campaign.stages[k].state.AwaitingManualReview? && campaign.stages[k].evidence == [e]
    requires Suffices(campaign.identity, k, e, now) && 1 <= |note| <= 8192
    modifies campaign
    ensures Orderly(campaign.View()) && ValidCampaign(campaign.View(), now) && campaign.updated == now
    ensures campaign.identity == old(campaign.identity) && |campaign.stages| == |old(campaign.stages)|
    ensures campaign.stages[k].state == Passed && campaign.stages[k].evidence == [e.(verdict := Pass)]
    ensures forall i :: 0 <= i < |campaign.stages| && i != k ==> campaign.stages[i] == old(campaign.stages)[i]
  {
    hide Orderly, ValidCampaign, PassedKept, Fits, Belongs, InWindow, CheckEvidence, WithVerdict, RequiresPhysical;
    ghost var c := campaign.View();
    StageNamed(c.identity, k, e);
    Judgeable(c, k, e);
    assert c.stages[k].evidence[0] == e;
    assert CanJudge(c, k, k, Pass, note);
    var code := campaign.RecordManualVerdict(k, Pass, note, now);
    ghost var j: nat :| CanJudge(c, j, k, Pass, note)
                        && campaign.View() == Replaced(c, j, Judged(c.stages[j], Pass, note, now), now);
    StageOf(c, j, k);
    assert WithVerdict(c.stages[k].evidence, Pass) == [e.(verdict := Pass)];
  }

  lemma Judgeable(c: Campaign, k: Stage, e: Evidence)
    requires Orderly(c) && Belongs(c.identity, k, e)
    ensures |c.stages| == 13 && c.stages[k].stage == k && (RequiresPhysical(k) ==> e.origin.Physical?)
  {
    hide Earned;
    assert RecordOrderly(c.stages[k], k, c.updated);
    TablesAgree(k);
  }

  /** What the stage holds once it has passed on this evidence. */
  function Settled(k: Stage, e: Evidence): Evidence {
    if Automatic(k) then e else e.(verdict := Pass)
  }

  /** Any stage whose turn it is can be made to pass by evidence that belongs, and a human's word where one is needed. */
  method PassStage(campaign: AcceptanceCampaign, k: Stage, e: Evidence, note: string, now: U64)
    requires Orderly(campaign.View()) && ValidCampaign(campaign.View(), now) && campaign.updated <= now
    requires now + 300 < 0x1_0000_0000_0000_0000
    requires PassedBelow(campaign.View(), k) && CanBegin(campaign.stages[k])
    requires Suffices(campaign.identity, k, e, now) && ApartFromOthers(campaign.View(), k, e) && 1 <= |note| <= 8192
    modifies campaign
    ensures Orderly(campaign.View()) && ValidCampaign(campaign.View(), now) && campaign.updated == now
    ensures campaign.identity == old(campaign.identity) && |campaign.stages| == |old(campaign.stages)|
    ensures campaign.stages[k].state == Passed && campaign.stages[k].evidence == [Settled(k, e)]
    ensures forall i :: 0 <= i < |campaign.stages| && i != k ==> campaign.stages[i] == old(campaign.stages)[i]
  {
    hide Orderly, ValidCampaign, Suffices, Apart, PassedBelow;
    Begin(campaign, k, now);
    Report(campaign, k, e, now);
    if !Automatic(k) { Review(campaign, k, e, note, now); }
  }

  /** One piece of evidence for each stage, all apart. */
  ghost predicate Supply(identity: Identity, supply: seq<Evidence>, now: U64) {
    && |supply| == 13
    && (forall k :: 0 <= k < 13 ==> Suffices(identity, k, supply[k], now))
    && (forall i, j :: 0 <= i < j < 13 ==> Apart(supply[j], supply[i]))
  }

  predicate NotBegun(r: StageRecord) {
    r.state.Pending? && r.attempt == 0 && r.evidence == []
  }

  /** A campaign goes all the way: with the evidence for it, every one of its stages passes. */
  method PassAll(identity: Identity, supply: seq<Evidence>, note: string, now: U64) returns (campaign: AcceptanceCampaign)
    requires ValidIdentity(identity) && 0 < now && now + 300 < 0x1_0000_0000_0000_0000
    requires Supply(identity, supply, now) && 1 <= |note| <= 8192
    ensures fresh(campaign) && ValidCampaign(campaign.View(), now)
    ensures |campaign.stages| == 13 && campaign.identity == identity
    ensures forall k :: 0 <= k < 13 ==> campaign.stages[k].state == Passed && campaign.stages[k].evidence == [Settled(k, supply[k])]
  {
    hide Orderly, ValidCampaign, ValidIdentity, Suffices, Apart;
    IdentityNamed(identity);
    var code;
    code, campaign := AcceptanceCampaign.Make(identity, now);
    NotBegunYet(campaign.View(), now);
    for k := 0 to 13
      invariant fresh(campaign) && Orderly(campaign.View()) && ValidCampaign(campaign.View(), now) && campaign.updated <= now
      invariant |campaign.stages| == 13 && campaign.identity == identity
      invariant forall i :: 0 <= i < k ==> campaign.stages[i].state == Passed && campaign.stages[i].evidence == [Settled(i, supply[i])]
      invariant forall i :: k <= i < 13 ==> NotBegun(campaign.stages[i])
    {
      forall i | 0 <= i < k ensures Apart(supply[k], Settled(i, supply[i])) { SettledApart(supply[k], i, supply[i]); }
      PassStage(campaign, k, supply[k], note, now);
    }
  }

  lemma SettledApart(e: Evidence, k: Stage, f: Evidence)
    requires Apart(e, f)
    ensures Apart(e, Settled(k, f))
  {
  }

  lemma IdentityNamed(x: Identity)
    requires ValidIdentity(x)
    ensures x.(binding := x.binding.(sessionRunId := Or(x.binding.sessionRunId, x.binding.campaignId))) == x
  {
    hide Hex;
  }

  lemma NotBegunYet(c: Campaign, now: U64)
    requires ValidCampaign(c, now) && forall i :: 0 <= i < |c.stages| ==> c.stages[i].state.Pending?
    ensures |c.stages| == 13 && forall i :: 0 <= i < 13 ==> NotBegun(c.stages[i])
  {
    hide ValidIdentity, CheckEvidence, DistinctEvidence;
    forall i | 0 <= i < |c.stages| ensures NotBegun(c.stages[i]) {
      assert StageValid(c.identity, c.stages[i], now);
    }
  }
}
