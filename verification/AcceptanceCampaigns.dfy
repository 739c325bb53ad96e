/** The acceptance campaign in place: validation, the four steps, and what holds in every campaign they can reach. */
module AcceptanceCampaigns {
  import opened Words
  import opened CampaignModel
  import opened CampaignSteps
  import opened CampaignEvidence
  import opened CampaignMoves

  // ---------------------------------------------------------------- when a step is allowed

  predicate PassedAt(stages: seq<StageRecord>, s: int) {
    exists i :: 0 <= i < |stages| && stages[i].stage == s && stages[i].state.Passed?
  }

  predicate Prerequisites(stages: seq<StageRecord>, stage: Stage) {
    forall s: int :: 0 <= s < stage ==> PassedAt(stages, s)
  }

  predicate CanStart(c: Campaign, k: nat, stage: Stage) {
    && k < |c.stages| && c.stages[k].stage == stage && Prerequisites(c.stages, stage)
    && (c.stages[k].state.Pending? || c.stages[k].state.Failed? || c.stages[k].state.RecoveryRequired?)
    && c.stages[k].attempt + 1 < 0x1_0000_0000
  }

  function Or(given: string, otherwise: string): string {
    if given == "" then otherwise else given
  }

  /** Evidence as the campaign freezes it: what it left open is filled in. */
  function Bound(b: Binding, e: Evidence): Evidence {
    e.(binding := e.binding.(campaignId := Or(e.binding.campaignId, b.campaignId),
                             sessionRunId := Or(e.binding.sessionRunId, b.sessionRunId),
                             releaseArtifactName := Or(e.binding.releaseArtifactName, b.releaseArtifactName),
                             windowsBuild := Or(e.binding.windowsBuild, b.windowsBuild),
                             topologySha256 := Or(e.binding.topologySha256, b.topologySha256)),
       kind := if e.kind.Unspecified? then ClassFor(e.stage) else e.kind)
  }

  ghost predicate CanAttach(c: Campaign, k: nat, e: Evidence, now: U64) {
    && k < |c.stages| && c.stages[k].stage == e.stage && c.stages[k].state.Running?
    && CheckEvidence(c.identity, e, now) == Success && e.verdict.Undecided? && NewNames(c.stages, e)
  }

  predicate CanJudge(c: Campaign, k: nat, stage: Stage, v: Verdict, note: string) {
    && k < |c.stages| && c.stages[k].stage == stage && c.stages[k].state.AwaitingManualReview? && !v.Undecided?
    && 0 < |note| <= MAXIMUM_NOTE_BYTES && AllPassed(c.stages[k].evidence)
    && (v.Pass? && RequiresPhysical(stage) ==>
          exists i :: 0 <= i < |c.stages[k].evidence| && c.stages[k].evidence[i].origin.Physical?)
  }

  predicate SomeRunning(c: Campaign) {
    exists i :: 0 <= i < |c.stages| && c.stages[i].state.Running?
  }

  // ---------------------------------------------------------------- every reachable campaign

  /** How a stage may have come to pass: one automatic success, and for a physical stage a human's word. */
  predicate Earned(r: StageRecord) {
    && |r.evidence| == 1 && r.evidence[0].automatedPassed
    && (RequiresPhysical(r.stage) ==> r.evidence[0].origin.Physical? && r.evidence[0].verdict.Pass?)
    && (!RequiresPhysical(r.stage) ==> r.evidence[0].origin.ControlledProcess?)
  }

  predicate RecordOrderly(r: StageRecord, stage: int, updated: U64) {
    && r.stage == stage && r.started <= updated && |r.evidence| <= 1
    && (r.state.Pending? || r.state.Running? || r.state.RecoveryRequired? ==> r.evidence == [])
    && (r.state.AwaitingManualReview? ==>
          |r.evidence| == 1 && r.evidence[0].automatedPassed && (RequiresPhysical(r.stage) ==> r.evidence[0].origin.Physical?))
    && (r.state.Passed? ==> Earned(r))
  }

  /** The stages begun form a prefix in which all but the last have passed. */
  predicate InOrder(stages: seq<StageRecord>) {
    forall i, j :: 0 <= i < j < |stages| && !stages[j].state.Pending? ==> stages[i].state.Passed?
  }

  predicate Orderly(c: Campaign) {
    && |c.stages| == STAGE_COUNT && c.created <= c.updated
    && (forall i :: 0 <= i < |c.stages| ==> RecordOrderly(c.stages[i], i, c.updated))
    && InOrder(c.stages)
  }

  /** What has passed stays as it is. */
  predicate PassedKept(c: Campaign, d: Campaign) {
    && |c.stages| == |d.stages|
    && forall i :: 0 <= i < |c.stages| && c.stages[i].state.Passed? ==> d.stages[i] == c.stages[i]
  }

  lemma StaysOrderly(c: Campaign, k: nat, r: StageRecord, now: U64)
    requires Orderly(c) && k < |c.stages| && c.updated <= now
    requires !c.stages[k].state.Passed? && !r.state.Pending? && RecordOrderly(r, k, now)
    requires forall i :: 0 <= i < k ==> c.stages[i].state.Passed?
    ensures Orderly(Replaced(c, k, r, now)) && PassedKept(c, Replaced(c, k, r, now))
  {
    hide Earned;
    var u := Replaced(c, k, r, now);
    forall i | 0 <= i < |u.stages| ensures RecordOrderly(u.stages[i], i, now) {
      if i != k { assert RecordOrderly(c.stages[i], i, c.updated); }
    }
  }

  lemma BegunAreEarlier(c: Campaign, k: nat)
    requires Orderly(c) && k < |c.stages| && !c.stages[k].state.Pending?
    ensures forall i :: 0 <= i < k ==> c.stages[i].state.Passed?
  {
    hide RecordOrderly;
  }

  lemma StartOrderly(c: Campaign, k: nat, stage: Stage, now: U64)
    requires Orderly(c) && CanStart(c, k, stage) && c.updated <= now
    ensures var d := Replaced(c, k, Started(c.stages[k], now), now); Orderly(d) && PassedKept(c, d)
  {
    hide Earned;
    assert RecordOrderly(c.stages[k], k, c.updated);
    forall i | 0 <= i < k ensures c.stages[i].state.Passed? {
      assert PassedAt(c.stages, i);
      var j :| 0 <= j < |c.stages| && c.stages[j].stage == i && c.stages[j].state.Passed?;
      assert RecordOrderly(c.stages[j], j, c.updated);
    }
    StaysOrderly(c, k, Started(c.stages[k], now), now);
  }

  lemma OriginFits(identity: Identity, e: Evidence, now: U64)
    requires CheckEvidence(identity, e, now) == Success
    ensures RequiresPhysical(e.stage) ==> e.origin.Physical?
    ensures !RequiresPhysical(e.stage) ==> e.origin.ControlledProcess?
  {
  }

  lemma AttachOrderly(c: Campaign, k: nat, e: Evidence, now: U64)
    requires Orderly(c) && CanAttach(c, k, e, now) && c.updated <= now
    ensures var d := Replaced(c, k, Attached(c.stages[k], e, now), now); Orderly(d) && PassedKept(c, d)
  {
    hide CheckEvidence, NewNames;
    assert RecordOrderly(c.stages[k], k, c.updated);
    OriginFits(c.identity, e, now);
    ReviewedArePhysical(e.stage);
    BegunAreEarlier(c, k);
    StaysOrderly(c, k, Attached(c.stages[k], e, now), now);
  }

  lemma JudgeOrderly(c: Campaign, k: nat, stage: Stage, v: Verdict, note: string, now: U64)
    requires Orderly(c) && ValidCampaign(c, now) && CanJudge(c, k, stage, v, note) && c.updated <= now
    ensures var d := Replaced(c, k, Judged(c.stages[k], v, note, now), now); Orderly(d) && PassedKept(c, d)
  {
    hide CheckEvidence, DistinctEvidence, HeaderValid;
    assert RecordOrderly(c.stages[k], k, c.updated) && StageValid(c.identity, c.stages[k], now);
    ReviewedArePhysical(stage);
    BegunAreEarlier(c, k);
    StaysOrderly(c, k, Judged(c.stages[k], v, note, now), now);
  }

  lemma RecoverOrderly(c: Campaign, now: U64)
    requires Orderly(c) && c.updated <= now
    ensures Orderly(Recovered(c, now)) && PassedKept(c, Recovered(c, now))
  {
    hide Earned;
    var u := Recovered(c, now);
    forall i | 0 <= i < |u.stages| ensures RecordOrderly(u.stages[i], i, now) {
      assert RecordOrderly(c.stages[i], i, c.updated);
    }
  }

  /** With a clock that does not run backwards, only the wrap of the 64-bit horizon can make a step's result invalid. */
  lemma ClockDecides(c: Campaign, now: U64)
    requires Orderly(c) && c.updated <= now
    ensures Fits(c, now) <==> now + CLOCK_SKEW < TWO_TO_64
    ensures forall i :: 0 <= i < |c.stages| ==> c.stages[i].started <= now
  {
    hide Earned;
    FitsWithoutWrap(now);
    forall i | 0 <= i < |c.stages| ensures c.stages[i].started <= now {
      assert RecordOrderly(c.stages[i], i, c.updated);
    }
  }

  // ---------------------------------------------------------------- the campaign object

  class AcceptanceCampaign {
    var schemaVersion: U32
    var identity: Identity
    var created: U64
    var updated: U64
    var stages: seq<StageRecord>

    function View(): Campaign
      reads this
    {
      Campaign(schemaVersion, identity, created, updated, stages)
    }

    /** makeCampaign for an identity that has been checked. */
    constructor (identity: Identity, now: U64)
      requires ValidIdentity(identity) && now != 0
      ensures View() == Campaign(CAMPAIGN_SCHEMA, identity, now, now, seq(STAGE_COUNT, i requires 0 <= i < STAGE_COUNT => Fresh(i)))
      ensures Orderly(View()) && (ValidCampaign(View(), now) <==> now + CLOCK_SKEW < TWO_TO_64)
    {
      schemaVersion, this.identity, created, updated := CAMPAIGN_SCHEMA, identity, now, now;
      var list: seq<StageRecord> := [];
      for raw := 0 to STAGE_COUNT
        invariant |list| == raw && forall i :: 0 <= i < raw ==> list[i] == Fresh(i)
      {
        list := list + [Fresh(raw)];
      }
      stages := list;
      new;
      FreshValid(View(), now);
    }

    /** The campaign that makeCampaign hands out beside its complaint. */
    constructor Blank()
      ensures View() == Campaign(CAMPAIGN_SCHEMA, Identity(NO_BINDING, 1, 2), 0, 0, [])
    {
      schemaVersion, identity, created, updated, stages := CAMPAIGN_SCHEMA, Identity(NO_BINDING, 1, 2), 0, 0, [];
    }

    /** makeCampaign */
    static method Make(identity: Identity, now: U64) returns (code: CampaignCode, campaign: AcceptanceCampaign)
      ensures fresh(campaign)
      ensures var bound := identity.(binding := identity.binding.(sessionRunId :=
                             Or(identity.binding.sessionRunId, identity.binding.campaignId)));
        && code == (if ValidIdentity(bound) && now != 0 then Success else InvalidIdentity)
        && (code == Success ==>
              && campaign.identity == bound && Orderly(campaign.View()) && campaign.updated == now
              && (forall i :: 0 <= i < |campaign.stages| ==> campaign.stages[i].state.Pending?)
              && (ValidCampaign(campaign.View(), now) <==> now + CLOCK_SKEW < TWO_TO_64))
        && (code != Success ==> campaign.View() == Campaign(CAMPAIGN_SCHEMA, Identity(NO_BINDING, 1, 2), 0, 0, []))
    {
      hide ValidIdentity, Orderly, ValidCampaign;
      var bound := identity;
      if bound.binding.sessionRunId == "" {
        bound := bound.(binding := bound.binding.(sessionRunId := bound.binding.campaignId));
      }
      if !ValidIdentity(bound) || now == 0 {
        campaign := new AcceptanceCampaign.Blank();
        return InvalidIdentity, campaign;
      }
      campaign := new AcceptanceCampaign(bound, now);
      code := Success;
    }

    /** validateCampaign: one pass, with the names seen so far (the source's three sets are one set of tagged names). */
    method Validate(now: U64) returns (code: CampaignCode)
      ensures code == Success <==> ValidCampaign(View(), now)
    {
      hide ExecutionValid, ReviewValid, ValidIdentity, CheckEvidence, Names, DistinctNames, AllNames, Collected, Horizon;
      if !HeaderValid(View(), now) { return InvalidCampaign; }
      var seen: set<Stage> := {};
      var names: set<Name> := {};
      NoNames(stages);
      for n := 0 to |stages|
        invariant forall i :: 0 <= i < n ==> StageValid(identity, stages[i], now)
        invariant forall s :: s in seen <==> exists i :: 0 <= i < n && stages[i].stage == s
        invariant forall i, j :: 0 <= i < j < n ==> stages[i].stage != stages[j].stage
        invariant names == AllNames(Collected(stages, 0, n)) && DistinctNames(Collected(stages, 0, n))
      {
        var stage := stages[n];
        if stage.stage in seen { return InvalidCampaign; }
        seen := seen + {stage.stage};
        if !ExecutionValid(stage, now) { return InvalidCampaign; }
        ghost var before := Collected(stages, 0, n);
        assert before + stage.evidence[..0] == before;
        for m := 0 to |stage.evidence|
          invariant forall i :: 0 <= i < m ==>
                      CheckEvidence(identity, stage.evidence[i], now) == Success && stage.evidence[i].stage == stage.stage
          invariant names == AllNames(before + stage.evidence[..m]) && DistinctNames(before + stage.evidence[..m])
        {
          var e := stage.evidence[m];
          code := CheckEvidence(identity, e, now);
          if code != Success { return; }
          if e.stage != stage.stage { return InvalidCampaign; }
          OneMore(before + stage.evidence[..m], e);
          assert before + stage.evidence[..m + 1] == before + stage.evidence[..m] + [e];
          if !(Names(e) !! names) {
            NotDistinct(stages, n, m);
            return EvidenceDuplicate;
          }
          names := names + Names(e);
        }
        assert stage.evidence[..|stage.evidence|] == stage.evidence;
        if !ReviewValid(stage) { return ManualVerdictRequired; }
        CollectedNext(stages, n);
      }
      code := Success;
    }

    /** findStage */
    method FindStage(stage: Stage) returns (found: Option<nat>)
      ensures found.Some? ==> found.value < |stages| && stages[found.value].stage == stage
      ensures found.Some? ==> forall i :: 0 <= i < found.value ==> stages[i].stage != stage
      ensures found.None? ==> forall i :: 0 <= i < |stages| ==> stages[i].stage != stage
    {
      for n := 0 to |stages|
        invariant forall i :: 0 <= i < n ==> stages[i].stage != stage
      {
        if stages[n].stage == stage { return Some(n); }
      }
      found := None;
    }

    method PrerequisitesPassed(stage: Stage) returns (passed: bool)
      requires DistinctStages(stages)
      ensures passed == Prerequisites(stages, stage)
    {
      for raw := 0 to stage
        invariant forall s: int :: 0 <= s < raw ==> PassedAt(stages, s)
      {
        var found := FindStage(raw);
        if found.None? || !stages[found.value].state.Passed? {
          assert !PassedAt(stages, raw);
          return false;
        }
        assert PassedAt(stages, raw);
      }
      passed := true;
    }

    method StartStage(stage: Stage, now: U64) returns (code: CampaignCode)
      modifies this
      ensures code != Success ==>
                && View() == old(View())
                && (!ValidCampaign(View(), now) || forall k: nat :: !CanStart(View(), k, stage))
      ensures code == Success ==>
                && ValidCampaign(old(View()), now)
                && exists k: nat :: CanStart(old(View()), k, stage)
                     && View() == Replaced(old(View()), k, Started(old(View()).stages[k], now), now)
      ensures code == Success ==> (ValidCampaign(View(), now) <==> Fits(old(View()), now))
      ensures code == Success && old(Orderly(View())) && old(updated) <= now ==>
                && Orderly(View()) && PassedKept(old(View()), View())
                && (ValidCampaign(View(), now) <==> now + CLOCK_SKEW < TWO_TO_64)
    {
      hide ValidCampaign, Orderly, PassedKept, Prerequisites, Fits;
      code := Validate(now);
      if code != Success { return; }
      ghost var c := View();
      ValidDistinct(c, now);
      var found := FindStage(stage);
      if found.None? { return InvalidTransition; }
      var k := found.value;
      OnlyAt(c.stages, k);
      var passed := PrerequisitesPassed(stage);
      if !passed { return InvalidTransition; }
      var r := stages[k];
      if !r.state.Pending? && !r.state.Failed? && !r.state.RecoveryRequired? { return InvalidTransition; }
      if r.attempt == 0xFFFF_FFFF { return InvalidTransition; }
      StartedValid(c, k, now);
      if Orderly(c) && c.updated <= now {
        StartOrderly(c, k, stage, now);
        ClockDecides(c, now);
      }
      stages := stages[k := Started(r, now)];
      updated := now;
    }

    /** Does any evidence in the campaign share a name with this piece? */
    method IsDuplicate(e: Evidence) returns (duplicate: bool)
      ensures duplicate <==> !NewNames(stages, e)
    {
      hide Names;
      for n := 0 to |stages|
        invariant forall i, a :: 0 <= i < n && 0 <= a < |stages[i].evidence| ==> Names(e) !! Names(stages[i].evidence[a])
      {
        for m := 0 to |stages[n].evidence|
          invariant forall a :: 0 <= a < m ==> Names(e) !! Names(stages[n].evidence[a])
        {
          if !(Names(e) !! Names(stages[n].evidence[m])) { return true; }
        }
      }
      duplicate := false;
    }

    method AttachEvidence(given: Evidence, now: U64) returns (code: CampaignCode)
      modifies this
      ensures code != Success ==>
                && View() == old(View())
                && (!ValidCampaign(View(), now) || forall k: nat :: !CanAttach(View(), k, Bound(identity.binding, given), now))
      ensures code == Success ==>
                && ValidCampaign(old(View()), now)
                && exists k: nat :: CanAttach(old(View()), k, Bound(identity.binding, given), now)
                     && View() == Replaced(old(View()), k, Attached(old(View()).stages[k], Bound(identity.binding, given), now), now)
                     && (ValidCampaign(View(), now) <==>
                           Fits(old(View()), now)
                           && (View().stages[k].state.AwaitingManualReview? || old(View()).stages[k].started <= now))
      ensures code == Success && old(Orderly(View())) && old(updated) <= now ==>
                && Orderly(View()) && PassedKept(old(View()), View())
                && (ValidCampaign(View(), now) <==> now + CLOCK_SKEW < TWO_TO_64)
    {
      hide ValidCampaign, Orderly, PassedKept, CheckEvidence, NewNames, Bound, Fits;
      code := Validate(now);
      if code != Success { return; }
      ghost var c := View();
      ValidDistinct(c, now);
      BoundStage(identity.binding, given);
      var found := FindStage(given.stage);
      if found.None? || !stages[found.value].state.Running? {
        if found.Some? { OnlyAt(c.stages, found.value); }
        return InvalidTransition;
      }
      var k := found.value;
      OnlyAt(c.stages, k);
      RunningIsEmpty(c, k, now);
      var r := stages[k];
      var e := Bound(identity.binding, given);
      code := CheckEvidence(identity, e, now);
      if code != Success { return; }
      if !e.verdict.Undecided? { return ManualVerdictRequired; }
      var duplicate := IsDuplicate(e);
      if duplicate { return EvidenceDuplicate; }
      AttachedValid(c, k, e, now);
      if Orderly(c) && c.updated <= now {
        AttachOrderly(c, k, e, now);
        ClockDecides(c, now);
      }
      if !e.automatedPassed {
        r := r.(state := Failed, diagnostic := "evidence reported failure");
      } else if RequiresReview(e.stage) {
        r := r.(state := AwaitingManualReview, diagnostic := "manual review is required");
      } else {
        r := r.(state := Passed, diagnostic := "");
      }
      stages := stages[k := r.(evidence := r.evidence + [e], completed := now)];
      updated := now;
      assert View() == Replaced(c, k, Attached(c.stages[k], e, now), now);
    }

    method RecordManualVerdict(stage: Stage, v: Verdict, note: string, now: U64) returns (code: CampaignCode)
      modifies this
      ensures code != Success ==>
                && View() == old(View())
                && (!ValidCampaign(View(), now) || forall k: nat :: !CanJudge(View(), k, stage, v, note))
      ensures code == Success ==>
                && ValidCampaign(old(View()), now)
                && exists k: nat :: CanJudge(old(View()), k, stage, v, note)
                     && View() == Replaced(old(View()), k, Judged(old(View()).stages[k], v, note, now), now)
                     && (ValidCampaign(View(), now) <==> Fits(old(View()), now) && old(View()).stages[k].started <= now)
      ensures code == Success && old(Orderly(View())) && old(updated) <= now ==>
                && Orderly(View()) && PassedKept(old(View()), View())
                && (ValidCampaign(View(), now) <==> now + CLOCK_SKEW < TWO_TO_64)
    {
      hide ValidCampaign, Orderly, PassedKept, RequiresPhysical, WithVerdict, Fits;
      code := Validate(now);
      if code != Success { return; }
      ghost var c := View();
      ValidDistinct(c, now);
      var found := FindStage(stage);
      if found.None? { return ManualVerdictRequired; }
      var k := found.value;
      OnlyAt(c.stages, k);
      var r := stages[k];
      if !r.state.AwaitingManualReview? || v.Undecided? || note == "" || |note| > MAXIMUM_NOTE_BYTES {
        return ManualVerdictRequired;
      }
      if !AllPassed(r.evidence) { return ManualVerdictRequired; }
      var physical := HasPhysical(r.evidence);
      if v.Pass? && RequiresPhysical(stage) && !physical { return PhysicalEvidenceRequired; }
      JudgedValid(c, k, v, note, now);
      if Orderly(c) && c.updated <= now {
        JudgeOrderly(c, k, stage, v, note, now);
        ClockDecides(c, now);
      }
      var marked := Mark(r.evidence, v);
      stages := stages[k := r.(evidence := marked, state := if v.Pass? then Passed else Failed, completed := now, diagnostic := note)];
      updated := now;
      assert View() == Replaced(c, k, Judged(c.stages[k], v, note, now), now);
      code := Success;
    }

    static method HasPhysical(evidence: seq<Evidence>) returns (physical: bool)
      ensures physical <==> exists i :: 0 <= i < |evidence| && evidence[i].origin.Physical?
    {
      for n := 0 to |evidence|
        invariant forall i :: 0 <= i < n ==> !evidence[i].origin.Physical?
      {
        if evidence[n].origin.Physical? { return true; }
      }
      physical := false;
    }

    static method Mark(evidence: seq<Evidence>, v: Verdict) returns (marked: seq<Evidence>)
      ensures marked == WithVerdict(evidence, v)
    {
      marked := [];
      for n := 0 to |evidence|
        invariant |marked| == n && forall i :: 0 <= i < n ==> marked[i] == evidence[i].(verdict := v)
      {
        marked := marked + [evidence[n].(verdict := v)];
      }
    }

    method RecoverInterrupted(now: U64) returns (code: CampaignCode)
      modifies this
      ensures code == Success <==> ValidCampaign(old(View()), now) && SomeRunning(old(View()))
      ensures View() == if code == Success then Recovered(old(View()), now) else old(View())
      ensures code == Success ==>
                (ValidCampaign(View(), now) <==>
                   && Fits(old(View()), now)
                   && forall i :: 0 <= i < |old(stages)| && old(stages)[i].state.Running? ==> old(stages)[i].started <= now)
      ensures code == Success && old(Orderly(View())) && old(updated) <= now ==>
                && Orderly(View()) && PassedKept(old(View()), View())
                && (ValidCampaign(View(), now) <==> now + CLOCK_SKEW < TWO_TO_64)
    {
      hide ValidCampaign, Orderly, PassedKept, RecoveredStages, Fits;
      code := Validate(now);
      if code != Success { return; }
      ghost var c := View();
      RecoveredValid(c, now);
      if Orderly(c) && c.updated <= now {
        RecoverOrderly(c, now);
        ClockDecides(c, now);
      }
      var list: seq<StageRecord> := [];
      var recovered := false;
      for n := 0 to |stages|
        invariant |list| == n && forall i :: 0 <= i < n ==> list[i] == Interrupted(stages[i], now)
        invariant recovered <==> exists i :: 0 <= i < n && stages[i].state.Running?
      {
        if stages[n].state.Running? { recovered := true; }
        list := list + [Interrupted(stages[n], now)];
      }
      if !recovered { return InvalidTransition; }
      stages := list;
      updated := now;
      assert stages == RecoveredStages(c.stages, now);
    }
  }

  const NO_BINDING := Binding("", "", "", "", "", 0, "", "", "", "", "", "")

  lemma ValidDistinct(c: Campaign, now: U64)
    requires ValidCampaign(c, now)
    ensures DistinctStages(c.stages)
  {
  }

  lemma BoundStage(b: Binding, e: Evidence)
    ensures Bound(b, e).stage == e.stage && Bound(b, e).verdict == e.verdict
  {
  }

  lemma RunningIsEmpty(c: Campaign, k: nat, now: U64)
    requires ValidCampaign(c, now) && k < |c.stages| && c.stages[k].state.Running?
    ensures c.stages[k].evidence == []
  {
    assert StageValid(c.identity, c.stages[k], now);
  }

  lemma OnlyAt(stages: seq<StageRecord>, k: nat)
    requires DistinctStages(stages) && k < |stages|
    ensures forall i :: 0 <= i < |stages| && stages[i].stage == stages[k].stage ==> i == k
  {
  }

  lemma NoNames(stages: seq<StageRecord>)
    ensures Collected(stages, 0, 0) == [] && AllNames([]) == {} && DistinctNames([])
  {
  }

  lemma CollectedNext(stages: seq<StageRecord>, n: nat)
    requires n < |stages|
    ensures Collected(stages, 0, n + 1) == Collected(stages, 0, n) + stages[n].evidence
  {
  }

  /** A repeated name in the evidence read so far is a repeated name in the whole. */
  lemma NotDistinct(stages: seq<StageRecord>, n: nat, m: nat)
    requires n < |stages| && m < |stages[n].evidence|
    requires !DistinctNames(Collected(stages, 0, n) + stages[n].evidence[..m + 1])
    ensures !DistinctEvidence(stages)
  {
    hide DistinctNames, Collected;
    var head := Collected(stages, 0, n) + stages[n].evidence[..m + 1];
    var tail := stages[n].evidence[m + 1..] + Collected(stages, n + 1, |stages|);
    CollectedSplit(stages, 0, n + 1, |stages|);
    CollectedNext(stages, n);
    assert stages[n].evidence == stages[n].evidence[..m + 1] + stages[n].evidence[m + 1..];
    assert Collected(stages, 0, |stages|) == head + tail;
    if DistinctEvidence(stages) { PrefixDistinct(head, tail); }
  }

  lemma FreshValid(c: Campaign, now: U64)
    requires ValidIdentity(c.identity) && now != 0 && |c.stages| == STAGE_COUNT
    requires c == Campaign(CAMPAIGN_SCHEMA, c.identity, now, now, c.stages)
    requires forall i :: 0 <= i < STAGE_COUNT ==> c.stages[i] == Fresh(i)
    ensures Orderly(c) && (ValidCampaign(c, now) <==> now + CLOCK_SKEW < TWO_TO_64)
  {
    hide ValidIdentity;
    NothingCollected(c.stages, 0, |c.stages|);
  }

  lemma {:induction false} NothingCollected(stages: seq<StageRecord>, lo: nat, hi: nat)
    requires lo <= hi <= |stages| && forall i :: 0 <= i < |stages| ==> stages[i].evidence == []
    ensures Collected(stages, lo, hi) == []
    decreases hi
  {
    if lo < hi { NothingCollected(stages, lo, hi - 1); }
  }

  /** Validity at the time of a step depends on nothing but the 64-bit horizon. */
  ghost predicate ValidAsStepped(c: Campaign, now: U64) {
    ValidCampaign(c, now) <==> now + CLOCK_SKEW < TWO_TO_64
  }

  /** What the successful steps of a run have left, each with its time: valid unless the horizon wraps, in order, and
      with all evidence bound to the campaign and in its window when it came. */
  ghost predicate Recorded(results: seq<(Campaign, U64)>) {
    && (forall n :: 0 <= n < |results| ==>
          Orderly(results[n].0) && ValidAsStepped(results[n].0, results[n].1) && AllBelong(results[n].0))
    && (forall n :: 0 <= n < |results| - 1 ==> Succeeds(results[n], results[n + 1]))
  }

  ghost predicate Succeeds(before: (Campaign, U64), after: (Campaign, U64)) {
    && before.1 <= after.1 && Moved(before.0, after.0, after.1)
    && PassedKept(before.0, after.0) && Accounted(before.0, after.0, after.1)
  }

  lemma RecordedMore(results: seq<(Campaign, U64)>, next: (Campaign, U64))
    requires Recorded(results) && |results| > 0 && Succeeds(results[|results| - 1], next)
    requires Orderly(next.0) && ValidAsStepped(next.0, next.1) && AllBelong(next.0)
    ensures Recorded(results + [next])
  {
    hide Orderly, ValidAsStepped, AllBelong, Succeeds;
    var more := results + [next];
    forall n | 0 <= n < |more| - 1 ensures Succeeds(more[n], more[n + 1]) {
      if n < |results| - 1 { assert more[n] == results[n] && more[n + 1] == results[n + 1]; }
    }
  }

  /**
   * Any run of the four steps under a clock that does not go backwards: each successful step leaves the campaign
   * valid at its time unless the horizon wraps; whatever has passed was earned, in order; and every piece of evidence
   * is about this campaign, fits its stage and came in time. `results` holds what the successful steps left.
   */
  method Run(identity: Identity, start: U64)
    returns (code: CampaignCode, campaign: AcceptanceCampaign, ghost results: seq<(Campaign, U64)>)
    ensures code == Success ==>
              && |results| > 0 && results[|results| - 1].0 == campaign.View()
              && AllBelong(campaign.View())
              && forall i :: 0 <= i < |campaign.stages| && campaign.stages[i].state.Passed? ==> Earned(campaign.stages[i])
    ensures Recorded(results)
  {
    hide Orderly, PassedKept, ValidAsStepped, AllBelong, Accounted, Moved, Recorded;
    results := [];
    assert Recorded(results) by { NothingRecorded(); }
    code, campaign := AcceptanceCampaign.Make(identity, start);
    if code != Success { return; }
    FreshBelongs(campaign.View());
    results := [(campaign.View(), start)];
    assert Recorded(results) by { OneRecorded(campaign.View(), start); }
    var now := start;
    var steps: nat := *;
    while steps > 0
      invariant fresh(campaign) && Orderly(campaign.View()) && AllBelong(campaign.View()) && campaign.updated <= now
      invariant |results| > 0 && results[|results| - 1].0 == campaign.View() && results[|results| - 1].1 <= now
      invariant Recorded(results)
    {
      var later: U64 := *;
      if later >= now { now := later; }
      var which: nat := *;
      var stepped := Step(campaign, which, now);
      if stepped == Success {
        RecordedMore(results, (campaign.View(), now));
        results := results + [(campaign.View(), now)];
      }
      steps := steps - 1;
    }
    PassedEarned(campaign.View());
    code := Success;
  }

  lemma NothingRecorded()
    ensures Recorded([])
  {
  }

  lemma OneRecorded(c: Campaign, now: U64)
    requires Orderly(c) && (ValidCampaign(c, now) <==> now + CLOCK_SKEW < TWO_TO_64) && AllBelong(c)
    ensures Recorded([(c, now)])
  {
    hide Orderly, ValidCampaign, AllBelong;
  }

  lemma FreshBelongs(c: Campaign)
    requires Orderly(c) && forall i :: 0 <= i < |c.stages| ==> c.stages[i].state.Pending?
    ensures AllBelong(c)
  {
    forall i | 0 <= i < |c.stages| ensures c.stages[i].evidence == [] {
      assert RecordOrderly(c.stages[i], i, c.updated);
    }
    NoneBelong(c);
  }

  method Step(campaign: AcceptanceCampaign, which: nat, now: U64) returns (code: CampaignCode)
    requires Orderly(campaign.View()) && AllBelong(campaign.View()) && campaign.updated <= now
    modifies campaign
    ensures Orderly(campaign.View()) && AllBelong(campaign.View()) && campaign.updated <= now
    ensures PassedKept(old(campaign.View()), campaign.View())
    ensures if code == Success
            then && ValidAsStepped(campaign.View(), now) && Accounted(old(campaign.View()), campaign.View(), now)
                 && Moved(old(campaign.View()), campaign.View(), now)
            else campaign.View() == old(campaign.View())
  {
    hide Orderly, ValidCampaign, AllBelong, Accounted, CheckEvidence, NewNames, Bound, Fits, Moved, Prerequisites;
    ghost var c := campaign.View();
    NothingLost(c);
    var stage: Stage := *;
    if which == 0 {
      code := campaign.StartStage(stage, now);
      if code == Success {
        ghost var k: nat :| CanStart(c, k, stage) && campaign.View() == Replaced(c, k, Started(c.stages[k], now), now);
        KeepsBelonging(c, k, Started(c.stages[k], now), now);
        StartedMoves(c, k, now);
      }
    } else if which == 1 {
      var given: Evidence := *;
      code := campaign.AttachEvidence(given, now);
      if code == Success {
        ghost var e := Bound(c.identity.binding, given);
        ghost var k: nat :| CanAttach(c, k, e, now) && campaign.View() == Replaced(c, k, Attached(c.stages[k], e, now), now);
        StageAt(c, k);
        IdentityOf(c, now);
        AttachedBelongs(c, k, e, now);
        RunningIsEmpty(c, k, now);
        AttachedMoves(c, k, e, now);
      }
    } else if which == 2 {
      var v: Verdict := *;
      var note: string := *;
      code := campaign.RecordManualVerdict(stage, v, note, now);
      if code == Success {
        ghost var k: nat :| CanJudge(c, k, stage, v, note) && campaign.View() == Replaced(c, k, Judged(c.stages[k], v, note, now), now);
        JudgedBelongs(c, k, v, note, now);
        JudgedMoves(c, k, v, note, now);
      }
    } else {
      code := campaign.RecoverInterrupted(now);
      if code == Success {
        RecoveredBelongs(c, now);
        RecoveredMoves(c, now);
      }
    }
  }

  lemma StageAt(c: Campaign, k: nat)
    requires Orderly(c) && k < |c.stages|
    ensures c.stages[k].stage == k
  {
    assert RecordOrderly(c.stages[k], k, c.updated);
  }

  lemma IdentityOf(c: Campaign, now: U64)
    requires ValidCampaign(c, now)
    ensures ValidIdentity(c.identity)
  {
  }

  lemma NothingLost(c: Campaign)
    ensures PassedKept(c, c)
  {
  }

  lemma PassedEarned(c: Campaign)
    requires Orderly(c)
    ensures forall i :: 0 <= i < |c.stages| && c.stages[i].state.Passed? ==> Earned(c.stages[i])
  {
    hide Earned;
    forall i | 0 <= i < |c.stages| && c.stages[i].state.Passed? ensures Earned(c.stages[i]) {
      assert RecordOrderly(c.stages[i], i, c.updated);
    }
  }
}
