/** Acceptance campaigns as values: what is valid, and what a valid piece of evidence is. */
module CampaignModel {
  import opened Words

  const CAMPAIGN_SCHEMA := 2
  const EVIDENCE_SCHEMA := 2
  const STAGE_COUNT := 13
  const MAXIMUM_EVIDENCE_PER_STAGE := 16
  const MAXIMUM_IDENTIFIER_BYTES := 128
  const MAXIMUM_NOTE_BYTES := 8192
  const MAXIMUM_EVIDENCE_AGE := 604800
  const CLOCK_SKEW := 300

  /** The thirteen stages, by their place in the campaign. */
  type Stage = n: int | 0 <= n < STAGE_COUNT

  datatype StageState = Pending | Running | AwaitingManualReview | Passed | Failed | RecoveryRequired
  datatype Origin = Synthetic | ControlledProcess | Physical
  datatype EvidenceClass =
    | SyntheticClass | Controlled | PhysicalClass | Manual | RealGame | CleanMachineInstall | SigningDeployment | Unspecified
  datatype Verdict = Undecided | Pass | Fail

  datatype CampaignCode =
    | Success | InvalidIdentity | InvalidCampaign | InvalidTransition | EvidenceMalformed | EvidenceStale
    | EvidenceIdentityMismatch | EvidenceDuplicate | EvidenceClassMismatch | PhysicalEvidenceRequired | ManualVerdictRequired

  /** What a campaign is about; a piece of evidence names the same twelve things. */
  datatype Binding = Binding(campaignId: string, sessionRunId: string, rcCommitSha: string, releaseArtifactSha256: string,
                             releaseArtifactName: string, releaseRevision: U64, architecture: string, profileSha256: string,
                             installStateSha256: string, windowsBuild: string, topologySha256: string, scenario: string)

  datatype Identity = Identity(binding: Binding, seat0: U32, seat1: U32)

  datatype Evidence = Evidence(schemaVersion: U32, campaignSchemaVersion: U32, evidenceId: string, stage: Stage,
                               origin: Origin, created: U64, contentSha256: string, artifactName: string, testName: string,
                               binding: Binding, automatedPassed: bool, verdict: Verdict, note: string, kind: EvidenceClass)

  datatype StageRecord = StageRecord(stage: Stage, state: StageState, attempt: U32, started: U64, completed: U64,
                                     evidence: seq<Evidence>, diagnostic: string)

  datatype Campaign = Campaign(schemaVersion: U32, identity: Identity, created: U64, updated: U64, stages: seq<StageRecord>)

  // ---------------------------------------------------------------- the stages' rules

  function ClassFor(stage: Stage): EvidenceClass {
    if stage == 0 || stage == 10 then Controlled
    else if stage == 1 || stage == 2 then PhysicalClass
    else if stage == 7 || stage == 8 || stage == 9 then CleanMachineInstall
    else if stage == 11 then Manual
    else RealGame
  }

  predicate RequiresPhysical(stage: Stage) {
    var c := ClassFor(stage);
    c.PhysicalClass? || c.Manual? || c.RealGame? || c.CleanMachineInstall? || c.SigningDeployment?
  }

  predicate RequiresReview(stage: Stage) { stage != 0 && stage != 10 }

  /** Exactly the stages that need a human also need physical evidence. */
  lemma ReviewedArePhysical(stage: Stage)
    ensures RequiresReview(stage) <==> RequiresPhysical(stage)
  {
  }

  // ---------------------------------------------------------------- text checks

  predicate TokenChar(c: char) {
    'A' <= c <= 'Z' || 'a' <= c <= 'z' || '0' <= c <= '9'
    || c == '-' || c == '_' || c == '.' || c == ':' || c == '+' || c == '@'
  }

  predicate Token(s: string) {
    0 < |s| <= MAXIMUM_IDENTIFIER_BYTES && forall i :: 0 <= i < |s| ==> TokenChar(s[i])
  }

  predicate Hex(s: string, size: nat) {
    |s| == size && forall i :: 0 <= i < |s| ==> '0' <= s[i] <= '9' || 'a' <= s[i] <= 'f'
  }

  predicate ValidArchitecture(s: string) { s == "x64" || s == "x86" || s == "arm64" }

  predicate ValidIdentity(x: Identity) {
    var b := x.binding;
    && Token(b.campaignId) && Hex(b.rcCommitSha, 40) && Hex(b.releaseArtifactSha256, 64) && Token(b.releaseArtifactName)
    && b.releaseRevision != 0 && ValidArchitecture(b.architecture) && Hex(b.profileSha256, 64)
    && Hex(b.installStateSha256, 64) && Token(b.windowsBuild) && Hex(b.topologySha256, 64)
    && x.seat0 != 0 && x.seat1 != 0 && x.seat0 != x.seat1 && x.seat0 <= 2 && x.seat1 <= 2
    && Token(b.scenario) && Token(b.sessionRunId) && b.sessionRunId == b.campaignId
  }

  // ---------------------------------------------------------------- evidence

  /** The latest time the source accepts; the 64-bit sum wraps. */
  function Horizon(now: U64): U64 {
    (now + CLOCK_SKEW) % TWO_TO_64
  }

  predicate WellFormed(e: Evidence) {
    && e.schemaVersion == EVIDENCE_SCHEMA && e.campaignSchemaVersion == CAMPAIGN_SCHEMA && Token(e.evidenceId)
    && Hex(e.contentSha256, 64) && Token(e.artifactName) && Token(e.testName) && e.binding.releaseRevision != 0
    && ValidArchitecture(e.binding.architecture) && Hex(e.binding.profileSha256, 64) && Hex(e.binding.installStateSha256, 64)
    && Token(e.binding.campaignId) && Token(e.binding.sessionRunId) && Token(e.binding.releaseArtifactName)
    && Token(e.binding.windowsBuild) && Hex(e.binding.topologySha256, 64) && |e.note| <= MAXIMUM_NOTE_BYTES
  }

  predicate Timely(e: Evidence, now: U64) {
    e.created != 0 && e.created <= Horizon(now) && (e.created < now ==> now - e.created <= MAXIMUM_EVIDENCE_AGE)
  }

  /** validateEvidence, with its order of complaints. */
  function CheckEvidence(identity: Identity, e: Evidence, now: U64): CampaignCode {
    if !WellFormed(e) then EvidenceMalformed
    else if !Timely(e, now) then EvidenceStale
    else if e.binding != identity.binding then EvidenceIdentityMismatch
    else if e.kind != ClassFor(e.stage) then EvidenceClassMismatch
    else if RequiresPhysical(e.stage) && !e.origin.Physical? then PhysicalEvidenceRequired
    else if ClassFor(e.stage).Controlled? && !e.origin.ControlledProcess? then EvidenceClassMismatch
    else Success
  }

  // ---------------------------------------------------------------- campaigns

  /** The three ways in which a piece of evidence must differ from every other. */
  datatype Name = EvidenceId(s: string) | Artifact(s: string) | Test(s: string)

  function Names(e: Evidence): set<Name> {
    {EvidenceId(e.evidenceId), Artifact(e.artifactName), Test(e.testName)}
  }

  predicate AllPassed(evidence: seq<Evidence>) {
    evidence != [] && forall i :: 0 <= i < |evidence| ==> evidence[i].automatedPassed
  }

  predicate AllWithVerdict(evidence: seq<Evidence>, v: Verdict) {
    evidence != [] && forall i :: 0 <= i < |evidence| ==> evidence[i].verdict == v
  }

  predicate ExecutionValid(r: StageRecord, now: U64) {
    && |r.diagnostic| <= MAXIMUM_NOTE_BYTES && |r.evidence| <= MAXIMUM_EVIDENCE_PER_STAGE
    && (if r.state.Pending? then r.attempt == 0 && r.started == 0 && r.completed == 0 && r.evidence == []
        else r.attempt != 0 && r.started != 0 && r.started <= Horizon(now))
    && (r.state.Passed? || r.state.Failed? || r.state.RecoveryRequired? ==> r.started <= r.completed)
    && (r.state.Running? || r.state.RecoveryRequired? ==> r.evidence == [])
  }

  predicate ReviewValid(r: StageRecord) {
    && (r.state.AwaitingManualReview? ==>
          RequiresReview(r.stage) && AllPassed(r.evidence) && AllWithVerdict(r.evidence, Undecided))
    && (r.state.Passed? ==>
          AllPassed(r.evidence) && (RequiresReview(r.stage) ==> AllWithVerdict(r.evidence, Pass)))
  }

  /** What one stage record must be, given the campaign's identity. */
  predicate StageValid(identity: Identity, r: StageRecord, now: U64) {
    && ExecutionValid(r, now) && ReviewValid(r)
    && (forall i :: 0 <= i < |r.evidence| ==>
          CheckEvidence(identity, r.evidence[i], now) == Success && r.evidence[i].stage == r.stage)
  }

  predicate HeaderValid(c: Campaign, now: U64) {
    && c.schemaVersion == CAMPAIGN_SCHEMA && ValidIdentity(c.identity) && c.created != 0 && c.created <= c.updated
    && c.updated <= Horizon(now) && |c.stages| == STAGE_COUNT
  }

  predicate DistinctStages(stages: seq<StageRecord>) {
    forall i, j :: 0 <= i < j < |stages| ==> stages[i].stage != stages[j].stage
  }

  /** The evidence of stages lo to hi, in order. */
  function Collected(stages: seq<StageRecord>, lo: nat, hi: nat): seq<Evidence>
    requires lo <= hi <= |stages|
    decreases hi
  {
    if lo == hi then [] else Collected(stages, lo, hi - 1) + stages[hi - 1].evidence
  }

  predicate DistinctNames(evidence: seq<Evidence>) {
    forall i, j :: 0 <= i < j < |evidence| ==> Names(evidence[i]) !! Names(evidence[j])
  }

  /** No two pieces of evidence, in one stage or in two, share an id, an artifact or a test. */
  predicate DistinctEvidence(stages: seq<StageRecord>) {
    DistinctNames(Collected(stages, 0, |stages|))
  }

  predicate ValidCampaign(c: Campaign, now: U64) {
    && HeaderValid(c, now)
    && (forall i :: 0 <= i < |c.stages| ==> StageValid(c.identity, c.stages[i], now))
    && DistinctStages(c.stages)
    && DistinctEvidence(c.stages)
  }

  // ---------------------------------------------------------------- names in a row

  function AllNames(evidence: seq<Evidence>): set<Name>
    decreases |evidence|
  {
    if evidence == [] then {} else AllNames(evidence[..|evidence| - 1]) + Names(evidence[|evidence| - 1])
  }

  lemma {:induction false} NameOwner(evidence: seq<Evidence>, name: Name)
    requires name in AllNames(evidence)
    ensures exists i :: 0 <= i < |evidence| && name in Names(evidence[i])
    decreases |evidence|
  {
    var init := evidence[..|evidence| - 1];
    if name in Names(evidence[|evidence| - 1]) {
    } else {
      NameOwner(init, name);
      var i :| 0 <= i < |init| && name in Names(init[i]);
      assert evidence[i] == init[i];
    }
  }

  lemma {:induction false} OwnNames(evidence: seq<Evidence>, i: nat)
    requires i < |evidence|
    ensures Names(evidence[i]) <= AllNames(evidence)
    decreases |evidence|
  {
    if i < |evidence| - 1 { OwnNames(evidence[..|evidence| - 1], i); }
  }

  /** One more piece of evidence is distinct from the others exactly when none of its names was seen. */
  lemma OneMore(evidence: seq<Evidence>, e: Evidence)
    requires DistinctNames(evidence)
    ensures DistinctNames(evidence + [e]) <==> Names(e) !! AllNames(evidence)
    ensures AllNames(evidence + [e]) == AllNames(evidence) + Names(e)
  {
    hide Names;
    var more := evidence + [e];
    assert more[..|evidence|] == evidence;
    if Names(e) !! AllNames(evidence) {
      forall i | 0 <= i < |evidence| ensures Names(evidence[i]) !! Names(e) { OwnNames(evidence, i); }
    } else {
      var name :| name in Names(e) && name in AllNames(evidence);
      NameOwner(evidence, name);
      var i :| 0 <= i < |evidence| && name in Names(evidence[i]);
      assert more[i] == evidence[i] && more[|evidence|] == e;
      assert !(Names(more[i]) !! Names(more[|evidence|]));
    }
  }

  lemma PrefixDistinct(a: seq<Evidence>, b: seq<Evidence>)
    requires DistinctNames(a + b)
    ensures DistinctNames(a)
  {
    hide Names;
    forall i, j | 0 <= i < j < |a| ensures Names(a[i]) !! Names(a[j]) {
      assert (a + b)[i] == a[i] && (a + b)[j] == a[j];
    }
  }

  lemma {:induction false} CollectedSplit(stages: seq<StageRecord>, lo: nat, mid: nat, hi: nat)
    requires lo <= mid <= hi <= |stages|
    ensures Collected(stages, lo, hi) == Collected(stages, lo, mid) + Collected(stages, mid, hi)
    decreases hi
  {
    if mid < hi { CollectedSplit(stages, lo, mid, hi - 1); }
  }

  lemma {:induction false} CollectedElsewhere(stages: seq<StageRecord>, k: nat, r: StageRecord, lo: nat, hi: nat)
    requires k < |stages| && lo <= hi <= |stages| && (hi <= k || k < lo)
    ensures Collected(stages[k := r], lo, hi) == Collected(stages, lo, hi)
    decreases hi
  {
    if lo < hi { CollectedElsewhere(stages, k, r, lo, hi - 1); }
  }

  /** All evidence, seen from stage k. */
  lemma CollectedAround(stages: seq<StageRecord>, k: nat, r: StageRecord)
    requires k < |stages|
    ensures Collected(stages[k := r], 0, |stages|) ==
            Collected(stages, 0, k) + r.evidence + Collected(stages, k + 1, |stages|)
  {
    var u := stages[k := r];
    CollectedSplit(u, 0, k, |u|);
    CollectedSplit(u, k, k + 1, |u|);
    CollectedElsewhere(stages, k, r, 0, k);
    CollectedElsewhere(stages, k, r, k + 1, |stages|);
    assert Collected(u, k, k + 1) == Collected(u, k, k) + u[k].evidence == r.evidence;
  }
}
