/** What the evidence in a campaign is bound to, said field by field and stage by stage. */
module CampaignEvidence {
  import opened Words
  import opened CampaignModel
  import opened CampaignSteps

  /** The class of evidence that each of the thirteen stages takes. */
  function ClassTable(): seq<EvidenceClass> {
    [Controlled, PhysicalClass, PhysicalClass, RealGame, RealGame, RealGame, RealGame, CleanMachineInstall,
     CleanMachineInstall, CleanMachineInstall, Controlled, Manual, RealGame]
  }

  /** Where the evidence of each stage must come from. */
  function OriginTable(): seq<Origin> {
    [ControlledProcess, Physical, Physical, Physical, Physical, Physical, Physical, Physical,
     Physical, Physical, ControlledProcess, Physical, Physical]
  }

  /** The evidence is about this very campaign, in all twelve respects. */
  predicate SameSubject(e: Binding, x: Binding) {
    && e.campaignId == x.campaignId && e.sessionRunId == x.sessionRunId
    && e.rcCommitSha == x.rcCommitSha && e.releaseArtifactSha256 == x.releaseArtifactSha256
    && e.releaseArtifactName == x.releaseArtifactName && e.releaseRevision == x.releaseRevision
    && e.architecture == x.architecture && e.profileSha256 == x.profileSha256
    && e.installStateSha256 == x.installStateSha256 && e.windowsBuild == x.windowsBuild
    && e.topologySha256 == x.topologySha256 && e.scenario == x.scenario
  }

  predicate LowerHex(s: string) {
    forall i :: 0 <= i < |s| ==> s[i] in "0123456789abcdef"
  }

  predicate NameChar(c: char) {
    || c in "ABCDEFGHIJKLMNOPQRSTUVWXYZ" || c in "abcdefghijklmnopqrstuvwxyz" || c in "0123456789" || c in "-_.:+@"
  }

  predicate Named(s: string) {
    && 1 <= |s| <= 128
    && forall i :: 0 <= i < |s| ==> NameChar(s[i])
  }

  /** A piece of evidence that stage number `stage` of a campaign with this identity may hold. */
  predicate Belongs(identity: Identity, stage: int, e: Evidence) {
    && 0 <= stage < 13 && e.stage == stage
    && SameSubject(e.binding, identity.binding)
    && e.kind == ClassTable()[stage] && e.origin == OriginTable()[stage]
    && e.schemaVersion == 2 && e.campaignSchemaVersion == 2
    && Named(e.evidenceId) && Named(e.artifactName) && Named(e.testName)
    && |e.contentSha256| == 64 && LowerHex(e.contentSha256) && |e.note| <= 8192
  }

  /** Not older than a week, and no more than five minutes ahead, on a 64-bit clock. */
  predicate InWindow(e: Evidence, now: U64) {
    0 < e.created <= (now + 300) % 0x1_0000_0000_0000_0000 && now - e.created <= 604800
  }

  predicate AllBelong(c: Campaign) {
    forall i, a :: 0 <= i < |c.stages| && 0 <= a < |c.stages[i].evidence| ==>
      Belongs(c.identity, i, c.stages[i].evidence[a])
  }

  /** The evidence was there before, but for a human's verdict. */
  predicate WasThere(r: StageRecord, e: Evidence) {
    exists a :: 0 <= a < |r.evidence| && r.evidence[a].(verdict := e.verdict) == e
  }

  /** Whatever evidence is new was in its window at the time of the step. */
  predicate Accounted(c: Campaign, d: Campaign, now: U64) {
    && |c.stages| == |d.stages| && d.identity == c.identity
    && forall i, a :: 0 <= i < |d.stages| && 0 <= a < |d.stages[i].evidence| ==>
         WasThere(c.stages[i], d.stages[i].evidence[a]) || InWindow(d.stages[i].evidence[a], now)
  }

  /** The checks on a piece of evidence accept it exactly if it belongs and is in its window. */
  lemma CheckedExactly(identity: Identity, e: Evidence, now: U64)
    requires ValidIdentity(identity)
    ensures CheckEvidence(identity, e, now) == Success <==> Belongs(identity, e.stage, e) && InWindow(e, now)
  {
    hide Token, Hex, Named, LowerHex, TokenChar;
    NamedExactly(e.evidenceId);
    NamedExactly(e.artifactName);
    NamedExactly(e.testName);
    DigestExactly(e.contentSha256, 64);
    TablesAgree(e.stage);
    SubjectExactly(e.binding, identity.binding);
  }

  lemma NamedExactly(s: string)
    ensures Token(s) <==> Named(s)
  {
    hide TokenChar, NameChar;
    forall i | 0 <= i < |s| ensures TokenChar(s[i]) <==> NameChar(s[i]) { NameCharExactly(s[i]); }
  }

  lemma NameCharExactly(c: char)
    ensures TokenChar(c) <==> NameChar(c)
  {
    UpperExactly(c);
    LowerExactly(c);
    NumberExactly(c);
  }

  lemma UpperExactly(c: char)
    ensures 'A' <= c <= 'Z' <==> c in "ABCDEFGHIJKLMNOPQRSTUVWXYZ"
  {
  }

  lemma LowerExactly(c: char)
    ensures 'a' <= c <= 'z' <==> c in "abcdefghijklmnopqrstuvwxyz"
  {
  }

  lemma NumberExactly(c: char)
    ensures '0' <= c <= '9' <==> c in "0123456789"
  {
  }

  lemma DigitExactly(c: char)
    ensures ('0' <= c <= '9' || 'a' <= c <= 'f') <==> c in "0123456789abcdef"
  {
  }

  lemma TablesAgree(stage: Stage)
    ensures ClassFor(stage) == ClassTable()[stage]
    ensures RequiresPhysical(stage) <==> OriginTable()[stage].Physical?
    ensures ClassFor(stage).Controlled? <==> OriginTable()[stage].ControlledProcess?
    ensures RequiresReview(stage) <==> OriginTable()[stage].Physical?
  {
  }

  lemma SubjectExactly(e: Binding, x: Binding)
    ensures SameSubject(e, x) <==> e == x
  {
  }

  /** A release hash or commit: so many lower-case hexadecimal digits. */
  predicate Digest(s: string, size: nat) {
    |s| == size && LowerHex(s)
  }

  /** An identity is accepted exactly with well-formed names and digests, the two seats 1 and 2, and one session. */
  lemma IdentityExactly(x: Identity)
    ensures ValidIdentity(x) <==>
      var b := x.binding;
      && Named(b.campaignId) && b.sessionRunId == b.campaignId && Named(b.releaseArtifactName) && Named(b.windowsBuild)
      && Named(b.scenario) && Digest(b.rcCommitSha, 40) && Digest(b.releaseArtifactSha256, 64) && Digest(b.profileSha256, 64)
      && Digest(b.installStateSha256, 64) && Digest(b.topologySha256, 64) && b.releaseRevision > 0
      && (b.architecture == "x64" || b.architecture == "x86" || b.architecture == "arm64")
      && ((x.seat0 == 1 && x.seat1 == 2) || (x.seat0 == 2 && x.seat1 == 1))
  {
    hide Token, Hex, Named, Digest;
    var b := x.binding;
    NamedExactly(b.campaignId);
    NamedExactly(b.releaseArtifactName);
    NamedExactly(b.windowsBuild);
    NamedExactly(b.scenario);
    DigestExactly(b.rcCommitSha, 40);
    DigestExactly(b.releaseArtifactSha256, 64);
    DigestExactly(b.profileSha256, 64);
    DigestExactly(b.installStateSha256, 64);
    DigestExactly(b.topologySha256, 64);
  }

  lemma DigestExactly(s: string, size: nat)
    ensures Hex(s, size) <==> Digest(s, size)
  {
    forall i | 0 <= i < |s| ensures ('0' <= s[i] <= '9' || 'a' <= s[i] <= 'f') <==> s[i] in "0123456789abcdef" {
      DigitExactly(s[i]);
    }
  }

  // ---------------------------------------------------------------- the steps

  /** Replacing a record by one with no evidence, or with the same but for verdicts. */
  lemma KeepsBelonging(c: Campaign, k: nat, r: StageRecord, now: U64)
    requires AllBelong(c) && k < |c.stages|
    requires forall a :: 0 <= a < |r.evidence| ==>
               Belongs(c.identity, k, r.evidence[a]) && (WasThere(c.stages[k], r.evidence[a]) || InWindow(r.evidence[a], now))
    ensures AllBelong(Replaced(c, k, r, now)) && Accounted(c, Replaced(c, k, r, now), now)
  {
    hide Belongs, InWindow;
    var d := Replaced(c, k, r, now);
    forall i, a | 0 <= i < |d.stages| && 0 <= a < |d.stages[i].evidence|
      ensures Belongs(c.identity, i, d.stages[i].evidence[a])
      ensures WasThere(c.stages[i], d.stages[i].evidence[a]) || InWindow(d.stages[i].evidence[a], now)
    {
      if i != k { Itself(c.stages[i], a); }
    }
  }

  lemma Itself(r: StageRecord, a: int)
    requires 0 <= a < |r.evidence|
    ensures WasThere(r, r.evidence[a])
  {
    assert r.evidence[a].(verdict := r.evidence[a].verdict) == r.evidence[a];
  }

  lemma AttachedBelongs(c: Campaign, k: nat, e: Evidence, now: U64)
    requires AllBelong(c) && k < |c.stages| && e.stage == k && ValidIdentity(c.identity)
    requires CheckEvidence(c.identity, e, now) == Success
    ensures var d := Replaced(c, k, Attached(c.stages[k], e, now), now); AllBelong(d) && Accounted(c, d, now)
  {
    hide Belongs, InWindow, CheckEvidence, ValidIdentity;
    CheckedExactly(c.identity, e, now);
    var r := Attached(c.stages[k], e, now);
    forall a | 0 <= a < |r.evidence|
      ensures Belongs(c.identity, k, r.evidence[a]) && (WasThere(c.stages[k], r.evidence[a]) || InWindow(r.evidence[a], now))
    {
      if a < |c.stages[k].evidence| { Itself(c.stages[k], a); }
    }
    KeepsBelonging(c, k, r, now);
  }

  lemma JudgedBelongs(c: Campaign, k: nat, v: Verdict, note: string, now: U64)
    requires AllBelong(c) && k < |c.stages|
    ensures var d := Replaced(c, k, Judged(c.stages[k], v, note, now), now); AllBelong(d) && Accounted(c, d, now)
  {
    hide InWindow, Named, LowerHex, SameSubject;
    var r := Judged(c.stages[k], v, note, now);
    forall a | 0 <= a < |r.evidence| ensures Belongs(c.identity, k, r.evidence[a]) && WasThere(c.stages[k], r.evidence[a]) {
      assert Belongs(c.identity, k, c.stages[k].evidence[a]);
      assert c.stages[k].evidence[a].(verdict := v) == r.evidence[a];
    }
    KeepsBelonging(c, k, r, now);
  }

  lemma RecoveredBelongs(c: Campaign, now: U64)
    requires AllBelong(c)
    ensures AllBelong(Recovered(c, now)) && Accounted(c, Recovered(c, now), now)
  {
    hide Belongs, InWindow;
    var d := Recovered(c, now);
    forall i, a | 0 <= i < |d.stages| && 0 <= a < |d.stages[i].evidence|
      ensures Belongs(c.identity, i, d.stages[i].evidence[a]) && WasThere(c.stages[i], d.stages[i].evidence[a])
    {
      Itself(c.stages[i], a);
    }
  }

  lemma NoneBelong(c: Campaign)
    requires forall i :: 0 <= i < |c.stages| ==> c.stages[i].evidence == []
    ensures AllBelong(c)
  {
  }

  lemma SameAccounted(c: Campaign, now: U64)
    ensures Accounted(c, c, now)
  {
    hide InWindow;
    forall i, a | 0 <= i < |c.stages| && 0 <= a < |c.stages[i].evidence|
      ensures WasThere(c.stages[i], c.stages[i].evidence[a])
    {
      Itself(c.stages[i], a);
    }
  }
}
