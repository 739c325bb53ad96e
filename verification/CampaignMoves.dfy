/** How a stage may change from one moment of a campaign to the next, field by field. */
module CampaignMoves {
  import opened Words
  import opened CampaignModel
  import opened CampaignSteps

  /** Two stages pass on a program's word alone; at the others a human decides. */
  predicate Automatic(stage: Stage) { stage == 0 || stage == 10 }

  /** The same attempt, closed now. */
  predicate Closes(r: StageRecord, n: StageRecord, now: U64) {
    n.stage == r.stage && n.attempt == r.attempt && n.started == r.started && n.completed == now
  }

  predicate Reported(r: StageRecord, n: StageRecord, now: U64, passed: bool) {
    && Closes(r, n, now) && r.state.Running? && r.evidence == []
    && |n.evidence| == 1 && n.evidence[0].automatedPassed == passed && n.evidence[0].verdict.Undecided?
  }

  predicate Decided(r: StageRecord, n: StageRecord, now: U64, v: Verdict) {
    && Closes(r, n, now) && r.state.AwaitingManualReview? && 1 <= |n.diagnostic| <= 8192
    && |n.evidence| == |r.evidence| && forall a :: 0 <= a < |r.evidence| ==> n.evidence[a] == r.evidence[a].(verdict := v)
  }

  /** A stage may change so. */
  predicate Move(r: StageRecord, n: StageRecord, now: U64) {
    match n.state
    case Pending => false
    case Running =>
      && (r.state.Pending? || r.state.Failed? || r.state.RecoveryRequired?)
      && n == StageRecord(r.stage, Running, n.attempt, now, 0, [], "") && n.attempt == r.attempt + 1
    case RecoveryRequired =>
      && Closes(r, n, now) && r.state.Running? && n.evidence == r.evidence
      && n.diagnostic == "campaign was interrupted while the stage was running"
    case AwaitingManualReview => Reported(r, n, now, true) && !Automatic(r.stage) && n.diagnostic == "manual review is required"
    case Passed =>
      || (Reported(r, n, now, true) && Automatic(r.stage) && n.diagnostic == "")
      || Decided(r, n, now, Pass)
    case Failed =>
      || (Reported(r, n, now, false) && n.diagnostic == "evidence reported failure")
      || Decided(r, n, now, Fail)
  }

  /** One stage moved, or every running stage was interrupted; nothing else changed but the time of the last update. */
  ghost predicate Moved(c: Campaign, d: Campaign, now: U64) {
    && d == Campaign(c.schemaVersion, c.identity, c.created, now, d.stages) && |d.stages| == |c.stages|
    && (|| (exists k: nat :: k < |c.stages| && OnlyMoved(c.stages, d.stages, k, now))
        || (&& (exists k :: 0 <= k < |c.stages| && c.stages[k].state.Running?)
            && forall i :: 0 <= i < |c.stages| ==>
                 if c.stages[i].state.Running? then d.stages[i].state.RecoveryRequired? && Move(c.stages[i], d.stages[i], now)
                 else d.stages[i] == c.stages[i]))
  }

  predicate OnlyMoved(before: seq<StageRecord>, after: seq<StageRecord>, k: nat, now: U64)
    requires k < |before| == |after|
  {
    Move(before[k], after[k], now) && forall i :: 0 <= i < |before| && i != k ==> after[i] == before[i]
  }

  lemma ReplacedMoved(c: Campaign, k: nat, n: StageRecord, now: U64)
    requires k < |c.stages| && Move(c.stages[k], n, now)
    ensures Moved(c, Replaced(c, k, n, now), now)
  {
    hide Move;
    assert OnlyMoved(c.stages, Replaced(c, k, n, now).stages, k, now);
  }

  lemma StartedMoves(c: Campaign, k: nat, now: U64)
    requires k < |c.stages| && c.stages[k].attempt + 1 < 0x1_0000_0000
    requires c.stages[k].state.Pending? || c.stages[k].state.Failed? || c.stages[k].state.RecoveryRequired?
    ensures Moved(c, Replaced(c, k, Started(c.stages[k], now), now), now)
  {
    hide Moved;
    ReplacedMoved(c, k, Started(c.stages[k], now), now);
  }

  lemma AttachedMoves(c: Campaign, k: nat, e: Evidence, now: U64)
    requires k < |c.stages| && c.stages[k].state.Running? && c.stages[k].evidence == []
    requires e.stage == c.stages[k].stage && e.verdict.Undecided?
    ensures Moved(c, Replaced(c, k, Attached(c.stages[k], e, now), now), now)
  {
    hide Moved;
    ReplacedMoved(c, k, Attached(c.stages[k], e, now), now);
  }

  lemma JudgedMoves(c: Campaign, k: nat, v: Verdict, note: string, now: U64)
    requires k < |c.stages| && c.stages[k].state.AwaitingManualReview? && !v.Undecided? && 1 <= |note| <= 8192
    ensures Moved(c, Replaced(c, k, Judged(c.stages[k], v, note, now), now), now)
  {
    hide Moved;
    ReplacedMoved(c, k, Judged(c.stages[k], v, note, now), now);
  }

  lemma RecoveredMoves(c: Campaign, now: U64)
    requires exists k :: 0 <= k < |c.stages| && c.stages[k].state.Running?
    ensures Moved(c, Recovered(c, now), now)
  {
  }
}
