/** Which audio sessions belong to an owned process tree, and whether they are back where they were. */
module AudioEvidence {
  import opened Words

  datatype ProcessId = ProcessId(pid: U32, creation: U64)

  datatype ProcessRecord = ProcessRecord(identity: ProcessId, exited: bool)

  datatype ProcessTree = ProcessTree(seat: U32, root: ProcessId, rootPath: string, processes: seq<ProcessRecord>,
                                     trackingComplete: bool)

  /** A session the observer reported. Its identity is absent when the observer could not verify it. */
  datatype Session = Session(endpoint: string, pid: U32, identity: Option<ProcessId>)

  /** An observation of all sessions: it may fail, and it may be incomplete. */
  datatype Inventory = Inventory(succeeded: bool, complete: bool, sessions: seq<Session>)

  datatype Endpoint = Endpoint(id: string, active: bool)

  /** `canonical` stands for the upper-casing under which the source compares endpoint ids. */
  datatype Request = Request(seat: U32, tree: ProcessTree, target: string, canonical: string -> string)

  datatype Evidence = Evidence(owned: seq<Session>, unverified: seq<Session>, duplicates: bool, allOnTarget: bool)

  const NO_EVIDENCE := Evidence([], [], false, false)

  predicate SameEndpoint(request: Request, a: string, b: string) {
    request.canonical(a) == request.canonical(b)
  }

  predicate TreeHasPid(tree: ProcessTree, pid: U32) {
    pid != 0 && (tree.root.pid == pid || exists r :: r in tree.processes && !r.exited && r.identity.pid == pid)
  }

  predicate TreeHasIdentity(tree: ProcessTree, id: ProcessId) {
    id.pid != 0 && id.creation != 0 && (tree.root == id || exists r :: r in tree.processes && !r.exited && r.identity == id)
  }

  predicate Owns(tree: ProcessTree, s: Session) {
    s.identity.Some? && TreeHasIdentity(tree, s.identity.value)
  }

  predicate OnlyByPid(tree: ProcessTree, s: Session) {
    !Owns(tree, s) && TreeHasPid(tree, s.pid)
  }

  function OwnedOf(tree: ProcessTree, sessions: seq<Session>): (owned: seq<Session>)
    ensures forall s :: s in owned <==> s in sessions && Owns(tree, s)
    decreases |sessions|
  {
    if sessions == [] then []
    else
      var last := sessions[|sessions| - 1];
      OwnedOf(tree, sessions[..|sessions| - 1]) + if Owns(tree, last) then [last] else []
  }

  function UnverifiedOf(tree: ProcessTree, sessions: seq<Session>): (unverified: seq<Session>)
    ensures forall s :: s in unverified <==> s in sessions && OnlyByPid(tree, s)
    decreases |sessions|
  {
    if sessions == [] then []
    else
      var last := sessions[|sessions| - 1];
      UnverifiedOf(tree, sessions[..|sessions| - 1]) + if OnlyByPid(tree, last) then [last] else []
  }

  predicate Repeated(owned: seq<Session>) {
    exists i, j :: 0 <= i < j < |owned| && owned[i].identity == owned[j].identity
  }

  predicate AllOn(request: Request, sessions: seq<Session>, endpoint: string) {
    forall i :: 0 <= i < |sessions| ==> SameEndpoint(request, sessions[i].endpoint, endpoint)
  }

  /** What the sessions prove: who is owned, who only shares a pid, whether a process has two, whether all are on target. */
  function Collected(request: Request, sessions: seq<Session>): Evidence {
    var owned := OwnedOf(request.tree, sessions);
    Evidence(owned, UnverifiedOf(request.tree, sessions), Repeated(owned), owned != [] && AllOn(request, owned, request.target))
  }

  method CollectEvidence(request: Request, sessions: seq<Session>) returns (evidence: Evidence)
    ensures evidence == Collected(request, sessions)
  {
    hide Owns, OnlyByPid, SameEndpoint;
    var owned: seq<Session> := [];
    var unverified: seq<Session> := [];
    var duplicates := false;
    var seen: set<Option<ProcessId>> := {};
    for n := 0 to |sessions|
      invariant owned == OwnedOf(request.tree, sessions[..n]) && unverified == UnverifiedOf(request.tree, sessions[..n])
      invariant seen == IdsOf(owned)
      invariant duplicates <==> Repeated(owned)
    {
      var s := sessions[n];
      assert sessions[..n + 1][..n] == sessions[..n];
      if Owns(request.tree, s) {
        NextOwned(owned, s);
        if s.identity in seen { duplicates := true; }
        seen := seen + {s.identity};
        owned := owned + [s];
      } else if TreeHasPid(request.tree, s.pid) {
        assert OnlyByPid(request.tree, s) by { PidOnly(request.tree, s); }
        unverified := unverified + [s];
      } else {
        PidOnly(request.tree, s);
      }
      OwnedNotByPid(request.tree, s);
    }
    assert sessions[..|sessions|] == sessions;
    var allOnTarget := owned != [];
    for n := 0 to |owned|
      invariant allOnTarget <==> owned != [] && forall i :: 0 <= i < n ==> SameEndpoint(request, owned[i].endpoint, request.target)
    {
      if !SameEndpoint(request, owned[n].endpoint, request.target) { allOnTarget := false; }
    }
    evidence := Evidence(owned, unverified, duplicates, allOnTarget);
  }

  lemma PidOnly(tree: ProcessTree, s: Session)
    requires !Owns(tree, s)
    ensures OnlyByPid(tree, s) <==> TreeHasPid(tree, s.pid)
  {
  }

  lemma OwnedNotByPid(tree: ProcessTree, s: Session)
    ensures Owns(tree, s) ==> !OnlyByPid(tree, s)
  {
  }

  function IdsOf(owned: seq<Session>): set<Option<ProcessId>>
    decreases |owned|
  {
    if owned == [] then {} else IdsOf(owned[..|owned| - 1]) + {owned[|owned| - 1].identity}
  }

  lemma {:induction false} IdOwner(owned: seq<Session>, id: Option<ProcessId>)
    ensures id in IdsOf(owned) <==> exists i :: 0 <= i < |owned| && owned[i].identity == id
    decreases |owned|
  {
    if owned != [] {
      var init := owned[..|owned| - 1];
      IdOwner(init, id);
      if id in IdsOf(init) {
        var i :| 0 <= i < |init| && init[i].identity == id;
        assert owned[i].identity == id;
      } else if exists i :: 0 <= i < |owned| && owned[i].identity == id {
        var i :| 0 <= i < |owned| && owned[i].identity == id;
        assert i < |init| ==> init[i].identity == id;
      }
    }
  }

  lemma NextOwned(owned: seq<Session>, s: Session)
    ensures Repeated(owned + [s]) <==> Repeated(owned) || s.identity in IdsOf(owned)
    ensures IdsOf(owned + [s]) == IdsOf(owned) + {s.identity}
  {
    var more := owned + [s];
    assert more[..|owned|] == owned;
    IdOwner(owned, s.identity);
    if Repeated(owned) {
      var i, j :| 0 <= i < j < |owned| && owned[i].identity == owned[j].identity;
      assert more[i].identity == more[j].identity;
    }
    if exists i :: 0 <= i < |owned| && owned[i].identity == s.identity {
      var i :| 0 <= i < |owned| && owned[i].identity == s.identity;
      assert more[i].identity == more[|owned|].identity;
    }
  }

  // ---------------------------------------------------------------- back where they were

  /** Every captured session is seen again, for the same process, on the endpoint it was captured on. */
  predicate Restored(request: Request, before: seq<Session>, after: seq<Session>) {
    forall i :: 0 <= i < |before| ==> Back(request, before[i], after)
  }

  predicate Back(request: Request, original: Session, after: seq<Session>) {
    exists j :: 0 <= j < |after| && BackOn(request, original, after[j])
  }

  predicate BackOn(request: Request, original: Session, current: Session) {
    && original.identity.Some? && current.identity == original.identity
    && SameEndpoint(request, current.endpoint, original.endpoint)
  }

  /** verifyCapturedEndpoints: the first session of the same process decides, which is the only one. */
  method VerifyCaptured(request: Request, before: Evidence, after: Evidence) returns (ok: bool)
    requires before.duplicates == Repeated(before.owned) && after.duplicates == Repeated(after.owned)
    ensures ok <==> !before.duplicates && !after.duplicates && Restored(request, before.owned, after.owned)
  {
    hide SameEndpoint;
    if before.duplicates || after.duplicates { return false; }
    for n := 0 to |before.owned|
      invariant forall i :: 0 <= i < n ==> Back(request, before.owned[i], after.owned)
    {
      var original := before.owned[n];
      var found := 0;
      while found < |after.owned| && !(original.identity.Some? && after.owned[found].identity == original.identity)
        invariant found <= |after.owned|
        invariant forall j :: 0 <= j < found ==> !(original.identity.Some? && after.owned[j].identity == original.identity)
      {
        found := found + 1;
      }
      if found == |after.owned| {
        assert !Back(request, original, after.owned);
        return false;
      }
      if !SameEndpoint(request, after.owned[found].endpoint, original.endpoint) {
        OneCandidate(request, after.owned, original, found);
        assert !Back(request, original, after.owned);
        return false;
      }
      assert BackOn(request, original, after.owned[found]);
    }
    ok := true;
  }

  lemma OneCandidate(request: Request, after: seq<Session>, original: Session, found: nat)
    requires !Repeated(after) && found < |after| && after[found].identity == original.identity
    requires !SameEndpoint(request, after[found].endpoint, original.endpoint)
    ensures forall j :: 0 <= j < |after| ==> !BackOn(request, original, after[j])
  {
    hide SameEndpoint;
    forall j | 0 <= j < |after| ensures !BackOn(request, original, after[j]) {
      if j < found {
        assert !(after[j].identity == after[found].identity);
      } else if found < j {
        assert !(after[found].identity == after[j].identity);
      }
    }
  }
}
