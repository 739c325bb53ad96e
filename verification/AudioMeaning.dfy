/** What the checks of a route transaction mean for the endpoints, processes and sessions themselves. */
module AudioMeaning {
  import opened Words
  import opened AudioEvidence
  import opened AudioRouting

  /** The identity is the root's or that of a process of the tree that has not exited, and is a real one. */
  predicate Alive(tree: ProcessTree, id: ProcessId) {
    id.pid > 0 && id.creation > 0 && (id == tree.root || ProcessRecord(id, false) in tree.processes)
  }

  predicate AlivePid(tree: ProcessTree, pid: U32) {
    pid > 0 && (pid == tree.root.pid || exists creation :: ProcessRecord(ProcessId(pid, creation), false) in tree.processes)
  }

  /**
   * The observation is complete; some session of the tree's root or live processes is seen, all of them are on the
   * endpoint, each process has one, and no session only looks like one of theirs.
   */
  ghost predicate Settled(request: Request, seen: Inventory, endpoint: string) {
    && seen.succeeded && seen.complete
    && (exists s :: s in seen.sessions && s.identity.Some? && Alive(request.tree, s.identity.value))
    && (forall s :: s in seen.sessions && s.identity.Some? && Alive(request.tree, s.identity.value) ==>
          request.canonical(s.endpoint) == request.canonical(endpoint))
    && (forall s :: s in seen.sessions && AlivePid(request.tree, s.pid) ==>
          s.identity.Some? && Alive(request.tree, s.identity.value))
  }

  lemma OwnsExactly(tree: ProcessTree, s: Session)
    ensures Owns(tree, s) <==> s.identity.Some? && Alive(tree, s.identity.value)
    ensures OnlyByPid(tree, s) <==> AlivePid(tree, s.pid) && !(s.identity.Some? && Alive(tree, s.identity.value))
  {
    LiveIdentity(tree, s.identity);
    if exists r :: r in tree.processes && !r.exited && r.identity.pid == s.pid {
      var r :| r in tree.processes && !r.exited && r.identity.pid == s.pid;
      assert r == ProcessRecord(ProcessId(s.pid, r.identity.creation), false);
    }
  }

  lemma LiveIdentity(tree: ProcessTree, identity: Option<ProcessId>)
    ensures identity.Some? ==> (TreeHasIdentity(tree, identity.value) <==> Alive(tree, identity.value))
  {
    if identity.Some? && exists r :: r in tree.processes && !r.exited && r.identity == identity.value {
      var r :| r in tree.processes && !r.exited && r.identity == identity.value;
      assert r == ProcessRecord(identity.value, false);
    }
  }

  /** What verifyApplied accepts, but for two sessions of one process. */
  lemma OnTargetExactly(request: Request, seen: Inventory)
    ensures OnTarget(request, seen) <==>
      Settled(request, seen, request.target) && !Repeated(OwnedOf(request.tree, seen.sessions))
  {
    hide Owns, OnlyByPid, SameEndpoint, OwnedOf, UnverifiedOf, Repeated, Alive, AlivePid;
    if seen.succeeded && seen.complete {
      var owned, unverified := OwnedOf(request.tree, seen.sessions), UnverifiedOf(request.tree, seen.sessions);
      forall s ensures Owns(request.tree, s) <==> s.identity.Some? && Alive(request.tree, s.identity.value) {
        OwnsExactly(request.tree, s);
      }
      forall s ensures OnlyByPid(request.tree, s) <==>
                       AlivePid(request.tree, s.pid) && !(s.identity.Some? && Alive(request.tree, s.identity.value))
      {
        OwnsExactly(request.tree, s);
      }
      assert owned == [] || owned[0] in owned;
      assert unverified == [] || unverified[0] in unverified;
      forall s: Session ensures SameEndpoint(request, s.endpoint, request.target) <==>
                       request.canonical(s.endpoint) == request.canonical(request.target)
      {
        SameCanonically(request, s.endpoint, request.target);
      }
      if forall s :: s in owned ==> SameEndpoint(request, s.endpoint, request.target) {
        forall i | 0 <= i < |owned| ensures SameEndpoint(request, owned[i].endpoint, request.target) {
          assert owned[i] in owned;
        }
      }
      assert forall s :: s in owned <==> s in seen.sessions && Owns(request.tree, s);
    }
  }

  lemma SameCanonically(request: Request, a: string, b: string)
    ensures SameEndpoint(request, a, b) <==> request.canonical(a) == request.canonical(b)
  {
  }

  /** Each captured session is seen again, for the same live process, on the endpoint it was captured on. */
  ghost predicate AllBack(request: Request, captured: seq<Session>, seen: seq<Session>) {
    forall x :: x in captured ==> x.identity.Some? && exists s :: s in seen && SeenAs(request, x, s)
  }

  predicate SeenAs(request: Request, x: Session, s: Session) {
    && s.identity == x.identity && x.identity.Some? && Alive(request.tree, x.identity.value)
    && request.canonical(s.endpoint) == request.canonical(x.endpoint)
  }

  /** What verifyRollback accepts. */
  lemma UndoneExactly(request: Request, before: Evidence, a: UndoAnswers)
    requires !before.duplicates
    ensures var seen := a.afterRollback;
      Undone(request, before, a) <==>
        && a.rolledBack && seen.succeeded && seen.complete
        && (forall s :: s in seen.sessions && AlivePid(request.tree, s.pid) ==>
              s.identity.Some? && Alive(request.tree, s.identity.value))
        && !Repeated(OwnedOf(request.tree, seen.sessions))
        && AllBack(request, before.owned, seen.sessions)
  {
    hide Owns, OnlyByPid, SameEndpoint, OwnedOf, UnverifiedOf, Repeated, Alive, AlivePid;
    var seen := a.afterRollback;
    if seen.succeeded && seen.complete {
      var owned, unverified := OwnedOf(request.tree, seen.sessions), UnverifiedOf(request.tree, seen.sessions);
      forall s ensures Owns(request.tree, s) <==> s.identity.Some? && Alive(request.tree, s.identity.value) {
        OwnsExactly(request.tree, s);
      }
      forall s ensures OnlyByPid(request.tree, s) <==>
                       AlivePid(request.tree, s.pid) && !(s.identity.Some? && Alive(request.tree, s.identity.value))
      {
        OwnsExactly(request.tree, s);
      }
      assert unverified == [] || unverified[0] in unverified;
      BackExactly(request, before.owned, seen.sessions);
    }
  }

  lemma BackExactly(request: Request, captured: seq<Session>, seen: seq<Session>)
    ensures Restored(request, captured, OwnedOf(request.tree, seen)) <==> AllBack(request, captured, seen)
  {
    hide OwnedOf, Owns, Alive, SameEndpoint;
    var owned := OwnedOf(request.tree, seen);
    assert forall s :: s in owned <==> s in seen && Owns(request.tree, s);
    forall x ensures Back(request, x, owned) <==> x.identity.Some? && exists s :: s in seen && SeenAs(request, x, s) {
      OneBackExactly(request, x, seen);
    }
    if AllBack(request, captured, seen) {
      forall i | 0 <= i < |captured| ensures Back(request, captured[i], owned) { assert captured[i] in captured; }
    }
    if Restored(request, captured, owned) {
      forall x | x in captured ensures Back(request, x, owned) {
        var i :| 0 <= i < |captured| && captured[i] == x;
      }
    }
  }

  lemma OneBackExactly(request: Request, x: Session, seen: seq<Session>)
    ensures Back(request, x, OwnedOf(request.tree, seen)) <==> x.identity.Some? && exists s :: s in seen && SeenAs(request, x, s)
  {
    hide OwnedOf, Owns, Alive, SameEndpoint;
    var owned := OwnedOf(request.tree, seen);
    if Back(request, x, owned) {
      var j :| 0 <= j < |owned| && BackOn(request, x, owned[j]);
      assert owned[j] in owned;
      OwnsExactly(request.tree, owned[j]);
      SameCanonically(request, owned[j].endpoint, x.endpoint);
      assert SeenAs(request, x, owned[j]);
    }
    if exists s :: s in seen && SeenAs(request, x, s) {
      var s :| s in seen && SeenAs(request, x, s);
      OwnsExactly(request.tree, s);
      SameCanonically(request, s.endpoint, x.endpoint);
      assert s in owned;
      var j :| 0 <= j < |owned| && owned[j] == s;
      assert BackOn(request, x, owned[j]);
    }
  }

  /** The first endpoint with the target's id, under the source's comparison, is active. */
  ghost predicate TargetActive(request: Request, endpoints: seq<Endpoint>) {
    exists i :: FirstMatch(request, endpoints, i) && endpoints[i].active
  }

  ghost predicate FirstMatch(request: Request, endpoints: seq<Endpoint>, i: int) {
    && 0 <= i < |endpoints| && request.canonical(endpoints[i].id) == request.canonical(request.target)
    && forall j :: 0 <= j < i ==> request.canonical(endpoints[j].id) != request.canonical(request.target)
  }

  /** Which requests are let through. */
  lemma RequestExactly(request: Request, endpoints: seq<Endpoint>)
    ensures RequestError(request, endpoints).NoError? <==>
      && 1 <= request.seat <= 2 && request.tree.seat == request.seat
      && request.tree.root.pid > 0 && request.tree.root.creation > 0 && |request.tree.rootPath| > 0
      && request.tree.trackingComplete && |request.target| > 0 && TargetActive(request, endpoints)
  {
    hide SameEndpoint, FirstMatch;
    FirstExactly(request, endpoints);
  }

  lemma {:induction false} FirstExactly(request: Request, endpoints: seq<Endpoint>)
    ensures var first := FirstEndpoint(request, endpoints);
      && (first.None? ==> forall i :: 0 <= i < |endpoints| ==> request.canonical(endpoints[i].id) != request.canonical(request.target))
      && (first.Some? ==> exists i :: FirstMatch(request, endpoints, i) && endpoints[i] == first.value)
      && (forall i :: FirstMatch(request, endpoints, i) ==> first == Some(endpoints[i]))
  {
    if endpoints != [] {
      SameCanonically(request, endpoints[0].id, request.target);
      var rest := endpoints[1..];
      if SameEndpoint(request, endpoints[0].id, request.target) {
        assert FirstMatch(request, endpoints, 0);
      } else {
        FirstExactly(request, rest);
        forall i ensures FirstMatch(request, endpoints, i) <==> FirstMatch(request, rest, i - 1) {
          if FirstMatch(request, rest, i - 1) {
            forall j | 0 <= j < i ensures request.canonical(endpoints[j].id) != request.canonical(request.target) {
              if j > 0 { assert endpoints[j] == rest[j - 1]; }
            }
          }
          if FirstMatch(request, endpoints, i) {
            forall j | 0 <= j < i - 1 ensures request.canonical(rest[j].id) != request.canonical(request.target) {
              assert rest[j] == endpoints[j + 1];
            }
          }
        }
        forall i | 0 <= i < |endpoints| && FirstEndpoint(request, rest).None?
          ensures request.canonical(endpoints[i].id) != request.canonical(request.target)
        {
          if i > 0 { assert endpoints[i] == rest[i - 1]; }
        }
        if FirstEndpoint(request, rest).Some? {
          var i :| FirstMatch(request, rest, i) && rest[i] == FirstEndpoint(request, rest).value;
          assert FirstMatch(request, endpoints, i + 1);
        }
      }
    }
  }
}
