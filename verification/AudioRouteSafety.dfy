/** What the route transaction promises about sessions it may have moved, call by call and over runs. */
module AudioRouteSafety {
  import opened Words
  import opened AudioEvidence
  import opened AudioRouting
  import opened AudioMeaning

  // ---------------------------------------------------------------- one attempt

  /** The attempt went as far as asking the backend to apply. */
  predicate ApplyRan(request: Request, endpoints: seq<Endpoint>, a: Answers) {
    var e := Observed(request, a.first);
    && RequestError(request, endpoints).NoError? && Clear(request, a.first) && e.owned != [] && !e.allOnTarget
    && a.capability.Mutable? && a.captured.Some?
  }

  /** The sessions captured before the apply were all seen back on their endpoints afterwards. */
  predicate PutBack(request: Request, a: Answers) {
    Undone(request, Observed(request, a.first), a.undo)
  }

  /** An invariant of every transaction: a possible mutation is always accompanied by what was captured before it. */
  predicate Retains(t: Transaction) {
    && (t.status.mutated ==> t.before.Some? && t.beforeEvidence.Some?)
    && (t.beforeEvidence.Some? ==>
          !t.beforeEvidence.value.duplicates && !Repeated(t.beforeEvidence.value.owned) && t.beforeEvidence.value.owned != [])
  }

  lemma ClearHasNoDuplicates(request: Request, inventory: Inventory)
    requires Clear(request, inventory)
    ensures !Observed(request, inventory).duplicates && !Repeated(Observed(request, inventory).owned)
    ensures Observed(request, inventory).unverified == []
  {
  }

  lemma AttemptRetains(request: Request, t: Transaction, endpoints: seq<Endpoint>, a: Answers)
    requires Retains(t)
    ensures Retains(Attempted(request, t, endpoints, a))
  {
    hide RequestError, Clear, Observed, Undone, Repeated, OnTarget;
    if Clear(request, a.first) { ClearHasNoDuplicates(request, a.first); }
  }

  lemma RollbackRetains(request: Request, t: Transaction, endpoints: seq<Endpoint>, a: UndoAnswers)
    requires Retains(t)
    ensures Retains(RolledBack(request, t, endpoints, a))
  {
    hide RequestError, Observed, Undone, Repeated;
  }

  /** Applied means that the backend agreed and that the tree's sessions were then seen on the target. */
  lemma AppliedMeansOnTarget(request: Request, t: Transaction, endpoints: seq<Endpoint>, a: Answers)
    requires Attempted(request, t, endpoints, a).status.phase.Applied?
    ensures ApplyRan(request, endpoints, a) && a.applied && Settled(request, a.afterApply, request.target)
  {
    hide RequestError, Undone, Clear, Observed;
    OnTargetExactly(request, a.afterApply);
  }

  /** From a clean state, a result that claims no mutation means no apply ran or everything captured is back. */
  lemma CleanAttempt(request: Request, t: Transaction, endpoints: seq<Endpoint>, a: Answers)
    requires !t.status.mutated
    ensures Attempted(request, t, endpoints, a).status.mutated <==>
              ApplyRan(request, endpoints, a) && (Attempted(request, t, endpoints, a).status.phase.Applied? || !PutBack(request, a))
  {
    hide RequestError, Clear, Observed, Undone, OnTarget;
  }

  /** Recovery is only asked for with the captured state in hand, and never loses it. */
  lemma RecoveryKeepsCapture(request: Request, t: Transaction, endpoints: seq<Endpoint>, a: Answers)
    requires Retains(t) && Attempted(request, t, endpoints, a).status.phase.RecoveryRequired?
    ensures var u := Attempted(request, t, endpoints, a);
      u.status.mutated && u.before == a.captured && u.before.Some? && u.beforeEvidence == Some(Observed(request, a.first))
  {
    hide RequestError, Clear, Observed, Undone, OnTarget;
  }

  /** A retry clears the mutation exactly when the rollback is seen to be complete, and otherwise keeps everything. */
  lemma RetryExactly(request: Request, t: Transaction, endpoints: seq<Endpoint>, a: UndoAnswers)
    requires Retains(t) && t.status.mutated
    ensures var u := RolledBack(request, t, endpoints, a);
      && (!u.status.mutated <==> RequestError(request, endpoints).NoError? && Undone(request, t.beforeEvidence.value, a))
      && (u.status.mutated ==> u.status.phase.RecoveryRequired? && u.before == t.before && u.beforeEvidence == t.beforeEvidence)
      && (!u.status.mutated ==> u.status.phase.Ready? && u.status.rollbackVerified)
  {
    hide RequestError, Clear, Observed, Undone;
    UndoneMeansRolledBack(request, t.beforeEvidence.value, a);
  }

  lemma UndoneMeansRolledBack(request: Request, before: Evidence, a: UndoAnswers)
    ensures Undone(request, before, a) ==> a.rolledBack
  {
  }

  // ---------------------------------------------------------------- an attempt on a mutated transaction

  /** The attempt finds the sessions on the target, or the backend says that they are as good as there. */
  predicate NothingToDo(request: Request, endpoints: seq<Endpoint>, a: Answers) {
    var e := Observed(request, a.first);
    && RequestError(request, endpoints).NoError? && Clear(request, a.first) && e.owned != []
    && (e.allOnTarget || a.capability.AlreadySatisfied?)
  }

  /** The attempt asked the backend to roll back what it had just captured. */
  predicate RollbackAsked(request: Request, endpoints: seq<Endpoint>, a: Answers) {
    ApplyRan(request, endpoints, a) && (!a.applied || !OnTarget(request, a.afterApply))
  }

  /** What an attempt leaves of the flag and of the capture, in terms of the answers it got. */
  lemma AttemptLeaves(request: Request, t: Transaction, endpoints: seq<Endpoint>, a: Answers)
    ensures var u := Attempted(request, t, endpoints, a);
      && (ApplyRan(request, endpoints, a) ==>
            && u.beforeEvidence == Some(Observed(request, a.first))
            && (u.status.mutated <==> !(RollbackAsked(request, endpoints, a) && PutBack(request, a))))
      && (!ApplyRan(request, endpoints, a) ==>
            && u.before == t.before && u.beforeEvidence == t.beforeEvidence
            && (u.status.mutated <==> t.status.mutated && !NothingToDo(request, endpoints, a)))
  {
    hide RequestError, Clear, Observed, Undone, OnTarget;
  }

  /** What the earlier attempt captured was seen back during this one. */
  predicate SeenBack(request: Request, t: Transaction, endpoints: seq<Endpoint>, a: Answers)
    requires t.beforeEvidence.Some?
  {
    RollbackAsked(request, endpoints, a) && Undone(request, t.beforeEvidence.value, a.undo)
  }

  /**
   * A possible mutation is lost: what was captured was not seen back, and afterwards the flag is cleared or stands for
   * another capture.
   */
  predicate Forgets(request: Request, t: Transaction, endpoints: seq<Endpoint>, a: Answers)
    requires Retains(t)
  {
    var u := Attempted(request, t, endpoints, a);
    && t.status.mutated && !SeenBack(request, t, endpoints, a)
    && (u.status.mutated ==> u.beforeEvidence != t.beforeEvidence)
  }

  /**
   * Exactly these attempts forget: those that find nothing left to do, and those that reach the backend without seeing
   * the earlier capture back and either see the new one back or captured something else.
   */
  lemma ForgetsExactly(request: Request, t: Transaction, endpoints: seq<Endpoint>, a: Answers)
    requires Retains(t)
    ensures Forgets(request, t, endpoints, a) <==>
              && t.status.mutated
              && (|| NothingToDo(request, endpoints, a)
                  || (&& ApplyRan(request, endpoints, a)
                      && !(RollbackAsked(request, endpoints, a) && Undone(request, t.beforeEvidence.value, a.undo))
                      && (|| (RollbackAsked(request, endpoints, a) && PutBack(request, a))
                          || Observed(request, a.first) != t.beforeEvidence.value)))
  {
    hide RequestError, Clear, Observed, Undone, OnTarget, Repeated;
    AttemptLeaves(request, t, endpoints, a);
    if t.status.mutated { DoneOrApplied(request, endpoints, a); }
  }

  lemma DoneOrApplied(request: Request, endpoints: seq<Endpoint>, a: Answers)
    ensures !(NothingToDo(request, endpoints, a) && ApplyRan(request, endpoints, a))
  {
  }

  /**
   * The second way, from a new transaction: the first attempt captures the root's session on one endpoint and fails
   * to put it back; the second finds it on another, captures that, and sees only that undone. The result says that
   * nothing is mutated and that the rollback is verified, and nobody knows the first endpoint any more.
   */
  lemma SecondCaptureForgets(request: Request, endpoints: seq<Endpoint>, x: string, y: string, state: Bytes)
    returns (first: Answers, second: Answers)
    requires RequestError(request, endpoints).NoError?
    requires !SameEndpoint(request, x, request.target) && !SameEndpoint(request, y, request.target)
    requires !SameEndpoint(request, x, y)
    ensures var t := Attempted(request, NEW, endpoints, first);
      && t.status.phase.RecoveryRequired? && t.status.mutated && t.beforeEvidence.Some?
      && t.beforeEvidence.value.owned == [Session(x, request.tree.root.pid, Some(request.tree.root))]
      && Retains(t) && Forgets(request, t, endpoints, second)
      && var u := Attempted(request, t, endpoints, second);
         && u.status.phase.Failed? && !u.status.mutated && u.status.rollbackVerified && u.beforeEvidence.Some?
         && u.beforeEvidence.value.owned == [Session(y, request.tree.root.pid, Some(request.tree.root))]
  {
    hide RequestError, Clear, Observed, SameEndpoint, Retains, Repeated;
    var onX, onY := Alone(request, x), Alone(request, y);
    first := Answers(onX, Mutable, Some(state), false, onX, UndoAnswers(false, onX));
    second := Answers(onY, Mutable, Some(state), false, onY, UndoAnswers(true, onY));
    OneSession(request, endpoints, x);
    OneSession(request, endpoints, y);
    NewRetains();
    AttemptRetains(request, NEW, endpoints, first);
    SameAsItself(request, y);
    SameEndpointSymmetric(request, x, y);
    assert Back(request, onY.sessions[0], onY.sessions);
    assert !Back(request, onX.sessions[0], onY.sessions);
  }

  /** An observation of the root process with one session. */
  function Alone(request: Request, endpoint: string): Inventory {
    Inventory(true, true, [Session(endpoint, request.tree.root.pid, Some(request.tree.root))])
  }

  lemma NewRetains()
    ensures Retains(NEW)
  {
  }

  lemma SameEndpointSymmetric(request: Request, a: string, b: string)
    ensures SameEndpoint(request, a, b) <==> SameEndpoint(request, b, a)
  {
  }

  /** A caller is safe from forgetting whatever the outside answers if and only if the transaction is not mutated. */
  lemma SafeExactlyWhenClean(request: Request, t: Transaction, endpoints: seq<Endpoint>)
    requires Retains(t) && RequestError(request, endpoints).NoError?
    ensures (forall a :: !Forgets(request, t, endpoints, a)) <==> !t.status.mutated
  {
    hide RequestError, Retains;
    if t.status.mutated {
      var seen := Alone(request, request.target);
      var a := Answers(seen, CannotRoute, None, false, seen, UndoAnswers(false, seen));
      OneSession(request, endpoints, request.target);
      SameAsItself(request, request.target);
      assert NothingToDo(request, endpoints, a);
      ForgetsExactly(request, t, endpoints, a);
      assert Forgets(request, t, endpoints, a);
    }
  }

  lemma OneSession(request: Request, endpoints: seq<Endpoint>, endpoint: string)
    requires RequestError(request, endpoints).NoError?
    ensures var seen := Alone(request, endpoint);
      && Clear(request, seen) && Observed(request, seen).owned == seen.sessions && !Repeated(seen.sessions)
      && (Observed(request, seen).allOnTarget <==> SameEndpoint(request, endpoint, request.target))
      && !Observed(request, seen).duplicates
  {
    hide Owns, OnlyByPid, SameEndpoint, FirstEndpoint;
    var s := Alone(request, endpoint).sessions[0];
    RootOwns(request, endpoints, s);
    OnlyOwned(request.tree, s);
  }

  lemma RootOwns(request: Request, endpoints: seq<Endpoint>, s: Session)
    requires RequestError(request, endpoints).NoError? && s.identity == Some(request.tree.root)
    ensures Owns(request.tree, s)
  {
  }

  lemma OnlyOwned(tree: ProcessTree, s: Session)
    requires Owns(tree, s)
    ensures OwnedOf(tree, [s]) == [s] && UnverifiedOf(tree, [s]) == []
  {
    hide Owns, TreeHasPid;
    assert [s][..0] == [];
  }

  lemma SameAsItself(request: Request, endpoint: string)
    ensures SameEndpoint(request, endpoint, endpoint)
  {
  }

  // ---------------------------------------------------------------- what a call reports

  /** The phase that an attempt reports, by the answers it got. */
  lemma AttemptReports(request: Request, t: Transaction, endpoints: seq<Endpoint>, a: Answers)
    ensures var u := Attempted(request, t, endpoints, a).status;
      var seen := RequestError(request, endpoints).NoError? && Clear(request, a.first);
      var owned := Observed(request, a.first).owned;
      var away := owned != [] && !Observed(request, a.first).allOnTarget;
      && (u.phase.Applied? <==>
            ApplyRan(request, endpoints, a) && a.applied && OnTarget(request, a.afterApply))
      && (u.phase.Satisfied? <==> NothingToDo(request, endpoints, a))
      && (u.phase.WaitingForSession? <==> seen && owned == [])
      && (u.phase.Unsupported? <==> seen && away && a.capability.CannotRoute?)
      && (u.phase.RecoveryRequired? <==> RollbackAsked(request, endpoints, a) && !PutBack(request, a))
      && (u.phase.Failed? <==>
            || !seen
            || (away && a.capability.Mutable? && a.captured.None?)
            || (RollbackAsked(request, endpoints, a) && PutBack(request, a)))
      && (u.phase.Failed? ==>
            u.error == if !RequestError(request, endpoints).NoError? then RequestError(request, endpoints)
                       else if !Clear(request, a.first) then ObserveError(request, a.first)
                       else if a.captured.None? then SnapshotFailed
                       else if !a.applied then ApplyFailed else VerificationFailed)
      && (u.phase.RecoveryRequired? ==> u.error.RollbackFailed?)
      && (u.phase.Unsupported? ==> u.error.BackendUnsupported?)
      && (u.phase.Applied? || u.phase.Satisfied? || u.phase.WaitingForSession? ==> u.error.NoError?)
      && (u.rollbackVerified <==> RollbackAsked(request, endpoints, a) && PutBack(request, a))
  {
    hide RequestError, Clear, Observed, Undone, OnTarget;
  }

  // ---------------------------------------------------------------- runs

  datatype Call = Attempt(endpoints: seq<Endpoint>, answers: Answers) | Rollback(endpoints: seq<Endpoint>, undo: UndoAnswers)

  function After(request: Request, t: Transaction, c: Call): Transaction {
    match c
    case Attempt(endpoints, a) => Attempted(request, t, endpoints, a)
    case Rollback(endpoints, a) => RolledBack(request, t, endpoints, a)
  }

  /** What is still displaced: the earliest capture before an apply that has not been seen back since. */
  function Displaced(request: Request, displaced: Option<Evidence>, c: Call): Option<Evidence> {
    match c
    case Attempt(endpoints, a) =>
      if !ApplyRan(request, endpoints, a) then displaced
      else if displaced.Some? && !(RollbackAsked(request, endpoints, a) && Undone(request, displaced.value, a.undo)) then
        displaced
      else if RollbackAsked(request, endpoints, a) && PutBack(request, a) then None
      else Some(Observed(request, a.first))
    case Rollback(endpoints, a) =>
      if displaced.Some? && RequestError(request, endpoints).NoError? && Undone(request, displaced.value, a) then None
      else displaced
  }

  /** The transaction knows exactly what is displaced. */
  predicate Aware(t: Transaction, displaced: Option<Evidence>) {
    && Retains(t)
    && (t.status.mutated <==> displaced.Some?)
    && (displaced.Some? ==> t.beforeEvidence == displaced)
  }

  predicate CallForgets(request: Request, t: Transaction, c: Call)
    requires Retains(t)
  {
    c.Attempt? && Forgets(request, t, c.endpoints, c.answers)
  }

  lemma CallRetains(request: Request, t: Transaction, c: Call)
    requires Retains(t)
    ensures Retains(After(request, t, c))
  {
    hide Retains, Attempted, RolledBack;
    match c
    case Attempt(endpoints, a) => AttemptRetains(request, t, endpoints, a);
    case Rollback(endpoints, a) => RollbackRetains(request, t, endpoints, a);
  }

  /** A call leaves the transaction knowing exactly what is displaced if and only if it does not forget. */
  lemma StaysAware(request: Request, t: Transaction, displaced: Option<Evidence>, c: Call)
    requires Aware(t, displaced)
    ensures Aware(After(request, t, c), Displaced(request, displaced, c)) <==> !CallForgets(request, t, c)
  {
    hide RequestError, Clear, Observed, Undone, OnTarget, Retains, Attempted, ApplyRan, NothingToDo;
    CallRetains(request, t, c);
    match c
    case Attempt(endpoints, a) =>
      AttemptLeaves(request, t, endpoints, a);
      AskedMeansApplied(request, endpoints, a);
    case Rollback(endpoints, a) =>
      HasCapture(t);
      if t.beforeEvidence.Some? { UndoneMeansRolledBack(request, t.beforeEvidence.value, a); }
  }

  lemma AskedMeansApplied(request: Request, endpoints: seq<Endpoint>, a: Answers)
    ensures RollbackAsked(request, endpoints, a) ==> ApplyRan(request, endpoints, a)
  {
  }

  lemma HasCapture(t: Transaction)
    requires Retains(t)
    ensures t.status.mutated ==> t.before.Some? && t.beforeEvidence.Some?
  {
  }

  /** A run in which no attempt forgets. */
  predicate Remembers(request: Request, t: Transaction, calls: seq<Call>)
    requires Retains(t)
    decreases |calls|
  {
    calls == [] ||
    (!CallForgets(request, t, calls[0]) &&
     (CallRetains(request, t, calls[0]); Remembers(request, After(request, t, calls[0]), calls[1..])))
  }

  /** A run in which each attempt is made on a transaction that is not mutated, as a caller can check. */
  predicate Guarded(request: Request, t: Transaction, calls: seq<Call>)
    decreases |calls|
  {
    calls == [] || ((calls[0].Attempt? ==> !t.status.mutated) && Guarded(request, After(request, t, calls[0]), calls[1..]))
  }

  lemma {:induction false} GuardedRemembers(request: Request, t: Transaction, calls: seq<Call>)
    requires Retains(t) && Guarded(request, t, calls)
    ensures Remembers(request, t, calls)
    decreases |calls|
  {
    hide Retains, After, SeenBack, Attempted;
    if calls != [] {
      CallRetains(request, t, calls[0]);
      GuardedRemembers(request, After(request, t, calls[0]), calls[1..]);
    }
  }

  function Final(request: Request, t: Transaction, calls: seq<Call>): Transaction
    decreases |calls|
  {
    if calls == [] then t else Final(request, After(request, t, calls[0]), calls[1..])
  }

  function FinallyDisplaced(request: Request, displaced: Option<Evidence>, calls: seq<Call>): Option<Evidence>
    decreases |calls|
  {
    if calls == [] then displaced else FinallyDisplaced(request, Displaced(request, displaced, calls[0]), calls[1..])
  }

  lemma {:induction false} RunStaysAware(request: Request, t: Transaction, displaced: Option<Evidence>, calls: seq<Call>)
    requires Aware(t, displaced) && Remembers(request, t, calls)
    ensures Aware(Final(request, t, calls), FinallyDisplaced(request, displaced, calls))
    decreases |calls|
  {
    hide Retains, Displaced, After, CallForgets;
    if calls != [] {
      StaysAware(request, t, displaced, calls[0]);
      RunStaysAware(request, After(request, t, calls[0]), Displaced(request, displaced, calls[0]), calls[1..]);
    }
  }

  /**
   * From a new transaction, over every run in which no attempt forgets, mutated is set at the end exactly when
   * something is displaced, and then the capture is of what is displaced. Guarded runs are such runs.
   */
  lemma FreshIsAware(request: Request, calls: seq<Call>)
    requires Guarded(request, NEW, calls) || Remembers(request, NEW, calls)
    ensures var t, displaced := Final(request, NEW, calls), FinallyDisplaced(request, None, calls);
      && (t.status.mutated <==> displaced.Some?)
      && (displaced.Some? ==> t.before.Some? && t.beforeEvidence == displaced)
  {
    hide Guarded, Final, FinallyDisplaced, Remembers;
    if Guarded(request, NEW, calls) { GuardedRemembers(request, NEW, calls); }
    RunStaysAware(request, NEW, None, calls);
  }
}
