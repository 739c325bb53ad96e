/** Cohort aggregation: one pass over the results, and what its tables say about them as a bag. */
module Aggregation {
  import opened Words

  const MAXIMUM_RESULTS := 100000

  datatype Status = NotMeasured | Pass | Fail | Unsupported
  datatype Disposition = Untested | Success | Failure
  datatype Origin = Synthetic | ControlledProcess | Physical | ImportedCommunity
  datatype Freshness = Current | Stale
  datatype Aspect = Launch | SecondInstance | InputIsolation | Controller | Audio | CleanExit | Rollback

  /** What a result is about: everything in its cohort key but the freshness. The scenario needs one instance or two. */
  datatype Subject = Subject(gameId: string, providerId: string, providerAppId: Option<string>, gameVersion: Option<string>,
                             seatVersion: string, windowsClass: string, architecture: string, differentGames: bool,
                             protectedExperimental: bool, setupRevision: Option<U64>,
                             backends: seq<(string, Option<string>)>)

  datatype Result = Result(resultId: string, timestampBucket: string, subject: Subject, launch: Status,
                           secondInstance: Status, inputIsolation: Status, controller: Status, audio: Status,
                           cleanExit: Status, rollback: Status, origin: Origin)

  datatype Key = Key(subject: Subject, freshness: Freshness)

  datatype Policy = Policy(referenceMonth: string, staleAfterMonths: U32)

  /** The result schema's validation and the member-wise order of keys, which are not part of this model. */
  datatype Schema = Schema(valid: Result -> bool, before: (Key, Key) -> bool)

  ghost predicate TotalOrder(schema: Schema) {
    && (forall a :: !schema.before(a, a))
    && (forall a, b :: a == b || schema.before(a, b) || schema.before(b, a))
    && (forall a, b, c :: schema.before(a, b) && schema.before(b, c) ==> schema.before(a, c))
  }

  datatype OutcomeCounts = OutcomeCounts(notMeasured: nat, pass: nat, fail: nat, unsupported: nat)
  datatype SessionCounts = SessionCounts(untested: nat, success: nat, failure: nat)
  datatype OriginCounts = OriginCounts(synthetic: nat, controlledProcess: nat, physical: nat, imported: nat)

  datatype Cohort = Cohort(key: Key, sampleSize: nat, session: SessionCounts, launch: OutcomeCounts,
                           secondInstance: OutcomeCounts, inputIsolation: OutcomeCounts, controller: OutcomeCounts,
                           audio: OutcomeCounts, cleanExit: OutcomeCounts, rollback: OutcomeCounts, origins: OriginCounts)

  datatype Code = Done | InvalidPolicy | TooManyResults | InvalidResult | DuplicateResultId | FutureTimestamp

  // ---------------------------------------------------------------- months and dispositions

  predicate IsDigit(c: char) { '0' <= c <= '9' }

  function DigitOf(c: char): int { c as int - '0' as int }

  function ParseMonth(s: string): Option<int> {
    if |s| != 7 || s[4] != '-' then None
    else if exists i :: 0 <= i < 7 && i != 4 && !IsDigit(s[i]) then None
    else
      var year := DigitOf(s[0]) * 1000 + DigitOf(s[1]) * 100 + DigitOf(s[2]) * 10 + DigitOf(s[3]);
      var month := DigitOf(s[5]) * 10 + DigitOf(s[6]);
      if year < 2000 || year > 9999 || month < 1 || month > 12 then None else Some(year * 12 + (month - 1))
  }

  function ResultMonth(r: Result): Option<int> {
    if |r.timestampBucket| < 7 then None else ParseMonth(r.timestampBucket[..7])
  }

  predicate Bad(s: Status) { s.Fail? || s.Unsupported? }

  /** classifySessionDisposition, by its loop over the four required outcomes. */
  method ClassifySession(r: Result) returns (d: Disposition)
    ensures d == DispositionOf(r)
  {
    var required := [r.launch, r.inputIsolation, r.cleanExit,
                     if r.subject.differentGames then Pass else r.secondInstance];
    var untested := false;
    for n := 0 to |required|
      invariant forall i :: 0 <= i < n ==> !Bad(required[i])
      invariant untested <==> exists i :: 0 <= i < n && required[i].NotMeasured?
    {
      if Bad(required[n]) {
        assert Bad(required[0]) || Bad(required[1]) || Bad(required[2]) || Bad(required[3]);
        return Failure;
      }
      if required[n].NotMeasured? { untested := true; }
    }
    assert !Bad(required[0]) && !Bad(required[1]) && !Bad(required[2]) && !Bad(required[3]);
    assert untested <==>
           required[0].NotMeasured? || required[1].NotMeasured? || required[2].NotMeasured? || required[3].NotMeasured?;
    d := if untested then Untested else Success;
  }

  /** Failure if any required outcome is bad, success if all are passes, untested otherwise. */
  function DispositionOf(r: Result): Disposition {
    if Bad(r.launch) || Bad(r.inputIsolation) || Bad(r.cleanExit) || (!r.subject.differentGames && Bad(r.secondInstance))
    then Failure
    else if r.launch.Pass? && r.inputIsolation.Pass? && r.cleanExit.Pass?
         && (r.subject.differentGames || r.secondInstance.Pass?) then Success
    else Untested
  }

  // ---------------------------------------------------------------- what a table says

  /** Everything one can ask of a cohort: how many samples, and how many with a given answer. */
  datatype Question = All | Session(d: Disposition) | Outcome(aspect: Aspect, status: Status) | From(origin: Origin)

  function StatusOf(r: Result, a: Aspect): Status {
    match a
    case Launch => r.launch
    case SecondInstance => r.secondInstance
    case InputIsolation => r.inputIsolation
    case Controller => r.controller
    case Audio => r.audio
    case CleanExit => r.cleanExit
    case Rollback => r.rollback
  }

  predicate Meets(r: Result, q: Question) {
    match q
    case All => true
    case Session(d) => DispositionOf(r) == d
    case Outcome(a, s) => StatusOf(r, a) == s
    case From(o) => r.origin == o
  }

  function OutcomesFor(c: Cohort, a: Aspect): OutcomeCounts {
    match a
    case Launch => c.launch
    case SecondInstance => c.secondInstance
    case InputIsolation => c.inputIsolation
    case Controller => c.controller
    case Audio => c.audio
    case CleanExit => c.cleanExit
    case Rollback => c.rollback
  }

  function CountOf(o: OutcomeCounts, s: Status): nat {
    match s
    case NotMeasured => o.notMeasured
    case Pass => o.pass
    case Fail => o.fail
    case Unsupported => o.unsupported
  }

  /** The cohort's answer to a question. */
  function Answer(c: Cohort, q: Question): nat {
    match q
    case All => c.sampleSize
    case Session(d) => if d.Untested? then c.session.untested else if d.Success? then c.session.success else c.session.failure
    case Outcome(a, s) => CountOf(OutcomesFor(c, a), s)
    case From(o) =>
      if o.Synthetic? then c.origins.synthetic else if o.ControlledProcess? then c.origins.controlledProcess
      else if o.Physical? then c.origins.physical else c.origins.imported
  }

  /** Two cohorts that answer everything alike are the same table. */
  lemma AnswersDetermine(c: Cohort, d: Cohort)
    requires c.key == d.key && forall q :: Answer(c, q) == Answer(d, q)
    ensures c == d
  {
    forall a: Aspect ensures OutcomesFor(c, a) == OutcomesFor(d, a) {
      forall s: Status ensures CountOf(OutcomesFor(c, a), s) == CountOf(OutcomesFor(d, a), s) {
        assert Answer(c, Outcome(a, s)) == Answer(d, Outcome(a, s));
      }
      SameCounts(OutcomesFor(c, a), OutcomesFor(d, a));
    }
    assert Answer(c, All) == Answer(d, All);
    assert Answer(c, Session(Untested)) == Answer(d, Session(Untested));
    assert Answer(c, Session(Success)) == Answer(d, Session(Success));
    assert Answer(c, Session(Failure)) == Answer(d, Session(Failure));
    assert Answer(c, From(Synthetic)) == Answer(d, From(Synthetic));
    assert Answer(c, From(ControlledProcess)) == Answer(d, From(ControlledProcess));
    assert Answer(c, From(Physical)) == Answer(d, From(Physical));
    assert Answer(c, From(ImportedCommunity)) == Answer(d, From(ImportedCommunity));
    assert OutcomesFor(c, Launch) == OutcomesFor(d, Launch) && OutcomesFor(c, SecondInstance) == OutcomesFor(d, SecondInstance);
    assert OutcomesFor(c, InputIsolation) == OutcomesFor(d, InputIsolation);
    assert OutcomesFor(c, Controller) == OutcomesFor(d, Controller) && OutcomesFor(c, Audio) == OutcomesFor(d, Audio);
    assert OutcomesFor(c, CleanExit) == OutcomesFor(d, CleanExit) && OutcomesFor(c, Rollback) == OutcomesFor(d, Rollback);
  }

  lemma SameCounts(o: OutcomeCounts, p: OutcomeCounts)
    requires forall s :: CountOf(o, s) == CountOf(p, s)
    ensures o == p
  {
    assert CountOf(o, NotMeasured) == CountOf(p, NotMeasured) && CountOf(o, Pass) == CountOf(p, Pass);
    assert CountOf(o, Fail) == CountOf(p, Fail) && CountOf(o, Unsupported) == CountOf(p, Unsupported);
  }

  // ---------------------------------------------------------------- counting a result into a table

  method CountOutcome(o: OutcomeCounts, s: Status) returns (p: OutcomeCounts)
    ensures forall t :: CountOf(p, t) == CountOf(o, t) + if t == s then 1 else 0
  {
    match s
    case NotMeasured => p := o.(notMeasured := o.notMeasured + 1);
    case Pass => p := o.(pass := o.pass + 1);
    case Fail => p := o.(fail := o.fail + 1);
    case Unsupported => p := o.(unsupported := o.unsupported + 1);
  }

  const NO_OUTCOMES := OutcomeCounts(0, 0, 0, 0)

  function Empty(key: Key): (c: Cohort)
    ensures forall q :: Answer(c, q) == 0
  {
    Cohort(key, 0, SessionCounts(0, 0, 0), NO_OUTCOMES, NO_OUTCOMES, NO_OUTCOMES, NO_OUTCOMES, NO_OUTCOMES, NO_OUTCOMES,
           NO_OUTCOMES, OriginCounts(0, 0, 0, 0))
  }

  method CountSession(c: SessionCounts, d: Disposition) returns (n: SessionCounts)
    ensures n == if d.Untested? then c.(untested := c.untested + 1)
                 else if d.Success? then c.(success := c.success + 1) else c.(failure := c.failure + 1)
  {
    match d
    case Untested => n := c.(untested := c.untested + 1);
    case Success => n := c.(success := c.success + 1);
    case Failure => n := c.(failure := c.failure + 1);
  }

  method CountOrigin(c: OriginCounts, o: Origin) returns (n: OriginCounts)
    ensures n == if o.Synthetic? then c.(synthetic := c.synthetic + 1)
                 else if o.ControlledProcess? then c.(controlledProcess := c.controlledProcess + 1)
                 else if o.Physical? then c.(physical := c.physical + 1) else c.(imported := c.imported + 1)
  {
    match o
    case Synthetic => n := c.(synthetic := c.synthetic + 1);
    case ControlledProcess => n := c.(controlledProcess := c.controlledProcess + 1);
    case Physical => n := c.(physical := c.physical + 1);
    case ImportedCommunity => n := c.(imported := c.imported + 1);
  }

  /** One more sample raises exactly the answers the sample meets. */
  method CountResult(c: Cohort, r: Result) returns (d: Cohort)
    ensures d.key == c.key && forall q :: Answer(d, q) == Answer(c, q) + if Meets(r, q) then 1 else 0
  {
    hide DispositionOf;
    var disposition := ClassifySession(r);
    var session := CountSession(c.session, disposition);
    var launch := CountOutcome(c.launch, r.launch);
    var second := CountOutcome(c.secondInstance, r.secondInstance);
    var isolation := CountOutcome(c.inputIsolation, r.inputIsolation);
    var controller := CountOutcome(c.controller, r.controller);
    var audio := CountOutcome(c.audio, r.audio);
    var exit := CountOutcome(c.cleanExit, r.cleanExit);
    var rollback := CountOutcome(c.rollback, r.rollback);
    var origins := CountOrigin(c.origins, r.origin);
    d := Cohort(c.key, c.sampleSize + 1, session, launch, second, isolation, controller, audio, exit, rollback, origins);
  }

  // ---------------------------------------------------------------- the bag behind a table

  function KeyOf(policy: Policy, r: Result): Key {
    var reference, month := ParseMonth(policy.referenceMonth), ResultMonth(r);
    Key(r.subject, if reference.Some? && month.Some? && reference.value - month.value > policy.staleAfterMonths then Stale else Current)
  }

  /** The results of the bag that fall into the cohort and meet the question. */
  ghost function Sample(pool: multiset<Result>, policy: Policy, key: Key, q: Question): (g: multiset<Result>)
    ensures forall r :: g[r] == if KeyOf(policy, r) == key && Meets(r, q) then pool[r] else 0
    decreases |pool|
  {
    if pool == multiset{} then multiset{}
    else
      var r :| r in pool;
      var g := Sample(pool - multiset{r}, policy, key, q);
      if KeyOf(policy, r) == key && Meets(r, q) then g + multiset{r} else g
  }

  /** The table counts the bag: each answer is the number of results that meet the question. */
  ghost predicate IsTable(pool: multiset<Result>, policy: Policy, c: Cohort) {
    forall q :: Answer(c, q) == |Sample(pool, policy, c.key, q)|
  }

  lemma SampleGrows(pool: multiset<Result>, policy: Policy, key: Key, q: Question, r: Result)
    ensures Sample(pool + multiset{r}, policy, key, q) ==
            Sample(pool, policy, key, q) + if KeyOf(policy, r) == key && Meets(r, q) then multiset{r} else multiset{}
  {
    hide KeyOf, Meets;
  }

  lemma OtherTable(pool: multiset<Result>, policy: Policy, c: Cohort, r: Result)
    requires IsTable(pool, policy, c) && KeyOf(policy, r) != c.key
    ensures IsTable(pool + multiset{r}, policy, c)
  {
    hide KeyOf, Meets, Answer, Sample;
    forall q ensures Answer(c, q) == |Sample(pool + multiset{r}, policy, c.key, q)| {
      SampleGrows(pool, policy, c.key, q, r);
    }
  }

  lemma GrownTable(pool: multiset<Result>, policy: Policy, c: Cohort, d: Cohort, r: Result)
    requires IsTable(pool, policy, c) && KeyOf(policy, r) == c.key == d.key
    requires forall q :: Answer(d, q) == Answer(c, q) + if Meets(r, q) then 1 else 0
    ensures IsTable(pool + multiset{r}, policy, d)
  {
    hide KeyOf, Meets, Answer, Sample;
    forall q ensures Answer(d, q) == |Sample(pool + multiset{r}, policy, d.key, q)| {
      SampleGrows(pool, policy, c.key, q, r);
    }
  }

  lemma EmptyTable(pool: multiset<Result>, policy: Policy, key: Key)
    requires forall r :: r in pool ==> KeyOf(policy, r) != key
    ensures IsTable(pool, policy, Empty(key))
  {
    hide KeyOf, Meets, Answer;
    forall q ensures |Sample(pool, policy, key, q)| == 0 {
      assert Sample(pool, policy, key, q) == multiset{};
    }
  }

  // ---------------------------------------------------------------- conservation

  lemma InCohort(pool: multiset<Result>, policy: Policy, c: Cohort)
    requires IsTable(pool, policy, c)
    ensures c.sampleSize == |Sample(pool, policy, c.key, All)|
  {
    assert Answer(c, All) == c.sampleSize;
  }

  /** Every tally of a cohort adds up to its sample size: outcomes, sessions and origins. */
  lemma TalliesAddUp(pool: multiset<Result>, policy: Policy, c: Cohort)
    requires IsTable(pool, policy, c)
    ensures forall a :: OutcomesFor(c, a).notMeasured + OutcomesFor(c, a).pass + OutcomesFor(c, a).fail
                        + OutcomesFor(c, a).unsupported == c.sampleSize
    ensures c.session.untested + c.session.success + c.session.failure == c.sampleSize
    ensures c.origins.synthetic + c.origins.controlledProcess + c.origins.physical + c.origins.imported == c.sampleSize
  {
    hide Sample;
    InCohort(pool, policy, c);
    forall a ensures OutcomesFor(c, a).notMeasured + OutcomesFor(c, a).pass + OutcomesFor(c, a).fail
                     + OutcomesFor(c, a).unsupported == c.sampleSize {
      OutcomeAnswers(pool, policy, c, a);
      OutcomesSplit(pool, policy, c.key, a);
    }
    SessionsSplit(pool, policy, c.key);
    assert Answer(c, Session(Untested)) == c.session.untested && Answer(c, Session(Success)) == c.session.success;
    assert Answer(c, Session(Failure)) == c.session.failure;
    OriginAnswers(pool, policy, c);
    OriginsSplit(pool, policy, c.key);
  }

  lemma OutcomeAnswers(pool: multiset<Result>, policy: Policy, c: Cohort, a: Aspect)
    requires IsTable(pool, policy, c)
    ensures OutcomesFor(c, a).notMeasured == |Sample(pool, policy, c.key, Outcome(a, NotMeasured))|
    ensures OutcomesFor(c, a).pass == |Sample(pool, policy, c.key, Outcome(a, Pass))|
    ensures OutcomesFor(c, a).fail == |Sample(pool, policy, c.key, Outcome(a, Fail))|
    ensures OutcomesFor(c, a).unsupported == |Sample(pool, policy, c.key, Outcome(a, Unsupported))|
  {
    hide Sample, OutcomesFor;
    assert Answer(c, Outcome(a, NotMeasured)) == OutcomesFor(c, a).notMeasured;
    assert Answer(c, Outcome(a, Pass)) == OutcomesFor(c, a).pass;
    assert Answer(c, Outcome(a, Fail)) == OutcomesFor(c, a).fail;
    assert Answer(c, Outcome(a, Unsupported)) == OutcomesFor(c, a).unsupported;
  }

  lemma OriginAnswers(pool: multiset<Result>, policy: Policy, c: Cohort)
    requires IsTable(pool, policy, c)
    ensures c.origins.synthetic == |Sample(pool, policy, c.key, From(Synthetic))|
    ensures c.origins.controlledProcess == |Sample(pool, policy, c.key, From(ControlledProcess))|
    ensures c.origins.physical == |Sample(pool, policy, c.key, From(Physical))|
    ensures c.origins.imported == |Sample(pool, policy, c.key, From(ImportedCommunity))|
  {
    hide Sample;
    assert Answer(c, From(Synthetic)) == c.origins.synthetic && Answer(c, From(Physical)) == c.origins.physical;
    assert Answer(c, From(ControlledProcess)) == c.origins.controlledProcess;
    assert Answer(c, From(ImportedCommunity)) == c.origins.imported;
  }

  /** A bag split by four questions, exactly one of which each result meets. */
  lemma FourWays(all: multiset<Result>, a: multiset<Result>, b: multiset<Result>, c: multiset<Result>, d: multiset<Result>)
    requires forall r :: all[r] == a[r] + b[r] + c[r] + d[r]
    ensures |all| == |a| + |b| + |c| + |d|
  {
    assert all == a + b + c + d;
  }

  lemma OutcomesSplit(pool: multiset<Result>, policy: Policy, key: Key, a: Aspect)
    ensures |Sample(pool, policy, key, All)| ==
            |Sample(pool, policy, key, Outcome(a, NotMeasured))| + |Sample(pool, policy, key, Outcome(a, Pass))|
            + |Sample(pool, policy, key, Outcome(a, Fail))| + |Sample(pool, policy, key, Outcome(a, Unsupported))|
  {
    hide KeyOf, Sample, StatusOf;
    FourWays(Sample(pool, policy, key, All),
             Sample(pool, policy, key, Outcome(a, NotMeasured)), Sample(pool, policy, key, Outcome(a, Pass)),
             Sample(pool, policy, key, Outcome(a, Fail)), Sample(pool, policy, key, Outcome(a, Unsupported)));
  }

  lemma SessionsSplit(pool: multiset<Result>, policy: Policy, key: Key)
    ensures |Sample(pool, policy, key, All)| ==
            |Sample(pool, policy, key, Session(Untested))| + |Sample(pool, policy, key, Session(Success))|
            + |Sample(pool, policy, key, Session(Failure))|
  {
    hide KeyOf, Sample, DispositionOf;
    FourWays(Sample(pool, policy, key, All),
             Sample(pool, policy, key, Session(Untested)), Sample(pool, policy, key, Session(Success)),
             Sample(pool, policy, key, Session(Failure)), multiset{});
  }

  lemma OriginsSplit(pool: multiset<Result>, policy: Policy, key: Key)
    ensures |Sample(pool, policy, key, All)| ==
            |Sample(pool, policy, key, From(Synthetic))| + |Sample(pool, policy, key, From(ControlledProcess))|
            + |Sample(pool, policy, key, From(Physical))| + |Sample(pool, policy, key, From(ImportedCommunity))|
  {
    hide KeyOf, Sample;
    FourWays(Sample(pool, policy, key, All),
             Sample(pool, policy, key, From(Synthetic)), Sample(pool, policy, key, From(ControlledProcess)),
             Sample(pool, policy, key, From(Physical)), Sample(pool, policy, key, From(ImportedCommunity)));
  }

  // ---------------------------------------------------------------- the aggregate of a bag

  ghost predicate Ascending(schema: Schema, cohorts: seq<Cohort>) {
    forall i, j :: 0 <= i < j < |cohorts| ==> schema.before(cohorts[i].key, cohorts[j].key)
  }

  /** One table for each key that occurs, in key order. */
  ghost predicate IsAggregate(schema: Schema, policy: Policy, pool: multiset<Result>, cohorts: seq<Cohort>) {
    && Ascending(schema, cohorts)
    && (forall c :: c in cohorts ==> IsTable(pool, policy, c) && c.sampleSize > 0)
    && (forall r :: r in pool ==> HasCohort(cohorts, KeyOf(policy, r)))
  }

  ghost predicate HasCohort(cohorts: seq<Cohort>, key: Key) {
    exists c :: c in cohorts && c.key == key
  }

  lemma SomeSample(pool: multiset<Result>, policy: Policy, c: Cohort) returns (r: Result)
    requires IsTable(pool, policy, c) && c.sampleSize > 0
    ensures r in pool && KeyOf(policy, r) == c.key
  {
    InCohort(pool, policy, c);
    assert Sample(pool, policy, c.key, All) != multiset{};
    r :| r in Sample(pool, policy, c.key, All);
  }

  lemma SharedCohort(schema: Schema, policy: Policy, pool: multiset<Result>, xs: seq<Cohort>, ys: seq<Cohort>, c: Cohort)
    requires IsAggregate(schema, policy, pool, xs) && IsAggregate(schema, policy, pool, ys) && c in xs
    ensures c in ys
  {
    hide KeyOf, Answer, Sample, Ascending;
    var r := SomeSample(pool, policy, c);
    assert HasCohort(ys, KeyOf(policy, r));
    var d :| d in ys && d.key == c.key;
    AnswersDetermine(c, d);
  }

  lemma {:induction false} SortedOnce(schema: Schema, xs: seq<Cohort>, ys: seq<Cohort>)
    requires TotalOrder(schema) && Ascending(schema, xs) && Ascending(schema, ys) && forall c :: c in xs <==> c in ys
    ensures xs == ys
    decreases |xs|
  {
    if xs == [] {
      SomeCohort(ys);
    } else {
      assert xs[0] in ys && ys[0] in xs;
      var i :| 0 <= i < |ys| && ys[i] == xs[0];
      var j :| 0 <= j < |xs| && xs[j] == ys[0];
      assert xs[0] == ys[0];
      forall c ensures c in xs[1..] <==> c in ys[1..] { LaterCohort(schema, xs, c); LaterCohort(schema, ys, c); }
      SortedOnce(schema, xs[1..], ys[1..]);
      assert xs == [xs[0]] + xs[1..] && ys == [ys[0]] + ys[1..];
    }
  }

  lemma SomeCohort(xs: seq<Cohort>)
    ensures xs == [] || exists c :: c in xs
  {
    if xs != [] { assert xs[0] in xs; }
  }

  lemma LaterCohort(schema: Schema, xs: seq<Cohort>, c: Cohort)
    requires TotalOrder(schema) && Ascending(schema, xs) && xs != []
    ensures c in xs[1..] <==> c in xs && c != xs[0]
  {
    assert xs == [xs[0]] + xs[1..];
  }

  /** A bag of results has one aggregate. */
  lemma AggregateUnique(schema: Schema, policy: Policy, pool: multiset<Result>, xs: seq<Cohort>, ys: seq<Cohort>)
    requires TotalOrder(schema) && IsAggregate(schema, policy, pool, xs) && IsAggregate(schema, policy, pool, ys)
    ensures xs == ys
  {
    hide TotalOrder, KeyOf, IsTable, HasCohort;
    forall c ensures c in xs <==> c in ys {
      if c in xs { SharedCohort(schema, policy, pool, xs, ys, c); }
      if c in ys { SharedCohort(schema, policy, pool, ys, xs, c); }
    }
    SortedOnce(schema, xs, ys);
  }

  function TotalSize(cohorts: seq<Cohort>): nat
    decreases |cohorts|
  {
    if cohorts == [] then 0 else TotalSize(cohorts[..|cohorts| - 1]) + cohorts[|cohorts| - 1].sampleSize
  }

  ghost function Union(pool: multiset<Result>, policy: Policy, cohorts: seq<Cohort>): multiset<Result>
    decreases |cohorts|
  {
    if cohorts == [] then multiset{}
    else Union(pool, policy, cohorts[..|cohorts| - 1]) + Sample(pool, policy, cohorts[|cohorts| - 1].key, All)
  }

  lemma {:induction false} UnionCounts(schema: Schema, pool: multiset<Result>, policy: Policy, cohorts: seq<Cohort>)
    requires TotalOrder(schema) && Ascending(schema, cohorts) && forall c :: c in cohorts ==> IsTable(pool, policy, c)
    ensures |Union(pool, policy, cohorts)| == TotalSize(cohorts)
    ensures forall r :: Union(pool, policy, cohorts)[r] == if HasCohort(cohorts, KeyOf(policy, r)) then pool[r] else 0
    decreases |cohorts|
  {
    hide KeyOf, IsTable;
    if cohorts != [] {
      var init, last := cohorts[..|cohorts| - 1], cohorts[|cohorts| - 1];
      UnionCounts(schema, pool, policy, init);
      InCohort(pool, policy, last);
      forall r ensures HasCohort(cohorts, KeyOf(policy, r)) <==> HasCohort(init, KeyOf(policy, r)) || KeyOf(policy, r) == last.key {
        NextCohort(init, last, KeyOf(policy, r));
      }
      NotAmongEarlier(schema, cohorts);
      forall r ensures Union(pool, policy, cohorts)[r] == if HasCohort(cohorts, KeyOf(policy, r)) then pool[r] else 0 {
        assert Union(pool, policy, cohorts)[r] ==
               Union(pool, policy, init)[r] + Sample(pool, policy, last.key, All)[r];
      }
    }
  }

  lemma NextCohort(init: seq<Cohort>, last: Cohort, key: Key)
    ensures HasCohort(init + [last], key) <==> HasCohort(init, key) || key == last.key
  {
    if HasCohort(init, key) {
      var c :| c in init && c.key == key;
      assert c in init + [last];
    }
    assert last in init + [last];
  }

  lemma NotAmongEarlier(schema: Schema, cohorts: seq<Cohort>)
    requires TotalOrder(schema) && Ascending(schema, cohorts) && cohorts != []
    ensures !HasCohort(cohorts[..|cohorts| - 1], cohorts[|cohorts| - 1].key)
  {
  }

  /** No sample is lost and none is counted twice: the sample sizes add up to the number of results. */
  lemma NothingLost(schema: Schema, policy: Policy, pool: multiset<Result>, cohorts: seq<Cohort>)
    requires TotalOrder(schema) && IsAggregate(schema, policy, pool, cohorts)
    ensures TotalSize(cohorts) == |pool|
  {
    hide TotalOrder, KeyOf, IsTable, HasCohort, Ascending;
    UnionCounts(schema, pool, policy, cohorts);
    assert Union(pool, policy, cohorts) == pool;
  }
}
