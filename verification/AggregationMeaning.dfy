/** What the aggregate's months, dispositions and counters mean, said of the dates, outcomes and results themselves. */
module AggregationMeaning {
  import opened Words
  import opened Aggregation
  import opened AggregationPass

  // ---------------------------------------------------------------- months

  const NUMERALS := "0123456789"

  function TwoDigits(n: nat): string
    requires n < 100
  {
    [NUMERALS[n / 10], NUMERALS[n % 10]]
  }

  function FourDigits(n: nat): string
    requires n < 10000
  {
    TwoDigits(n / 100) + TwoDigits(n % 100)
  }

  /** The text is the month, as in 2024-07. */
  predicate IsMonth(s: string, year: int, month: int) {
    2000 <= year <= 9999 && 1 <= month <= 12 && s == FourDigits(year) + "-" + TwoDigits(month)
  }

  lemma NumeralRead(c: char)
    requires IsDigit(c)
    ensures 0 <= DigitOf(c) < 10 && NUMERALS[DigitOf(c)] == c
  {
  }

  lemma NumeralWritten(d: nat)
    requires d < 10
    ensures IsDigit(NUMERALS[d]) && DigitOf(NUMERALS[d]) == d
  {
  }

  lemma TwoWritten(n: nat)
    requires n < 100
    ensures var s := TwoDigits(n); IsDigit(s[0]) && IsDigit(s[1]) && DigitOf(s[0]) * 10 + DigitOf(s[1]) == n
  {
    NumeralWritten(n / 10);
    NumeralWritten(n % 10);
  }

  lemma TwoRead(a: char, b: char)
    requires IsDigit(a) && IsDigit(b)
    ensures var n := DigitOf(a) * 10 + DigitOf(b); 0 <= n < 100 && TwoDigits(n) == [a, b]
  {
    NumeralRead(a);
    NumeralRead(b);
    var n := DigitOf(a) * 10 + DigitOf(b);
    assert n / 10 == DigitOf(a) && n % 10 == DigitOf(b);
  }

  lemma MonthReads(s: string, year: int, month: int)
    requires IsMonth(s, year, month)
    ensures ParseMonth(s) == Some(12 * year + (month - 1))
  {
    hide TwoDigits, IsDigit, DigitOf;
    assert |TwoDigits(year / 100)| == |TwoDigits(year % 100)| == |TwoDigits(month)| == 2 by { TwoLong(); }
    TwoWritten(year / 100);
    TwoWritten(year % 100);
    TwoWritten(month);
    assert s[0] == TwoDigits(year / 100)[0] && s[1] == TwoDigits(year / 100)[1];
    assert s[2] == TwoDigits(year % 100)[0] && s[3] == TwoDigits(year % 100)[1];
    assert s[5] == TwoDigits(month)[0] && s[6] == TwoDigits(month)[1];
  }

  lemma TwoLong()
    ensures forall n: nat :: n < 100 ==> |TwoDigits(n)| == 2
  {
  }

  /** A month is read exactly from a text that is one. */
  lemma MonthExactly(s: string)
    ensures ParseMonth(s).Some? <==> exists year, month :: IsMonth(s, year, month)
    ensures forall year, month :: IsMonth(s, year, month) ==> ParseMonth(s) == Some(12 * year + (month - 1))
  {
    hide IsMonth;
    forall year, month | IsMonth(s, year, month) ensures ParseMonth(s) == Some(12 * year + (month - 1)) {
      MonthReads(s, year, month);
    }
    if ParseMonth(s).Some? { var year, month := MonthWritten(s); }
  }

  lemma MonthWritten(s: string) returns (year: int, month: int)
    requires ParseMonth(s).Some?
    ensures IsMonth(s, year, month)
  {
    hide TwoDigits, IsDigit, DigitOf;
    var high, low := DigitOf(s[0]) * 10 + DigitOf(s[1]), DigitOf(s[2]) * 10 + DigitOf(s[3]);
    month := DigitOf(s[5]) * 10 + DigitOf(s[6]);
    year := high * 100 + low;
    assert IsDigit(s[0]) && IsDigit(s[1]) && IsDigit(s[2]) && IsDigit(s[3]) && IsDigit(s[5]) && IsDigit(s[6]);
    TwoRead(s[0], s[1]);
    TwoRead(s[2], s[3]);
    TwoRead(s[5], s[6]);
    assert year / 100 == high && year % 100 == low;
    assert s == [s[0], s[1]] + [s[2], s[3]] + ['-'] + [s[5], s[6]];
  }

  // ---------------------------------------------------------------- sessions

  /** The outcomes that a session stands or falls with: the second instance's only if both play one game. */
  function Required(r: Result): set<Status> {
    {r.launch, r.inputIsolation, r.cleanExit} + if r.subject.differentGames then {} else {r.secondInstance}
  }

  lemma DispositionExactly(r: Result)
    ensures DispositionOf(r).Failure? <==> Fail in Required(r) || Unsupported in Required(r)
    ensures DispositionOf(r).Success? <==> Required(r) == {Pass}
    ensures DispositionOf(r).Untested? <==> NotMeasured in Required(r) && Fail !in Required(r) && Unsupported !in Required(r)
  {
    assert r.launch in Required(r) && r.inputIsolation in Required(r) && r.cleanExit in Required(r);
    assert !r.subject.differentGames ==> r.secondInstance in Required(r);
  }

  // ---------------------------------------------------------------- acceptance and freshness

  /** The months that a policy and a result are about. */
  ghost predicate Dated(policy: Policy, r: Result, year: int, month: int, otherYear: int, otherMonth: int) {
    && IsMonth(policy.referenceMonth, year, month)
    && |r.timestampBucket| >= 7 && IsMonth(r.timestampBucket[..7], otherYear, otherMonth)
  }

  /** A result is stale if its month lies further back than the policy's horizon. */
  lemma KeyExactly(policy: Policy, r: Result, year: int, month: int, otherYear: int, otherMonth: int)
    requires Dated(policy, r, year, month, otherYear, otherMonth)
    ensures KeyOf(policy, r) ==
            Key(r.subject, if 12 * (year - otherYear) + (month - otherMonth) > policy.staleAfterMonths then Stale else Current)
  {
    hide IsMonth;
    MonthReads(policy.referenceMonth, year, month);
    MonthReads(r.timestampBucket[..7], otherYear, otherMonth);
  }

  /** The result's month is readable and not after the reference month. */
  ghost predicate InTime(policy: Policy, r: Result) {
    exists year, month, otherYear, otherMonth :: Dated(policy, r, year, month, otherYear, otherMonth)
      && (otherYear < year || (otherYear == year && otherMonth <= month))
  }

  lemma InTimeExactly(policy: Policy, r: Result)
    ensures InTime(policy, r) <==>
      ParseMonth(policy.referenceMonth).Some? && ResultMonth(r).Some? && ResultMonth(r).value <= ParseMonth(policy.referenceMonth).value
  {
    hide ParseMonth;
    MonthExactly(policy.referenceMonth);
    if |r.timestampBucket| >= 7 { MonthExactly(r.timestampBucket[..7]); }
    if InTime(policy, r) {
      var year, month, otherYear, otherMonth :| Dated(policy, r, year, month, otherYear, otherMonth)
        && (otherYear < year || (otherYear == year && otherMonth <= month));
    }
    if ParseMonth(policy.referenceMonth).Some? && ResultMonth(r).Some?
       && ResultMonth(r).value <= ParseMonth(policy.referenceMonth).value
    {
      var year, month :| IsMonth(policy.referenceMonth, year, month);
      var otherYear, otherMonth :| IsMonth(r.timestampBucket[..7], otherYear, otherMonth);
      assert Dated(policy, r, year, month, otherYear, otherMonth);
    }
  }

  /** Which inputs are aggregated: a month and a horizon of ten years at most, and usable results with different ids. */
  lemma AcceptedExactly(schema: Schema, policy: Policy, results: seq<Result>)
    ensures Acceptable(schema, policy, results) <==>
      && (exists year, month :: IsMonth(policy.referenceMonth, year, month))
      && policy.staleAfterMonths <= 120 && |results| <= 100000
      && (forall i :: 0 <= i < |results| ==> schema.valid(results[i]) && InTime(policy, results[i]))
      && (forall i, j :: 0 <= i < |results| && 0 <= j < |results| && results[i].resultId == results[j].resultId ==> i == j)
  {
    hide ParseMonth, ResultMonth, InTime, IsMonth;
    MonthExactly(policy.referenceMonth);
    forall i | 0 <= i < |results| ensures Usable(schema, policy, results[i]) <==>
                                          schema.valid(results[i]) && InTime(policy, results[i])
    {
      InTimeExactly(policy, results[i]);
    }
  }

  // ---------------------------------------------------------------- the counters

  ghost function Where(pool: multiset<Result>, p: Result -> bool): (g: multiset<Result>)
    ensures forall r :: g[r] == if p(r) then pool[r] else 0
    decreases |pool|
  {
    if pool == multiset{} then multiset{}
    else
      var r :| r in pool;
      var g := Where(pool - multiset{r}, p);
      if p(r) then g + multiset{r} else g
  }

  ghost function WithStatus(cohort: multiset<Result>, sel: Result -> Status, s: Status): (g: multiset<Result>)
    ensures forall r :: g[r] == if sel(r) == s then cohort[r] else 0
  {
    Where(cohort, (r: Result) => sel(r) == s)
  }

  ghost function WithDisposition(cohort: multiset<Result>, d: Disposition): (g: multiset<Result>)
    ensures forall r :: g[r] == if DispositionOf(r) == d then cohort[r] else 0
  {
    Where(cohort, (r: Result) => DispositionOf(r) == d)
  }

  ghost function WithOrigin(cohort: multiset<Result>, o: Origin): (g: multiset<Result>)
    ensures forall r :: g[r] == if r.origin == o then cohort[r] else 0
  {
    Where(cohort, (r: Result) => r.origin == o)
  }

  function LaunchOf(r: Result): Status { r.launch }

  function SecondInstanceOf(r: Result): Status { r.secondInstance }

  function InputIsolationOf(r: Result): Status { r.inputIsolation }

  function ControllerOf(r: Result): Status { r.controller }

  function AudioOf(r: Result): Status { r.audio }

  function CleanExitOf(r: Result): Status { r.cleanExit }

  function RollbackOf(r: Result): Status { r.rollback }

  /** The four counts of one outcome over the results of a cohort. */
  ghost predicate Tallies(cohort: multiset<Result>, sel: Result -> Status, o: OutcomeCounts) {
    && o.notMeasured == |WithStatus(cohort, sel, NotMeasured)| && o.pass == |WithStatus(cohort, sel, Pass)|
    && o.fail == |WithStatus(cohort, sel, Fail)| && o.unsupported == |WithStatus(cohort, sel, Unsupported)|
  }

  ghost function CohortOf(pool: multiset<Result>, policy: Policy, key: Key): (g: multiset<Result>)
    ensures forall r :: g[r] == if KeyOf(policy, r) == key then pool[r] else 0
  {
    Where(pool, (r: Result) => KeyOf(policy, r) == key)
  }

  lemma StatusSampled(pool: multiset<Result>, policy: Policy, key: Key, a: Aspect, sel: Result -> Status, s: Status)
    requires forall r :: StatusOf(r, a) == sel(r)
    ensures |Sample(pool, policy, key, Outcome(a, s))| == |WithStatus(CohortOf(pool, policy, key), sel, s)|
  {
    hide KeyOf, StatusOf, WithStatus, CohortOf;
    assert Sample(pool, policy, key, Outcome(a, s)) == WithStatus(CohortOf(pool, policy, key), sel, s);
  }

  lemma AspectTallied(pool: multiset<Result>, policy: Policy, c: Cohort, a: Aspect, sel: Result -> Status)
    requires IsTable(pool, policy, c) && forall r :: StatusOf(r, a) == sel(r)
    ensures Tallies(CohortOf(pool, policy, c.key), sel, OutcomesFor(c, a))
  {
    hide KeyOf, StatusOf, OutcomesFor, CohortOf, WithStatus, Sample;
    OutcomeAnswers(pool, policy, c, a);
    StatusSampled(pool, policy, c.key, a, sel, NotMeasured);
    StatusSampled(pool, policy, c.key, a, sel, Pass);
    StatusSampled(pool, policy, c.key, a, sel, Fail);
    StatusSampled(pool, policy, c.key, a, sel, Unsupported);
  }

  /** The counts of each outcome. */
  ghost predicate OutcomesCounted(cohort: multiset<Result>, c: Cohort) {
    && Tallies(cohort, LaunchOf, c.launch) && Tallies(cohort, SecondInstanceOf, c.secondInstance)
    && Tallies(cohort, InputIsolationOf, c.inputIsolation) && Tallies(cohort, ControllerOf, c.controller)
    && Tallies(cohort, AudioOf, c.audio) && Tallies(cohort, CleanExitOf, c.cleanExit)
    && Tallies(cohort, RollbackOf, c.rollback)
  }

  ghost predicate SessionsCounted(cohort: multiset<Result>, c: Cohort) {
    && c.session.untested == |WithDisposition(cohort, Untested)|
    && c.session.success == |WithDisposition(cohort, Success)|
    && c.session.failure == |WithDisposition(cohort, Failure)|
  }

  ghost predicate OriginsCounted(cohort: multiset<Result>, c: Cohort) {
    && c.origins.synthetic == |WithOrigin(cohort, Synthetic)|
    && c.origins.controlledProcess == |WithOrigin(cohort, ControlledProcess)|
    && c.origins.physical == |WithOrigin(cohort, Physical)|
    && c.origins.imported == |WithOrigin(cohort, ImportedCommunity)|
  }

  lemma OutcomesCount(pool: multiset<Result>, policy: Policy, c: Cohort)
    requires IsTable(pool, policy, c)
    ensures OutcomesCounted(CohortOf(pool, policy, c.key), c)
  {
    hide IsTable, KeyOf, CohortOf, Tallies;
    AspectTallied(pool, policy, c, Launch, LaunchOf);
    AspectTallied(pool, policy, c, SecondInstance, SecondInstanceOf);
    AspectTallied(pool, policy, c, InputIsolation, InputIsolationOf);
    AspectTallied(pool, policy, c, Controller, ControllerOf);
    AspectTallied(pool, policy, c, Audio, AudioOf);
    AspectTallied(pool, policy, c, CleanExit, CleanExitOf);
    AspectTallied(pool, policy, c, Rollback, RollbackOf);
  }

  lemma SessionsCount(pool: multiset<Result>, policy: Policy, c: Cohort)
    requires IsTable(pool, policy, c)
    ensures SessionsCounted(CohortOf(pool, policy, c.key), c)
  {
    hide KeyOf, DispositionOf, Sample, CohortOf, WithDisposition;
    var cohort := CohortOf(pool, policy, c.key);
    assert Answer(c, Session(Untested)) == c.session.untested && Answer(c, Session(Success)) == c.session.success;
    assert Answer(c, Session(Failure)) == c.session.failure;
    assert Sample(pool, policy, c.key, Session(Untested)) == WithDisposition(cohort, Untested);
    assert Sample(pool, policy, c.key, Session(Success)) == WithDisposition(cohort, Success);
    assert Sample(pool, policy, c.key, Session(Failure)) == WithDisposition(cohort, Failure);
  }

  lemma OriginsCount(pool: multiset<Result>, policy: Policy, c: Cohort)
    requires IsTable(pool, policy, c)
    ensures OriginsCounted(CohortOf(pool, policy, c.key), c)
  {
    hide KeyOf, CohortOf, IsTable, Sample, WithOrigin;
    var cohort := CohortOf(pool, policy, c.key);
    OriginAnswers(pool, policy, c);
    assert Sample(pool, policy, c.key, From(Synthetic)) == WithOrigin(cohort, Synthetic);
    assert Sample(pool, policy, c.key, From(ControlledProcess)) == WithOrigin(cohort, ControlledProcess);
    assert Sample(pool, policy, c.key, From(Physical)) == WithOrigin(cohort, Physical);
    assert Sample(pool, policy, c.key, From(ImportedCommunity)) == WithOrigin(cohort, ImportedCommunity);
  }

  /** Every counter of every table in an aggregate counts what its name says, over the results of its cohort. */
  lemma AggregateCounts(schema: Schema, policy: Policy, pool: multiset<Result>, cohorts: seq<Cohort>)
    requires IsAggregate(schema, policy, pool, cohorts)
    ensures forall c :: c in cohorts ==>
              var cohort := CohortOf(pool, policy, c.key);
              && c.sampleSize == |cohort| > 0
              && OutcomesCounted(cohort, c) && SessionsCounted(cohort, c) && OriginsCounted(cohort, c)
  {
    hide IsTable, KeyOf, CohortOf, Ascending, HasCohort, OutcomesCounted, SessionsCounted, OriginsCounted;
    forall c | c in cohorts
      ensures var cohort := CohortOf(pool, policy, c.key);
        && c.sampleSize == |cohort| > 0
        && OutcomesCounted(cohort, c) && SessionsCounted(cohort, c) && OriginsCounted(cohort, c)
    {
      OutcomesCount(pool, policy, c);
      SessionsCount(pool, policy, c);
      OriginsCount(pool, policy, c);
      InCohort(pool, policy, c);
      assert Sample(pool, policy, c.key, All) == CohortOf(pool, policy, c.key);
    }
  }
}
