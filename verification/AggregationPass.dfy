/** aggregateCompatibilityResults: the pass itself, and that the order of its input does not matter. */
module AggregationPass {
  import opened Words
  import opened Aggregation

  // ---------------------------------------------------------------- which inputs are accepted

  predicate Usable(schema: Schema, policy: Policy, r: Result) {
    && schema.valid(r) && ResultMonth(r).Some? && ParseMonth(policy.referenceMonth).Some?
    && ResultMonth(r).value <= ParseMonth(policy.referenceMonth).value
  }

  predicate DistinctIds(results: seq<Result>) {
    forall i, j :: 0 <= i < j < |results| ==> results[i].resultId != results[j].resultId
  }

  predicate Acceptable(schema: Schema, policy: Policy, results: seq<Result>) {
    && (ParseMonth(policy.referenceMonth).Some? && policy.staleAfterMonths <= 120)
    && |results| <= MAXIMUM_RESULTS
    && (forall i :: 0 <= i < |results| ==> Usable(schema, policy, results[i]))
    && DistinctIds(results)
  }

  lemma {:induction false} OnceEach(results: seq<Result>, r: Result)
    requires DistinctIds(results)
    ensures multiset(results)[r] <= 1
    decreases |results|
  {
    if results != [] {
      var init, last := results[..|results| - 1], results[|results| - 1];
      assert results == init + [last];
      OnceEach(init, r);
      if r == last {
        assert r !in init;
        assert r !in multiset(init);
      }
    }
  }

  lemma {:induction false} TwiceCounted(results: seq<Result>, i: nat, j: nat)
    requires i < j < |results| && results[i] == results[j]
    ensures multiset(results)[results[i]] >= 2
  {
    var a, b := results[..j], results[j..];
    assert results == a + b && results[i] == a[i] && results[j] == b[0];
    assert a[i] in multiset(a) && b[0] in multiset(b);
  }

  lemma PermutedDistinct(a: seq<Result>, b: seq<Result>)
    requires multiset(a) == multiset(b) && DistinctIds(a)
    ensures DistinctIds(b)
  {
    forall i, j | 0 <= i < j < |b| ensures b[i].resultId != b[j].resultId {
      assert b[i] in multiset(b) && b[j] in multiset(b);
      assert b[i] in multiset(a) && b[j] in multiset(a);
      var x :| 0 <= x < |a| && a[x] == b[i];
      var y :| 0 <= y < |a| && a[y] == b[j];
      OnceEach(a, b[i]);
      if b[i] == b[j] { TwiceCounted(b, i, j); }
    }
  }

  /** Permuting the results changes neither acceptance nor anything else. */
  lemma PermutedAcceptable(schema: Schema, policy: Policy, a: seq<Result>, b: seq<Result>)
    requires multiset(a) == multiset(b) && Acceptable(schema, policy, a)
    ensures Acceptable(schema, policy, b)
  {
    hide Usable;
    PermutedDistinct(a, b);
    assert |multiset(a)| == |a| && |multiset(b)| == |b|;
    forall i | 0 <= i < |b| ensures Usable(schema, policy, b[i]) {
      assert b[i] in multiset(b);
      assert b[i] in multiset(a);
      var x :| 0 <= x < |a| && a[x] == b[i];
    }
  }

  // ---------------------------------------------------------------- the cohort map

  ghost predicate Tabled(policy: Policy, results: seq<Result>, n: nat, cohorts: map<Key, Cohort>)
    requires n <= |results|
  {
    && (forall k :: k in cohorts ==>
          cohorts[k].key == k && cohorts[k].sampleSize > 0 && IsTable(multiset(results[..n]), policy, cohorts[k]))
    && (forall i :: 0 <= i < n ==> KeyOf(policy, results[i]) in cohorts)
  }

  lemma NothingTabled(policy: Policy, results: seq<Result>)
    ensures Tabled(policy, results, 0, map[])
  {
  }

  lemma TableNext(policy: Policy, results: seq<Result>, n: nat, cohorts: map<Key, Cohort>, c: Cohort, d: Cohort)
    requires n < |results| && Tabled(policy, results, n, cohorts)
    requires var key := KeyOf(policy, results[n]); c == if key in cohorts then cohorts[key] else Empty(key)
    requires d.key == c.key && forall q :: Answer(d, q) == Answer(c, q) + if Meets(results[n], q) then 1 else 0
    ensures Tabled(policy, results, n + 1, cohorts[KeyOf(policy, results[n]) := d])
  {
    hide KeyOf, Answer, IsTable, Meets;
    var r, pool := results[n], multiset(results[..n]);
    var key := KeyOf(policy, r);
    assert results[..n + 1] == results[..n] + [r];
    assert multiset(results[..n + 1]) == pool + multiset{r};
    if key !in cohorts {
      forall x | x in pool ensures KeyOf(policy, x) != key {
        var i :| 0 <= i < n && results[i] == x;
      }
      EmptyTable(pool, policy, key);
    }
    GrownTable(pool, policy, c, d, r);
    OneMoreSample(c, d, r);
    forall k | k in cohorts && k != key ensures IsTable(pool + multiset{r}, policy, cohorts[k]) {
      OtherTable(pool, policy, cohorts[k], r);
    }
  }

  lemma OneMoreSample(c: Cohort, d: Cohort, r: Result)
    requires forall q :: Answer(d, q) == Answer(c, q) + if Meets(r, q) then 1 else 0
    ensures d.sampleSize == c.sampleSize + 1
  {
    assert Answer(d, All) == Answer(c, All) + 1;
  }

  // ---------------------------------------------------------------- key order

  ghost predicate IsLeast(schema: Schema, keys: set<Key>, k: Key) {
    k in keys && forall other :: other in keys && other != k ==> schema.before(k, other)
  }

  lemma Compare(schema: Schema, a: Key, b: Key)
    requires TotalOrder(schema)
    ensures a == b || schema.before(a, b) || schema.before(b, a)
  {
  }

  lemma Chain(schema: Schema, a: Key, b: Key, c: Key)
    requires TotalOrder(schema) && schema.before(a, b) && schema.before(b, c)
    ensures schema.before(a, c)
  {
  }

  lemma {:induction false} LeastKey(schema: Schema, keys: set<Key>)
    requires TotalOrder(schema) && keys != {}
    ensures exists k :: IsLeast(schema, keys, k)
  {
    hide TotalOrder;
    var x :| x in keys;
    if keys == {x} {
      assert IsLeast(schema, keys, x);
    } else {
      LeastKey(schema, keys - {x});
      var y :| IsLeast(schema, keys - {x}, y);
      Compare(schema, x, y);
      var least := if schema.before(x, y) then x else y;
      forall other | other in keys && other != least ensures schema.before(least, other) {
        if least == x && other != y { Chain(schema, x, y, other); }
      }
      assert IsLeast(schema, keys, least);
    }
  }

  method InKeyOrder(schema: Schema, cohorts: map<Key, Cohort>) returns (list: seq<Cohort>)
    requires TotalOrder(schema) && forall k :: k in cohorts ==> cohorts[k].key == k
    ensures Ascending(schema, list) && forall c :: c in list <==> c.key in cohorts && cohorts[c.key] == c
  {
    hide TotalOrder;
    list := [];
    var rest := cohorts.Keys;
    while rest != {}
      invariant rest <= cohorts.Keys && Ascending(schema, list)
      invariant forall c :: c in list <==> c.key in cohorts && c.key !in rest && cohorts[c.key] == c
      invariant forall i, k :: 0 <= i < |list| && k in rest ==> schema.before(list[i].key, k)
      decreases |rest|
    {
      LeastKey(schema, rest);
      ghost var least :| IsLeast(schema, rest, least);
      var key :| key in rest && forall other :: other in rest && other != key ==> schema.before(key, other);
      list := list + [cohorts[key]];
      rest := rest - {key};
    }
  }

  lemma ListedAggregate(schema: Schema, policy: Policy, results: seq<Result>, cohorts: map<Key, Cohort>, list: seq<Cohort>)
    requires Tabled(policy, results, |results|, cohorts) && Ascending(schema, list)
    requires forall c :: c in list <==> c.key in cohorts && cohorts[c.key] == c
    ensures IsAggregate(schema, policy, multiset(results), list)
  {
    hide KeyOf, IsTable, Ascending;
    assert results[..|results|] == results;
    forall r | r in multiset(results) ensures HasCohort(list, KeyOf(policy, r)) {
      var i :| 0 <= i < |results| && results[i] == r;
      assert cohorts[KeyOf(policy, r)] in list;
    }
  }

  // ---------------------------------------------------------------- the pass

  /** Every key and count of the output is a fact about the bag of inputs; inputs are refused exactly when unacceptable. */
  method Aggregate(schema: Schema, policy: Policy, results: seq<Result>) returns (code: Code, output: seq<Cohort>)
    requires TotalOrder(schema)
    ensures code == Done <==> Acceptable(schema, policy, results)
    ensures code == Done ==> IsAggregate(schema, policy, multiset(results), output)
    ensures code == Done ==> TotalSize(output) == |results|
  {
    hide TotalOrder, IsAggregate, Tabled, Answer, Meets, ParseMonth, ResultMonth;
    output := [];
    var reference := ParseMonth(policy.referenceMonth);
    if reference.None? || policy.staleAfterMonths > 120 { return InvalidPolicy, []; }
    if |results| > MAXIMUM_RESULTS { return TooManyResults, []; }
    var ids: set<string> := {};
    var cohorts: map<Key, Cohort> := map[];
    NothingTabled(policy, results);
    for n := 0 to |results|
      invariant forall i :: 0 <= i < n ==> Usable(schema, policy, results[i])
      invariant forall i, j :: 0 <= i < j < n ==> results[i].resultId != results[j].resultId
      invariant forall id :: id in ids <==> exists i :: 0 <= i < n && results[i].resultId == id
      invariant Tabled(policy, results, n, cohorts)
    {
      var r := results[n];
      if !schema.valid(r) { return InvalidResult, []; }
      if r.resultId in ids { return DuplicateResultId, []; }
      ids := ids + {r.resultId};
      var observed := ResultMonth(r);
      if observed.None? { return InvalidResult, []; }
      if observed.value > reference.value { return FutureTimestamp, []; }
      var age := reference.value - observed.value;
      var key := Key(r.subject, if age > policy.staleAfterMonths then Stale else Current);
      var cohort := if key in cohorts then cohorts[key] else Empty(key);
      var counted := CountResult(cohort, r);
      KeysMatch(policy, results, n, cohorts);
      TableNext(policy, results, n, cohorts, cohort, counted);
      cohorts := cohorts[key := counted];
    }
    KeysMatch(policy, results, |results|, cohorts);
    var list := InKeyOrder(schema, cohorts);
    ListedAggregate(schema, policy, results, cohorts, list);
    NothingLost(schema, policy, multiset(results), list);
    code, output := Done, list;
  }

  lemma KeysMatch(policy: Policy, results: seq<Result>, n: nat, cohorts: map<Key, Cohort>)
    requires n <= |results| && Tabled(policy, results, n, cohorts)
    ensures forall k :: k in cohorts ==> cohorts[k].key == k
  {
  }

  /** Permuting the input changes neither success nor the output. */
  method AggregatePermuted(schema: Schema, policy: Policy, a: seq<Result>, b: seq<Result>)
    returns (first: (Code, seq<Cohort>), second: (Code, seq<Cohort>))
    requires TotalOrder(schema) && multiset(a) == multiset(b)
    ensures first.0 == Done <==> second.0 == Done
    ensures first.0 == Done ==> first.1 == second.1
  {
    hide TotalOrder, Acceptable, IsAggregate;
    var code, output := Aggregate(schema, policy, a);
    var code', output' := Aggregate(schema, policy, b);
    first, second := (code, output), (code', output');
    if code == Done {
      PermutedAcceptable(schema, policy, a, b);
      AggregateUnique(schema, policy, multiset(a), output, output');
    } else if code' == Done {
      PermutedAcceptable(schema, policy, b, a);
    }
  }
}
