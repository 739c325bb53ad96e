/** Grouping candidates: one pass that remembers only the first owner of each key finds the exact components. */
module CatalogGroups {
  import opened Words
  import opened CatalogModel
  import opened DisjointSets

  /** Root of every element. */
  ghost function Roots(p: seq<nat>, k: seq<nat>): (roots: seq<nat>)
    requires Forest(p, k)
    ensures |roots| == |p|
  {
    seq(|p|, i requires 0 <= i < |p| => Root(p, k, i))
  }

  /** The partition `after` is `before` with the classes of x and y joined. */
  ghost predicate Merged(before: seq<nat>, after: seq<nat>, x: nat, y: nat) {
    && x < |before| == |after| && y < |before|
    && forall i, j :: 0 <= i < |before| && 0 <= j < |before| ==>
         (after[i] == after[j] <==>
           || before[i] == before[j]
           || (before[i] == before[x] && before[j] == before[y])
           || (before[i] == before[y] && before[j] == before[x]))
  }

  /** Positions i and j hold candidates of one component (a candidate without any key is alone at its position). */
  ghost predicate Together(cs: seq<Candidate>, i: nat, j: nat)
    requires i < |cs| && j < |cs|
  {
    i == j || (Keys(cs[i]) != {} && Connected(multiset(cs), cs[i], cs[j]))
  }

  lemma TogetherTransitive(cs: seq<Candidate>, i: nat, j: nat, h: nat)
    requires i < |cs| && j < |cs| && h < |cs| && Together(cs, i, j) && Together(cs, j, h)
    ensures Together(cs, i, h)
  {
    if i != j && j != h { ConnectedTransitive(multiset(cs), cs[i], cs[j], cs[h]); }
  }

  lemma {:induction false} ChainKeepsKeys(pool: multiset<Candidate>, chain: seq<Candidate>)
    requires |chain| > 0 && IsChain(pool, chain) && Keys(chain[0]) != {}
    ensures Keys(chain[|chain| - 1]) != {}
  {
    if |chain| > 1 {
      var n := |chain| - 2;
      assert LinkedAt(chain, n);
    }
  }

  lemma TogetherSymmetric(cs: seq<Candidate>, i: nat, j: nat)
    requires i < |cs| && j < |cs| && Together(cs, i, j)
    ensures Together(cs, j, i)
  {
    if i != j {
      var pool := multiset(cs);
      ConnectedSymmetric(pool, cs[i], cs[j]);
      var chain :| |chain| > 0 && IsChain(pool, chain) && chain[0] == cs[i] && chain[|chain| - 1] == cs[j];
      ChainKeepsKeys(pool, chain);
    }
  }

  /** Only members of one component have been merged. */
  ghost predicate MergedSoundly(cs: seq<Candidate>, roots: seq<nat>) {
    && |roots| == |cs|
    && forall i, j :: 0 <= i < |cs| && 0 <= j < |cs| && roots[i] == roots[j] ==> Together(cs, i, j)
  }

  /** Every key seen so far has a first owner, and whoever has the key is in that owner's class. */
  ghost predicate Owned(cs: seq<Candidate>, roots: seq<nat>, owners: map<Key, nat>, done: set<(nat, Key)>) {
    && |roots| == |cs|
    && (forall i, key :: (i, key) in done ==>
          i < |cs| && key in Keys(cs[i]) && key in owners && owners[key] < |cs| && roots[i] == roots[owners[key]])
    && (forall key :: key in owners ==> (owners[key], key) in done)
  }

  lemma MergeSound(cs: seq<Candidate>, before: seq<nat>, after: seq<nat>, x: nat, y: nat)
    requires MergedSoundly(cs, before) && Merged(before, after, x, y) && Together(cs, x, y)
    ensures MergedSoundly(cs, after)
  {
    hide Together;
    TogetherSymmetric(cs, x, y);
    forall i, j | 0 <= i < |cs| && 0 <= j < |cs| && after[i] == after[j] ensures Together(cs, i, j) {
      if before[i] == before[x] && before[j] == before[y] {
        TogetherTransitive(cs, i, x, y);
        TogetherTransitive(cs, i, y, j);
      } else if before[i] == before[y] && before[j] == before[x] {
        TogetherTransitive(cs, i, y, x);
        TogetherTransitive(cs, i, x, j);
      }
    }
  }

  /** First owner of a key, or another candidate with it: either way the invariants go on to hold. */
  method Claim(sets: DisjointSet, cs: seq<Candidate>, owners: map<Key, nat>, key: Key, index: nat,
               ghost done: set<(nat, Key)>)
    returns (owners': map<Key, nat>)
    requires sets.Valid() && sets.parent.Length == |cs| && index < |cs| && key in Keys(cs[index])
    requires MergedSoundly(cs, Roots(sets.parent[..], sets.rank[..]))
    requires Owned(cs, Roots(sets.parent[..], sets.rank[..]), owners, done)
    modifies sets.parent, sets.rank
    ensures sets.Valid()
    ensures MergedSoundly(cs, Roots(sets.parent[..], sets.rank[..]))
    ensures Owned(cs, Roots(sets.parent[..], sets.rank[..]), owners', done + {(index, key)})
  {
    hide MergedSoundly, Balanced, Joins, Root, Roots, Owned, Merged;
    ghost var p, k := sets.parent[..], sets.rank[..];
    if key in owners {
      ghost var owner := owners[key];
      OwnerHasKey(cs, Roots(p, k), owners, done, key);
      sets.Unite(index, owners[key]);
      ghost var q, m := sets.parent[..], sets.rank[..];
      JoinsMerges(p, k, q, m, index, owner);
      SharedKeyTogether(cs, index, owner, key);
      MergeSound(cs, Roots(p, k), Roots(q, m), index, owner);
      MergeOwned(cs, Roots(p, k), Roots(q, m), owners, done, key, index);
      owners' := owners;
    } else {
      FirstOwned(cs, Roots(p, k), owners, done, key, index);
      owners' := owners[key := index];
    }
  }

  lemma OwnerHasKey(cs: seq<Candidate>, roots: seq<nat>, owners: map<Key, nat>, done: set<(nat, Key)>, key: Key)
    requires Owned(cs, roots, owners, done) && key in owners
    ensures owners[key] < |cs| && key in Keys(cs[owners[key]])
  {
    assert (owners[key], key) in done;
  }

  lemma MergeOwned(cs: seq<Candidate>, before: seq<nat>, after: seq<nat>, owners: map<Key, nat>,
                   done: set<(nat, Key)>, key: Key, index: nat)
    requires Owned(cs, before, owners, done) && key in owners && index < |cs| && key in Keys(cs[index])
    requires owners[key] < |cs| && Merged(before, after, index, owners[key])
    ensures Owned(cs, after, owners, done + {(index, key)})
  {
    forall i, other | (i, other) in done + {(index, key)}
      ensures i < |cs| && other in Keys(cs[i]) && other in owners && owners[other] < |cs|
              && after[i] == after[owners[other]]
    {
      if (i, other) in done { assert before[i] == before[owners[other]]; }
    }
  }

  lemma FirstOwned(cs: seq<Candidate>, roots: seq<nat>, owners: map<Key, nat>, done: set<(nat, Key)>, key: Key, index: nat)
    requires Owned(cs, roots, owners, done) && key !in owners && index < |cs| && key in Keys(cs[index])
    ensures Owned(cs, roots, owners[key := index], done + {(index, key)})
  {
  }

  lemma JoinsMerges(p: seq<nat>, k: seq<nat>, q: seq<nat>, m: seq<nat>, x: nat, y: nat)
    requires Forest(p, k) && Forest(q, m) && x < |p| == |q| && y < |p| && Joins(p, k, q, m, x, y)
    ensures Merged(Roots(p, k), Roots(q, m), x, y)
  {
    hide Forest, Root;
  }

  lemma SharedKeyTogether(cs: seq<Candidate>, i: nat, j: nat, key: Key)
    requires i < |cs| && j < |cs| && key in Keys(cs[i]) && key in Keys(cs[j])
    ensures Together(cs, i, j)
  {
    assert key in Keys(cs[i]) * Keys(cs[j]);
    assert cs[i] in multiset(cs) && cs[j] in multiset(cs);
    LinkedConnected(multiset(cs), cs[i], cs[j]);
  }

  /** Every key of the first n candidates has been claimed. */
  ghost predicate Covers(cs: seq<Candidate>, n: nat, done: set<(nat, Key)>)
    requires n <= |cs|
  {
    forall i, key :: 0 <= i < n && key in Keys(cs[i]) ==> (i, key) in done
  }

  lemma SameOwner(cs: seq<Candidate>, roots: seq<nat>, owners: map<Key, nat>, done: set<(nat, Key)>, i: nat, j: nat)
    requires Owned(cs, roots, owners, done) && Covers(cs, |cs|, done)
    requires i < |cs| && j < |cs| && Linked(cs[i], cs[j])
    ensures roots[i] == roots[j]
  {
    var key :| key in Keys(cs[i]) * Keys(cs[j]);
    assert (i, key) in done && (j, key) in done;
  }

  /** Following a chain of links never leaves the class, although each key records its first owner only. */
  lemma {:induction false} ChainJoined(cs: seq<Candidate>, roots: seq<nat>, owners: map<Key, nat>,
                                       done: set<(nat, Key)>, chain: seq<Candidate>, i: nat, j: nat)
    requires Owned(cs, roots, owners, done) && Covers(cs, |cs|, done) && i < |cs| && j < |cs|
    requires |chain| > 0 && IsChain(multiset(cs), chain) && chain[0] == cs[i] && chain[|chain| - 1] == cs[j]
    requires Keys(cs[i]) != {}
    ensures roots[i] == roots[j]
    decreases |chain|
  {
    hide Owned, Covers, Keys;
    if |chain| == 1 {
      SameOwner(cs, roots, owners, done, i, j);
    } else {
      assert LinkedAt(chain, 0);
      assert chain[1] in multiset(cs);
      var h :| 0 <= h < |cs| && cs[h] == chain[1];
      SameOwner(cs, roots, owners, done, i, h);
      var rest := chain[1..];
      forall n | 0 <= n < |rest| - 1 ensures LinkedAt(rest, n) {
        assert LinkedAt(chain, n + 1);
      }
      ChainJoined(cs, roots, owners, done, rest, h, j);
    }
  }

  /** The classes are exactly the components. */
  ghost predicate Exact(cs: seq<Candidate>, roots: seq<nat>) {
    && |roots| == |cs|
    && forall i, j :: 0 <= i < |cs| && 0 <= j < |cs| ==> (roots[i] == roots[j] <==> Together(cs, i, j))
  }

  lemma AllOwnedExact(cs: seq<Candidate>, roots: seq<nat>, owners: map<Key, nat>, done: set<(nat, Key)>)
    requires Owned(cs, roots, owners, done) && Covers(cs, |cs|, done) && MergedSoundly(cs, roots)
    ensures Exact(cs, roots)
  {
    hide Owned, Covers, Keys, IsChain;
    assert |roots| == |cs|;
    forall i, j | 0 <= i < |cs| && 0 <= j < |cs| && Together(cs, i, j) ensures roots[i] == roots[j] {
      if i != j {
        var chain :| |chain| > 0 && IsChain(multiset(cs), chain) && chain[0] == cs[i] && chain[|chain| - 1] == cs[j];
        ChainJoined(cs, roots, owners, done, chain, i, j);
      }
    }
  }

  lemma AloneAtFirst(cs: seq<Candidate>, p: seq<nat>, k: seq<nat>)
    requires Forest(p, k) && |p| == |cs| && forall x :: 0 <= x < |p| ==> Root(p, k, x) == x
    ensures MergedSoundly(cs, Roots(p, k)) && Owned(cs, Roots(p, k), map[], {}) && Covers(cs, 0, {})
  {
  }

  lemma StepCovers(cs: seq<Candidate>, index: nat, before: set<(nat, Key)>, done: set<(nat, Key)>)
    requires index < |cs| && Covers(cs, index, before) && before <= done
    requires StrongIdentity(cs[index]).Some? ==> (index, Strong(StrongIdentity(cs[index]).value)) in done
    requires forall n :: 0 <= n < |cs[index].executables| ==> (index, Path(cs[index].executables[n].key)) in done
    ensures Covers(cs, index + 1, done)
  {
  }

  /** The grouping pass: afterwards two positions have one root exactly when they are in one component. */
  method GroupCandidates(cs: seq<Candidate>) returns (sets: DisjointSet)
    ensures fresh(sets) && fresh(sets.parent) && fresh(sets.rank) && sets.Valid() && sets.parent.Length == |cs|
    ensures Exact(cs, Roots(sets.parent[..], sets.rank[..]))
  {
    hide MergedSoundly, Balanced, Root, Roots, Owned, Covers, StrongIdentity;
    sets := new DisjointSet(|cs|);
    AloneAtFirst(cs, sets.parent[..], sets.rank[..]);
    var owners: map<Key, nat> := map[];
    ghost var done: set<(nat, Key)> := {};
    for index := 0 to |cs|
      invariant fresh(sets.parent) && fresh(sets.rank) && sets.Valid() && sets.parent.Length == |cs|
      invariant MergedSoundly(cs, Roots(sets.parent[..], sets.rank[..]))
      invariant Owned(cs, Roots(sets.parent[..], sets.rank[..]), owners, done) && Covers(cs, index, done)
    {
      ghost var before := done;
      var c := cs[index];
      var strong := StrongIdentity(c);
      if strong.Some? {
        owners := Claim(sets, cs, owners, Strong(strong.value), index, done);
        done := done + {(index, Strong(strong.value))};
      }
      for n := 0 to |c.executables|
        invariant sets.Valid() && before <= done
        invariant strong.Some? ==> (index, Strong(strong.value)) in done
        invariant forall i :: 0 <= i < n ==> (index, Path(c.executables[i].key)) in done
        invariant MergedSoundly(cs, Roots(sets.parent[..], sets.rank[..]))
        invariant Owned(cs, Roots(sets.parent[..], sets.rank[..]), owners, done)
      {
        var key := Path(c.executables[n].key);
        assert c.executables[n] in c.executables;
        owners := Claim(sets, cs, owners, key, index, done);
        done := done + {(index, key)};
      }
      StepCovers(cs, index, before, done);
    }
    AllOwnedExact(cs, Roots(sets.parent[..], sets.rank[..]), owners, done);
  }
}
