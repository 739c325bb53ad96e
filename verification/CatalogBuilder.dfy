/** buildLocalGameCatalog: collect the groups, build their entries, sort, validate; and the permutation theorem. */
module CatalogBuilder {
  import opened Words
  import opened CatalogModel
  import opened CatalogMerge
  import opened CatalogOutcomes
  import opened CatalogEntry
  import opened CatalogGroups
  import opened CatalogBuild
  import opened CatalogExact
  import opened DisjointSets

  // ---------------------------------------------------------------- groups in input order

  /** The candidates among the first n with the given root, in order. */
  ghost function Members(cs: seq<Candidate>, roots: seq<nat>, n: nat, r: nat): seq<Candidate>
    requires n <= |cs| == |roots|
  {
    if n == 0 then []
    else if roots[n - 1] == r then Members(cs, roots, n - 1, r) + [cs[n - 1]]
    else Members(cs, roots, n - 1, r)
  }

  lemma {:induction false} MembersFrom(cs: seq<Candidate>, roots: seq<nat>, n: nat, r: nat)
    requires n <= |cs| == |roots|
    ensures forall c :: c in Members(cs, roots, n, r) <==> exists i :: 0 <= i < n && roots[i] == r && cs[i] == c
  {
    if n > 0 { MembersFrom(cs, roots, n - 1, r); }
  }

  lemma {:induction false} MembersCount(cs: seq<Candidate>, roots: seq<nat>, n: nat, i: nat, d: Candidate)
    requires n <= |cs| && Exact(cs, roots) && i < |cs| && Keys(cs[i]) != {}
    ensures multiset(Members(cs, roots, n, roots[i]))[d] ==
            if Connected(multiset(cs), cs[i], d) then multiset(cs[..n])[d] else 0
  {
    hide Keys, Connected;
    if n > 0 {
      MembersCount(cs, roots, n - 1, i, d);
      assert cs[..n] == cs[..n - 1] + [cs[n - 1]];
      assert cs[i] in multiset(cs);
      ConnectedSelf(multiset(cs), cs[i]);
      assert roots[i] == roots[n - 1] <==> Together(cs, i, n - 1);
    }
  }

  /** The members of a root are the candidate's component, with multiplicities. */
  lemma MembersAreGroup(cs: seq<Candidate>, roots: seq<nat>, i: nat)
    requires Exact(cs, roots) && i < |cs| && Keys(cs[i]) != {}
    ensures multiset(Members(cs, roots, |cs|, roots[i])) == GroupOf(multiset(cs), cs[i])
  {
    hide Exact, Keys, Connected, Members;
    assert |roots| == |cs| by { ExactSize(cs, roots); }
    var g := multiset(Members(cs, roots, |cs|, roots[i]));
    forall d ensures g[d] == GroupOf(multiset(cs), cs[i])[d] {
      MembersCount(cs, roots, |cs|, i, d);
      assert cs[..|cs|] == cs;
    }
  }

  lemma ExactSize(cs: seq<Candidate>, roots: seq<nat>)
    requires Exact(cs, roots)
    ensures |roots| == |cs|
  {
  }

  ghost predicate Grouped(cs: seq<Candidate>, roots: seq<nat>, n: nat, groups: map<nat, seq<Candidate>>) {
    && n <= |cs| == |roots|
    && (forall i :: 0 <= i < n ==> roots[i] in groups)
    && (forall r :: r in groups ==> groups[r] != [] && groups[r] == Members(cs, roots, n, r))
  }

  lemma {:induction false} NoMembersYet(cs: seq<Candidate>, roots: seq<nat>, n: nat, r: nat)
    requires n <= |cs| == |roots| && forall i :: 0 <= i < n ==> roots[i] != r
    ensures Members(cs, roots, n, r) == []
  {
    if n > 0 { NoMembersYet(cs, roots, n - 1, r); }
  }

  lemma PushMember(cs: seq<Candidate>, roots: seq<nat>, n: nat, groups: map<nat, seq<Candidate>>)
    requires Grouped(cs, roots, n, groups) && n < |cs|
    ensures var r := roots[n];
      Grouped(cs, roots, n + 1, groups[r := (if r in groups then groups[r] else []) + [cs[n]]])
  {
    if roots[n] !in groups { NoMembersYet(cs, roots, n, roots[n]); }
  }

  lemma RootStays(p: seq<nat>, q: seq<nat>, k: seq<nat>, n: nat)
    requires SameRoots(p, q, k) && n < |p|
    ensures |q| == |p| && Root(q, k, n) == Roots(p, k)[n] < |p|
  {
  }

  method CollectGroups(sets: DisjointSet, cs: seq<Candidate>) returns (groups: map<nat, seq<Candidate>>)
    requires sets.Valid() && sets.parent.Length == |cs|
    modifies sets.parent
    ensures Grouped(cs, Roots(old(sets.parent[..]), old(sets.rank[..])), |cs|, groups)
    ensures forall r :: r in groups ==> r < |cs|
  {
    hide Grouped, Balanced, Root, Members, Forest, SameRoots, Roots;
    ghost var p, k := sets.parent[..], sets.rank[..];
    ghost var roots := Roots(p, k);
    groups := map[];
    NothingChanged(p, k);
    assert Grouped(cs, roots, 0, groups) by { NothingGrouped(cs, roots); }
    for n := 0 to |cs|
      invariant sets.Valid() && sets.rank[..] == k && SameRoots(p, sets.parent[..], k)
      invariant Grouped(cs, roots, n, groups) && forall r :: r in groups ==> r < |cs|
    {
      PushMember(cs, roots, n, groups);
      ghost var q := sets.parent[..];
      var r := sets.Find(n);
      RootStays(p, q, k, n);
      SameRootsTwice(p, q, sets.parent[..], k);
      groups := groups[r := (if r in groups then groups[r] else []) + [cs[n]]];
    }
  }

  lemma NothingGrouped(cs: seq<Candidate>, roots: seq<nat>)
    requires |roots| == |cs|
    ensures Grouped(cs, roots, 0, map[])
  {
  }

  // ---------------------------------------------------------------- the build

  predicate DistinctEntries(entries: seq<Entry>) {
    forall i, j :: 0 <= i < j < |entries| ==> entries[i].game.gameId != entries[j].game.gameId
  }

  method SortEntries(entries: seq<Entry>) returns (sorted: seq<Entry>)
    requires DistinctEntries(entries)
    ensures AscendingIds(sorted) && forall e :: e in sorted <==> e in entries
  {
    hide Less;
    sorted := [];
    for n := 0 to |entries|
      invariant AscendingIds(sorted)
      invariant forall e :: e in sorted <==> e in entries[..n]
    {
      var e := entries[n];
      var at := 0;
      while at < |sorted| && !Less(e.game.gameId, sorted[at].game.gameId)
        invariant at <= |sorted| && forall i :: 0 <= i < at ==> !Less(e.game.gameId, sorted[i].game.gameId)
      {
        at := at + 1;
      }
      forall i | 0 <= i < |sorted| ensures sorted[i].game.gameId != e.game.gameId { assert sorted[i] in entries[..n]; }
      InsertEntry(sorted, at, e);
      sorted := sorted[..at] + [e] + sorted[at..];
    }
    assert entries[..|entries|] == entries;
  }

  /** What the first roots have produced. */
  ghost predicate Progress(schema: Schema, cs: seq<Candidate>, roots: seq<nat>, done: nat, entries: seq<Entry>,
                           made: map<string, Entry>, source: map<string, nat>, ids: map<string, string>) {
    && |roots| == |cs|
    && (forall i :: 0 <= i < |cs| && roots[i] < done ==> Served(schema, multiset(cs), made, cs[i]))
    && (forall id :: id in made ==> Sourced(schema, cs, roots, done, source, id, made[id]))
    && OncePerRoot(roots, source, made)
    && Shown(entries, made)
    && KnownIds(schema, ids, made)
  }

  /** Different identities were made from different roots. */
  ghost predicate OncePerRoot(roots: seq<nat>, source: map<string, nat>, made: map<string, Entry>) {
    && (forall x :: x in made ==> x in source && source[x] < |roots|)
    && (forall x, y :: x in made && y in made && roots[source[x]] == roots[source[y]] ==> x == y)
  }

  /** The entries are those made, under different game ids. */
  ghost predicate Shown(entries: seq<Entry>, made: map<string, Entry>) {
    DistinctEntries(entries) && forall e :: e in entries <==> Holds(made, e)
  }

  /** The game ids taken so far, each by the identity that made the entry. */
  ghost predicate KnownIds(schema: Schema, ids: map<string, string>, made: map<string, Entry>) {
    && (forall id :: id in made ==> Known(schema, ids, id, made[id]))
    && (forall gid :: gid in ids ==> ids[gid] in made && schema.gameId(ids[gid]) == gid)
  }

  ghost predicate Sourced(schema: Schema, cs: seq<Candidate>, roots: seq<nat>, done: nat, source: map<string, nat>,
                          id: string, e: Entry) {
    && id in source && source[id] < |cs| == |roots| && roots[source[id]] < done
    && Yields(schema, multiset(cs), cs[source[id]], id, e)
  }

  ghost predicate Known(schema: Schema, ids: map<string, string>, id: string, e: Entry) {
    e.game.gameId == schema.gameId(id) && e.game.gameId in ids && ids[e.game.gameId] == id
  }

  lemma SkipRoot(schema: Schema, cs: seq<Candidate>, roots: seq<nat>, r: nat, entries: seq<Entry>,
                 made: map<string, Entry>, source: map<string, nat>, ids: map<string, string>)
    requires Progress(schema, cs, roots, r, entries, made, source, ids) && forall i :: 0 <= i < |roots| ==> roots[i] != r
    ensures Progress(schema, cs, roots, r + 1, entries, made, source, ids)
  {
    hide Served, Yields, Shown, KnownIds, OncePerRoot;
  }

  lemma OneIdentityOneRoot(schema: Schema, cs: seq<Candidate>, roots: seq<nat>, p: nat, q: nat, id: string, e: Entry, f: Entry)
    requires Exact(cs, roots) && p < |cs| && q < |cs| && Keys(cs[p]) != {}
    requires Yields(schema, multiset(cs), cs[p], id, e) && Yields(schema, multiset(cs), cs[q], id, f)
    ensures roots[p] == roots[q]
  {
    hide Yields, Keys, Connected;
    IdentityIsOwn(schema, multiset(cs), cs[p], cs[q], id, e, f);
    assert Together(cs, p, q);
  }

  /** The group of a new root brings a new identity. */
  lemma FreshIdentity(schema: Schema, cs: seq<Candidate>, roots: seq<nat>, r: nat, entries: seq<Entry>,
                      made: map<string, Entry>, source: map<string, nat>, ids: map<string, string>, p: nat,
                      id: string, e: Entry)
    requires Progress(schema, cs, roots, r, entries, made, source, ids) && Exact(cs, roots)
    requires p < |cs| && roots[p] == r && Keys(cs[p]) != {} && Yields(schema, multiset(cs), cs[p], id, e)
    ensures id !in made
  {
    hide Served, Shown, KnownIds, Yields, Keys, Exact, OncePerRoot;
    if id in made { OneIdentityOneRoot(schema, cs, roots, p, source[id], id, e, made[id]); }
  }

  lemma RootServed(schema: Schema, cs: seq<Candidate>, roots: seq<nat>, p: nat, i: nat, made: map<string, Entry>,
                   id: string, e: Entry)
    requires Exact(cs, roots) && p < |cs| && i < |cs| && roots[i] == roots[p] && Keys(cs[p]) != {}
    requires Yields(schema, multiset(cs), cs[p], id, e) && id in made && made[id] == e
    ensures Served(schema, multiset(cs), made, cs[i])
  {
    hide Connected, IsOutcome, Keys;
    assert cs[p] in multiset(cs) && cs[i] in multiset(cs);
    ConnectedSelf(multiset(cs), cs[p]);
    assert Together(cs, p, i);
    SameGroup(multiset(cs), cs[p], cs[i]);
    assert Yields(schema, multiset(cs), cs[i], id, made[id]);
  }

  lemma MakeKnown(schema: Schema, ids: map<string, string>, made: map<string, Entry>, id: string, e: Entry)
    requires KnownIds(schema, ids, made) && id !in made && !Clashes(schema, ids, id) && e.game.gameId == schema.gameId(id)
    ensures KnownIds(schema, ids[schema.gameId(id) := id], made[id := e]) && schema.gameId(id) !in ids
  {
  }

  lemma MakeShown(schema: Schema, ids: map<string, string>, entries: seq<Entry>, made: map<string, Entry>, id: string, e: Entry)
    requires KnownIds(schema, ids, made) && Shown(entries, made) && id !in made && e.game.gameId !in ids
    ensures Shown(entries + [e], made[id := e])
  {
    forall f ensures f in entries + [e] <==> Holds(made[id := e], f) { HoldsMore(made, id, e, f); }
    hide Holds;
    forall i | 0 <= i < |entries| ensures entries[i].game.gameId != e.game.gameId {
      assert entries[i] in entries;
      HeldKnown(schema, ids, made, entries[i]);
    }
  }

  lemma HeldKnown(schema: Schema, ids: map<string, string>, made: map<string, Entry>, e: Entry)
    requires Holds(made, e) && KnownIds(schema, ids, made)
    ensures e.game.gameId in ids
  {
  }

  lemma AddEntry(schema: Schema, cs: seq<Candidate>, roots: seq<nat>, r: nat, entries: seq<Entry>,
                 made: map<string, Entry>, source: map<string, nat>, ids: map<string, string>, p: nat,
                 id: string, e: Entry)
    requires Progress(schema, cs, roots, r, entries, made, source, ids) && Exact(cs, roots)
    requires p < |cs| && roots[p] == r && Keys(cs[p]) != {} && Yields(schema, multiset(cs), cs[p], id, e)
    requires !Clashes(schema, ids, id)
    ensures Progress(schema, cs, roots, r + 1, entries + [e], made[id := e], source[id := p],
                     ids[schema.gameId(id) := id])
  {
    hide Served, Shown, KnownIds, Exact, Yields, Keys, Clashes, OncePerRoot;
    FreshIdentity(schema, cs, roots, r, entries, made, source, ids, p, id, e);
    EntryId(schema, multiset(cs), cs[p], id, e);
    MakeKnown(schema, ids, made, id, e);
    MakeShown(schema, ids, entries, made, id, e);
    NewRoot(schema, cs, roots, r, source, made, p, id, e);
    var made' := made[id := e];
    forall i | 0 <= i < |cs| && roots[i] < r + 1 ensures Served(schema, multiset(cs), made', cs[i]) {
      if roots[i] < r {
        StillServed(schema, multiset(cs), made, id, e, cs[i]);
      } else {
        RootServed(schema, cs, roots, p, i, made', id, e);
      }
    }
  }

  lemma NewRoot(schema: Schema, cs: seq<Candidate>, roots: seq<nat>, r: nat, source: map<string, nat>,
                made: map<string, Entry>, p: nat, id: string, e: Entry)
    requires forall x :: x in made ==> Sourced(schema, cs, roots, r, source, x, made[x])
    requires OncePerRoot(roots, source, made) && p < |roots| && roots[p] == r && id !in made
    ensures OncePerRoot(roots, source[id := p], made[id := e])
  {
    hide Yields;
  }

  /** What is made from different roots belongs to different components. */
  lemma MadeOnce(schema: Schema, cs: seq<Candidate>, roots: seq<nat>, source: map<string, nat>, made: map<string, Entry>,
                 c: Candidate, x: string, y: string)
    requires Exact(cs, roots) && OncePerRoot(roots, source, made) && x in made && y in made
    requires Sourced(schema, cs, roots, |cs|, source, x, made[x]) && Sourced(schema, cs, roots, |cs|, source, y, made[y])
    requires Yields(schema, multiset(cs), c, x, made[x]) && Yields(schema, multiset(cs), c, y, made[y])
    ensures x == y
  {
    hide Yields, Keys, Connected;
    var p, q, pool := source[x], source[y], multiset(cs);
    YieldsKeys(schema, pool, cs[p], x, made[x]);
    IdentityIsOwn(schema, pool, cs[p], c, x, made[x], made[x]);
    IdentityIsOwn(schema, pool, c, cs[q], y, made[y], made[y]);
    ConnectedTransitive(pool, cs[p], c, cs[q]);
    assert Together(cs, p, q);
  }

  lemma AllDone(schema: Schema, cs: seq<Candidate>, roots: seq<nat>, entries: seq<Entry>, made: map<string, Entry>,
                source: map<string, nat>, ids: map<string, string>, sorted: seq<Entry>)
    requires Exact(cs, roots) && Progress(schema, cs, roots, |cs|, entries, made, source, ids)
    requires forall i :: 0 <= i < |cs| ==> roots[i] < |cs|
    requires AscendingIds(sorted) && forall e :: e in sorted <==> e in entries
    ensures Lists(schema, multiset(cs), made, sorted)
  {
    hide Served, Holds, Yields, DistinctEntries, AscendingIds, Exact, OncePerRoot;
    forall c, x, y | x in made && y in made && Yields(schema, multiset(cs), c, x, made[x])
                     && Yields(schema, multiset(cs), c, y, made[y])
      ensures x == y
    {
      MadeOnce(schema, cs, roots, source, made, c, x, y);
    }
    forall id | id in made ensures Arises(schema, multiset(cs), id, made[id]) {
      assert Sourced(schema, cs, roots, |cs|, source, id, made[id]);
    }
    forall c | c in multiset(cs) ensures Served(schema, multiset(cs), made, c) {
      var i :| 0 <= i < |cs| && cs[i] == c;
    }
    forall x, y | x in made && y in made && made[x].game.gameId == made[y].game.gameId ensures x == y {
      assert Known(schema, ids, x, made[x]) && Known(schema, ids, y, made[y]);
    }
  }

  /** The bag that position p's group must be. */
  ghost predicate IsGroupAt(cs: seq<Candidate>, p: nat, g: multiset<Candidate>) {
    && p < |cs|
    && (if Keys(cs[p]) == {} then forall d :: d in g ==> d == cs[p] else g == GroupOf(multiset(cs), cs[p]))
  }

  lemma GroupReady(cs: seq<Candidate>, roots: seq<nat>, groups: map<nat, seq<Candidate>>, r: nat) returns (p: nat)
    requires Exact(cs, roots) && Grouped(cs, roots, |cs|, groups) && r in groups
    ensures p < |cs| == |roots| && roots[p] == r && groups[r] != [] && (forall c :: c in groups[r] ==> c in cs)
    ensures IsGroupAt(cs, p, multiset(groups[r]))
  {
    hide Connected, Keys, Members;
    MembersFrom(cs, roots, |cs|, r);
    assert groups[r][0] in groups[r];
    p :| 0 <= p < |cs| && roots[p] == r && cs[p] == groups[r][0];
    if Keys(cs[p]) == {} {
      forall d | d in multiset(groups[r]) ensures d == cs[p] {
        assert d in groups[r];
        var j :| 0 <= j < |cs| && roots[j] == r && cs[j] == d;
        assert Together(cs, p, j);
      }
    } else {
      MembersAreGroup(cs, roots, p);
    }
  }

  lemma BuiltYields(schema: Schema, cs: seq<Candidate>, p: nat, g: multiset<Candidate>, id: string, e: Entry)
    requires IsGroupAt(cs, p, g) && IsOutcome(schema, g, Built(id, e))
    ensures Keys(cs[p]) != {} && Yields(schema, multiset(cs), cs[p], id, e)
  {
    hide IsOutcome, Keys, GroupOf;
    if Keys(cs[p]) == {} { KeylessOutcome(schema, g, cs[p], Built(id, e)); }
  }

  lemma BadOutcome(schema: Schema, cs: seq<Candidate>, p: nat, g: multiset<Candidate>, o: Outcome)
    requires IsGroupAt(cs, p, g) && IsOutcome(schema, g, o) && !o.Built?
    ensures !Accepting(schema, multiset(cs))
  {
    hide IsOutcome, Keys, GroupOf, Separate, Lists;
    assert cs[p] in multiset(cs);
    if Keys(cs[p]) == {} { KeylessFails(schema, multiset(cs), cs[p]); }
  }

  /** A candidate with neither identity nor executable can have no entry. */
  lemma KeylessFails(schema: Schema, pool: multiset<Candidate>, c: Candidate)
    requires c in pool && Keys(c) == {}
    ensures !AlwaysBuilds(schema, GroupOf(pool, c))
  {
    hide Keys, AlwaysBuilds, Yields;
    if AlwaysBuilds(schema, GroupOf(pool, c)) {
      var id, e := BuiltFor(schema, pool, c);
      YieldsKeys(schema, pool, c, id, e);
    }
  }

  lemma BadIdentity(schema: Schema, cs: seq<Candidate>, roots: seq<nat>, r: nat, entries: seq<Entry>,
                    made: map<string, Entry>, source: map<string, nat>, ids: map<string, string>,
                    p: nat, g: multiset<Candidate>, id: string)
    requires Exact(cs, roots) && Progress(schema, cs, roots, r, entries, made, source, ids)
    requires IsGroupAt(cs, p, g) && p < |roots| && roots[p] == r && Identifies(g, id) && Clashes(schema, ids, id)
    ensures !Accepting(schema, multiset(cs))
  {
    hide Exact, Identifies, Keys, GroupOf, Yields, Served, Shown, OncePerRoot, Connected, Lists, IsOutcome;
    var o := IdentifiedOutcome(schema, g, id);
    if !o.Built? {
      BadOutcome(schema, cs, p, g, o);
    } else {
      BuiltYields(schema, cs, p, g, id, o.entry);
      var other := ids[schema.gameId(id)];
      assert Sourced(schema, cs, roots, r, source, other, made[other]);
      if Connected(multiset(cs), cs[p], cs[source[other]]) { ConnectedRoots(cs, roots, p, source[other]); }
    }
  }

  lemma ConnectedRoots(cs: seq<Candidate>, roots: seq<nat>, p: nat, q: nat)
    requires Exact(cs, roots) && p < |cs| && q < |cs| && Keys(cs[p]) != {} && Connected(multiset(cs), cs[p], cs[q])
    ensures |roots| == |cs| && roots[p] == roots[q]
  {
    hide Keys, Connected;
    assert Together(cs, p, q);
  }

  lemma NoneYet(schema: Schema, cs: seq<Candidate>, roots: seq<nat>)
    requires |roots| == |cs|
    ensures Progress(schema, cs, roots, 0, [], map[], map[], map[])
  {
  }

  lemma RootsBelow(cs: seq<Candidate>, roots: seq<nat>, groups: map<nat, seq<Candidate>>)
    requires Grouped(cs, roots, |cs|, groups) && forall r :: r in groups ==> r < |cs|
    ensures |roots| == |cs| && forall i :: 0 <= i < |cs| ==> roots[i] in groups && roots[i] < |cs|
  {
  }

  /** The entries of all groups, in order of their roots; None as soon as one group has no entry. */
  method BuildEntries(schema: Schema, cs: seq<Candidate>, groups: map<nat, seq<Candidate>>, ghost roots: seq<nat>)
    returns (entries: Option<seq<Entry>>, ghost made: map<string, Entry>, ghost source: map<string, nat>,
             ghost ids: map<string, string>)
    requires forall c :: c in cs ==> DistinctKeys(c.executables)
    requires Exact(cs, roots) && Grouped(cs, roots, |cs|, groups) && forall r :: r in groups ==> r < |cs|
    ensures entries.Some? ==> Progress(schema, cs, roots, |cs|, entries.value, made, source, ids)
    ensures entries.None? ==> !Accepting(schema, multiset(cs))
  {
    hide DistinctKeys, Exact, Grouped, Progress, IsGroupAt, Accepting, IsOutcome, Identifies, Clashes, Keys, Yields;
    made, source := map[], map[];
    var list: seq<Entry> := [];
    var taken: map<string, string> := map[];
    RootsBelow(cs, roots, groups);
    NoneYet(schema, cs, roots);
    for root := 0 to |cs|
      invariant Progress(schema, cs, roots, root, list, made, source, taken)
    {
      ids := taken;
      if root in groups {
        ghost var p := GroupReady(cs, roots, groups, root);
        ghost var g := multiset(groups[root]);
        var attempt, taken' := BuildEntry(schema, groups[root], taken);
        if attempt.IdCollision? {
          BadIdentity(schema, cs, roots, root, list, made, source, taken, p, g, attempt.identity);
          entries := None;
          return;
        }
        var o := attempt.outcome;
        if !o.Built? {
          BadOutcome(schema, cs, p, g, o);
          entries := None;
          return;
        }
        BuiltYields(schema, cs, p, g, o.identity, o.entry);
        AddEntry(schema, cs, roots, root, list, made, source, taken, p, o.identity, o.entry);
        list := list + [o.entry];
        taken := taken';
        made, source := made[o.identity := o.entry], source[o.identity := p];
      } else {
        SkipRoot(schema, cs, roots, root, list, made, source, taken);
      }
    }
    entries := Some(list);
    ids := taken;
  }

  lemma ProgressDistinct(schema: Schema, cs: seq<Candidate>, roots: seq<nat>, r: nat, entries: seq<Entry>,
                         made: map<string, Entry>, source: map<string, nat>, ids: map<string, string>)
    requires Progress(schema, cs, roots, r, entries, made, source, ids)
    ensures DistinctEntries(entries)
  {
  }

  lemma CatalogFound(schema: Schema, pool: multiset<Candidate>, made: map<string, Entry>, entries: seq<Entry>)
    requires Lists(schema, pool, made, entries) && schema.validDocument(Games(entries)) && |pool| <= MAXIMUM_CANDIDATES
    ensures IsCatalog(schema, pool, entries)
  {
    hide Lists;
  }

  /**
   * buildLocalGameCatalog, from the normalized candidates on. Without ambiguity it succeeds exactly when the bag has
   * a catalog; whatever the ambiguity, it fails only if some order of the candidates that tie must fail.
   */
  method BuildCatalog(schema: Schema, cs: seq<Candidate>) returns (catalog: Option<seq<Entry>>)
    requires forall c :: c in cs ==> DistinctKeys(c.executables)
    ensures catalog.Some? ==> IsCatalog(schema, multiset(cs), catalog.value)
    ensures catalog.None? ==> !Accepting(schema, multiset(cs))
    ensures catalog.None? && Unambiguous(multiset(cs)) ==> NoCatalog(schema, multiset(cs))
  {
    hide DistinctKeys, Exact, Grouped, Progress, Unambiguous, NoCatalog, IsCatalog, Lists, Roots, Root, Balanced, Forest,
         DistinctEntries, AlwaysBuilds, Separate;
    catalog := None;
    if Unambiguous(multiset(cs)) { NoCatalogExactly(schema, multiset(cs)); }
    if |cs| > MAXIMUM_CANDIDATES { return; }
    var sets := GroupCandidates(cs);
    ghost var roots := Roots(sets.parent[..], sets.rank[..]);
    var groups := CollectGroups(sets, cs);
    var entries, made, source, ids := BuildEntries(schema, cs, groups, roots);
    if entries.None? { return; }
    ProgressDistinct(schema, cs, roots, |cs|, entries.value, made, source, ids);
    var sorted := SortEntries(entries.value);
    RootsBelow(cs, roots, groups);
    AllDone(schema, cs, roots, entries.value, made, source, ids, sorted);
    if schema.validDocument(Games(sorted)) {
      CatalogFound(schema, multiset(cs), made, sorted);
      catalog := Some(sorted);
    }
  }

  /** Permuting the candidates changes neither success nor the catalog, unless candidates that tie disagree. */
  method BuildPermuted(schema: Schema, cs: seq<Candidate>, ds: seq<Candidate>)
    returns (first: Option<seq<Entry>>, second: Option<seq<Entry>>)
    requires multiset(cs) == multiset(ds)
    requires forall c :: c in cs ==> DistinctKeys(c.executables)
    ensures Unambiguous(multiset(cs)) ==> first == second
    ensures Accepting(schema, multiset(cs)) ==> first.Some? && second.Some?
  {
    hide DistinctKeys, Unambiguous, IsCatalog, Accepting;
    SameMembers(cs, ds);
    first := BuildCatalog(schema, cs);
    second := BuildCatalog(schema, ds);
    if Unambiguous(multiset(cs)) && first.Some? && second.Some? {
      CatalogUnique(schema, multiset(cs), first.value, second.value);
    }
  }
}
