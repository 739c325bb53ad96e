/** The whole catalog build, and why the order of its input does not matter. */
module CatalogBuild {
  import opened Words
  import opened CatalogModel
  import opened CatalogMerge
  import opened CatalogOutcomes

  const MAXIMUM_CANDIDATES := 8192

  // ---------------------------------------------------------------- the component of a candidate, as a bag

  ghost function Keep(pool: multiset<Candidate>, rest: multiset<Candidate>, c: Candidate): (g: multiset<Candidate>)
    ensures forall d :: g[d] == if Connected(pool, c, d) then rest[d] else 0
    decreases |rest|
  {
    if rest == multiset{} then multiset{}
    else
      var d :| d in rest;
      var g := Keep(pool, rest - multiset{d}, c);
      if Connected(pool, c, d) then g + multiset{d} else g
  }

  ghost function GroupOf(pool: multiset<Candidate>, c: Candidate): (g: multiset<Candidate>)
    ensures forall d :: g[d] == if Connected(pool, c, d) then pool[d] else 0
  {
    Keep(pool, pool, c)
  }

  /** In no component do candidates that tie disagree. */
  ghost predicate Unambiguous(pool: multiset<Candidate>) {
    forall c :: c in pool ==> Determined(GroupOf(pool, c))
  }

  /** Without ties a pool is unambiguous. */
  lemma TieFreeUnambiguous(pool: multiset<Candidate>)
    requires TieFree(pool)
    ensures Unambiguous(pool)
  {
    hide Connected, Determined;
    forall c | c in pool ensures Determined(GroupOf(pool, c)) {
      forall d | d in GroupOf(pool, c) ensures d in pool {}
      TieFreeDetermined(GroupOf(pool, c));
    }
  }

  lemma GroupDetermined(pool: multiset<Candidate>, c: Candidate)
    requires Unambiguous(pool) && c in pool
    ensures Determined(GroupOf(pool, c))
  {
    hide Determined, Connected;
  }

  lemma SameGroup(pool: multiset<Candidate>, c: Candidate, d: Candidate)
    requires c in pool && d in GroupOf(pool, c)
    ensures GroupOf(pool, d) == GroupOf(pool, c)
  {
    ConnectedSymmetric(pool, c, d);
    forall e ensures GroupOf(pool, d)[e] == GroupOf(pool, c)[e] {
      if Connected(pool, c, e) { ConnectedTransitive(pool, d, c, e); }
      if Connected(pool, d, e) { ConnectedTransitive(pool, c, d, e); }
    }
  }

  // ---------------------------------------------------------------- what the catalog must be, order aside

  /** Candidate c's component reconciles into the entry. */
  ghost predicate Yields(schema: Schema, pool: multiset<Candidate>, c: Candidate, identity: string, entry: Entry) {
    c in pool && IsOutcome(schema, GroupOf(pool, c), Built(identity, entry))
  }

  ghost predicate Arises(schema: Schema, pool: multiset<Candidate>, identity: string, entry: Entry) {
    exists c :: Yields(schema, pool, c, identity, entry)
  }

  predicate AscendingIds(entries: seq<Entry>) {
    forall i, j :: 0 <= i < j < |entries| ==> Less(entries[i].game.gameId, entries[j].game.gameId)
  }

  /** One entry for each component, under its identity; in ascending game id, and no two identities under one id. */
  ghost predicate Lists(schema: Schema, pool: multiset<Candidate>, made: map<string, Entry>, entries: seq<Entry>) {
    && (forall id :: id in made ==> Arises(schema, pool, id, made[id]))
    && (forall c :: c in pool ==> Served(schema, pool, made, c))
    && OneEach(schema, pool, made)
    && (forall e :: e in entries <==> Holds(made, e))
    && AscendingIds(entries)
    && DistinctIds(made)
  }

  /** No component is listed twice, under two of its possible identities. */
  ghost predicate OneEach(schema: Schema, pool: multiset<Candidate>, made: map<string, Entry>) {
    forall c, x, y :: x in made && y in made && Yields(schema, pool, c, x, made[x]) && Yields(schema, pool, c, y, made[y])
                      ==> x == y
  }

  ghost predicate Served(schema: Schema, pool: multiset<Candidate>, made: map<string, Entry>, c: Candidate) {
    exists id :: id in made && Yields(schema, pool, c, id, made[id])
  }

  ghost predicate Holds(made: map<string, Entry>, e: Entry) {
    exists id :: id in made && made[id] == e
  }

  ghost predicate DistinctIds(made: map<string, Entry>) {
    forall x, y :: x in made && y in made && made[x].game.gameId == made[y].game.gameId ==> x == y
  }

  function Games(entries: seq<Entry>): (games: seq<Game>)
    ensures |games| == |entries| && forall i :: 0 <= i < |games| ==> games[i] == entries[i].game
  {
    if entries == [] then [] else Games(entries[..|entries| - 1]) + [entries[|entries| - 1].game]
  }

  ghost predicate IsCatalog(schema: Schema, pool: multiset<Candidate>, entries: seq<Entry>) {
    && |pool| <= MAXIMUM_CANDIDATES
    && (exists made :: Lists(schema, pool, made, entries))
    && schema.validDocument(Games(entries))
  }

  lemma YieldsOnce(schema: Schema, pool: multiset<Candidate>, c: Candidate, id: string, e: Entry, id': string, e': Entry)
    requires Unambiguous(pool) && Yields(schema, pool, c, id, e) && Yields(schema, pool, c, id', e')
    ensures id == id' && e == e'
  {
    hide IsOutcome, Unambiguous, GroupOf, Determined;
    GroupDetermined(pool, c);
    OutcomeUnique(schema, GroupOf(pool, c), Built(id, e), Built(id', e'));
  }

  /** Whatever one list holds the other holds too. */
  lemma ListsShare(schema: Schema, pool: multiset<Candidate>, made: map<string, Entry>, entries: seq<Entry>,
                   made': map<string, Entry>, entries': seq<Entry>, e: Entry)
    requires Unambiguous(pool) && Lists(schema, pool, made, entries) && Lists(schema, pool, made', entries')
    requires e in entries
    ensures e in entries'
  {
    hide Unambiguous, Yields, AscendingIds, DistinctIds, OneEach;
    var id :| id in made && made[id] == e;
    assert Arises(schema, pool, id, e);
    var c :| Yields(schema, pool, c, id, e);
    assert c in pool by { YieldsMember(schema, pool, c, id, e); }
    assert Served(schema, pool, made', c);
    var id' :| id' in made' && Yields(schema, pool, c, id', made'[id']);
    YieldsOnce(schema, pool, c, id, e, id', made'[id']);
    assert Holds(made', e);
  }

  lemma YieldsMember(schema: Schema, pool: multiset<Candidate>, c: Candidate, id: string, e: Entry)
    requires Yields(schema, pool, c, id, e)
    ensures c in pool
  {
  }

  lemma {:induction false} SortedOnce(xs: seq<Entry>, ys: seq<Entry>)
    requires AscendingIds(xs) && AscendingIds(ys)
    requires forall e :: e in xs <==> e in ys
    ensures xs == ys
    decreases |xs|
  {
    hide Less;
    if |xs| == 0 {
      SomeEntry(ys);
    } else {
      assert xs[0] in ys && ys[0] in xs;
      var i :| 0 <= i < |ys| && ys[i] == xs[0];
      var j :| 0 <= j < |xs| && xs[j] == ys[0];
      LessTrichotomy(xs[0].game.gameId, ys[0].game.gameId);
      assert xs[0] == ys[0];
      var u, v := xs[1..], ys[1..];
      forall e ensures e in u <==> e in v { LaterEntry(xs, e); LaterEntry(ys, e); }
      SortedOnce(u, v);
      assert xs == [xs[0]] + u && ys == [ys[0]] + v;
    }
  }

  lemma SomeEntry(xs: seq<Entry>)
    ensures xs == [] || exists e :: e in xs
  {
    if xs != [] { assert xs[0] in xs; }
  }

  lemma LaterEntry(xs: seq<Entry>, e: Entry)
    requires AscendingIds(xs) && |xs| > 0
    ensures e in xs[1..] <==> e in xs && e != xs[0]
  {
    hide Less;
    LessTrichotomy(xs[0].game.gameId, xs[0].game.gameId);
    assert xs == [xs[0]] + xs[1..];
  }

  lemma InsertEntry(s: seq<Entry>, at: nat, e: Entry)
    requires AscendingIds(s) && at <= |s|
    requires forall i :: 0 <= i < at ==> !Less(e.game.gameId, s[i].game.gameId)
    requires at < |s| ==> Less(e.game.gameId, s[at].game.gameId)
    requires forall i :: 0 <= i < |s| ==> s[i].game.gameId != e.game.gameId
    ensures AscendingIds(s[..at] + [e] + s[at..])
    ensures forall x :: x in s[..at] + [e] + s[at..] <==> x in s || x == e
  {
    hide Less;
    var t := s[..at] + [e] + s[at..];
    forall i, j | 0 <= i < j < |t| ensures Less(t[i].game.gameId, t[j].game.gameId) {
      if j == at {
        LessTrichotomy(s[i].game.gameId, e.game.gameId);
      } else if i == at && j - 1 > at {
        LessTransitive(e.game.gameId, s[at].game.gameId, s[j - 1].game.gameId);
      }
    }
    assert s == s[..at] + s[at..];
  }

  lemma ListsUnique(schema: Schema, pool: multiset<Candidate>, made: map<string, Entry>, entries: seq<Entry>,
                    made': map<string, Entry>, entries': seq<Entry>)
    requires Unambiguous(pool) && Lists(schema, pool, made, entries) && Lists(schema, pool, made', entries')
    ensures entries == entries'
  {
    hide Unambiguous, AscendingIds, Arises, Served, Holds, DistinctIds, OneEach;
    forall e ensures e in entries <==> e in entries' {
      if e in entries { ListsShare(schema, pool, made, entries, made', entries', e); }
      if e in entries' { ListsShare(schema, pool, made', entries', made, entries, e); }
    }
    SortedOnce(entries, entries');
  }

  /** An unambiguous bag of candidates has at most one catalog. */
  lemma CatalogUnique(schema: Schema, pool: multiset<Candidate>, xs: seq<Entry>, ys: seq<Entry>)
    requires Unambiguous(pool) && IsCatalog(schema, pool, xs) && IsCatalog(schema, pool, ys)
    ensures xs == ys
  {
    hide Unambiguous, Lists;
    var made :| Lists(schema, pool, made, xs);
    var made' :| Lists(schema, pool, made', ys);
    ListsUnique(schema, pool, made, xs, made', ys);
  }
}
