/** When a bag of candidates has a catalog, and when it has exactly one. */
module CatalogExact {
  import opened Words
  import opened CatalogModel
  import opened CatalogMerge
  import opened CatalogOutcomes
  import opened CatalogBuild

  // ---------------------------------------------------------------- identities separate groups

  lemma IdentityForm(c: Candidate)
    requires IdentityOf(c).Some?
    ensures |IdentityOf(c).value| >= 4
    ensures StrongIdentity(c).Some? ==> IdentityOf(c).value[0] == 'p' && Strong(IdentityOf(c).value) in Keys(c)
    ensures StrongIdentity(c).None? ==> IdentityOf(c).value[0] == 'e' && Path(IdentityOf(c).value[4..]) in Keys(c)
    ensures Keys(c) != {}
  {
    if StrongIdentity(c).None? {
      assert IdentityOf(c).value[4..] == c.executables[0].key;
      assert c.executables[0] in c.executables;
    }
  }

  lemma SharedIdentity(c: Candidate, d: Candidate)
    requires IdentityOf(c).Some? && IdentityOf(c) == IdentityOf(d)
    ensures Linked(c, d)
  {
    hide IdentityOf, Keys, StrongIdentity;
    IdentityForm(c);
    IdentityForm(d);
    var id := IdentityOf(c).value;
    var key := if StrongIdentity(c).Some? then Strong(id) else Path(id[4..]);
    assert key in Keys(c) * Keys(d);
  }

  /** An outcome's entry has the id of an identity that the group has. */
  lemma OutcomeId(schema: Schema, g: multiset<Candidate>, id: string, e: Entry)
    requires IsOutcome(schema, g, Built(id, e))
    ensures e.game.gameId == schema.gameId(id) && Identifies(g, id)
  {
    hide SeveralIdentities, IsBest, IsFirstValue, IsMergedExecutables, IsMergedArchitecture, IsMergedStaleness, Ordered,
         Leads, Wish, IdentityOf;
    var s :| ReconcilesAs(schema, g, s, Built(id, e));
    var rep :| Leads(s, Wish(g), rep) && Reconciles(schema, s, rep, Built(id, e));
    LeaderIsBest(s, Wish(g), rep);
    assert IsRepresentative(g, rep);
  }

  lemma IdentityIsOwn(schema: Schema, pool: multiset<Candidate>, c: Candidate, d: Candidate, id: string, e: Entry, f: Entry)
    requires Yields(schema, pool, c, id, e) && Yields(schema, pool, d, id, f)
    ensures Connected(pool, c, d)
  {
    hide IsOutcome, Connected, IdentityOf, Linked, SeveralIdentities;
    OutcomeId(schema, GroupOf(pool, c), id, e);
    OutcomeId(schema, GroupOf(pool, d), id, f);
    var r :| IsRepresentative(GroupOf(pool, c), r) && IdentityOf(r) == Some(id);
    var s :| IsRepresentative(GroupOf(pool, d), s) && IdentityOf(s) == Some(id);
    assert r in GroupOf(pool, c) && s in GroupOf(pool, d);
    SharedIdentity(r, s);
    LinkedConnected(pool, r, s);
    ConnectedSymmetric(pool, d, s);
    ConnectedTransitive(pool, c, r, s);
    ConnectedTransitive(pool, c, s, d);
  }

  // ---------------------------------------------------------------- candidates without a key

  lemma ChainStart(pool: multiset<Candidate>, chain: seq<Candidate>)
    requires |chain| > 1 && IsChain(pool, chain)
    ensures Keys(chain[0]) != {}
  {
    assert LinkedAt(chain, 0);
  }

  lemma OnlyItself(pool: multiset<Candidate>, c: Candidate, d: Candidate)
    requires Keys(c) == {} && d in GroupOf(pool, c)
    ensures d == c
  {
    var chain :| |chain| > 0 && IsChain(pool, chain) && chain[0] == c && chain[|chain| - 1] == d;
    if |chain| > 1 { ChainStart(pool, chain); }
  }

  lemma KeylessOutcome(schema: Schema, g: multiset<Candidate>, c: Candidate, o: Outcome)
    requires Keys(c) == {} && (forall d :: d in g ==> d == c) && IsOutcome(schema, g, o)
    ensures !o.Built?
  {
    hide Keys, IdentityOf, SeveralIdentities, IsOutcome, Wish;
    if o.Built? {
      OutcomeId(schema, g, o.identity, o.entry);
      var rep :| IsRepresentative(g, rep) && IdentityOf(rep) == Some(o.identity);
      IdentityForm(rep);
    }
  }

  lemma YieldsKeys(schema: Schema, pool: multiset<Candidate>, c: Candidate, id: string, e: Entry)
    requires Yields(schema, pool, c, id, e)
    ensures Keys(c) != {}
  {
    hide IsOutcome, Keys, Connected;
    if Keys(c) == {} {
      forall d | d in GroupOf(pool, c) ensures d == c { OnlyItself(pool, c, d); }
      KeylessOutcome(schema, GroupOf(pool, c), c, Built(id, e));
    }
  }

  // ---------------------------------------------------------------- every choice is accepted

  /** Different components get different game ids. */
  ghost predicate Separate(schema: Schema, pool: multiset<Candidate>) {
    forall c, x, e, d, y, f ::
      Yields(schema, pool, c, x, e) && Yields(schema, pool, d, y, f) && schema.gameId(x) == schema.gameId(y) ==>
        Connected(pool, c, d)
  }

  /** However candidates that tie are ordered, the bag becomes a catalog. */
  ghost predicate Accepting(schema: Schema, pool: multiset<Candidate>) {
    && |pool| <= MAXIMUM_CANDIDATES
    && (forall c :: c in pool ==> AlwaysBuilds(schema, GroupOf(pool, c)))
    && Separate(schema, pool)
    && (forall made, entries :: Lists(schema, pool, made, entries) ==> schema.validDocument(Games(entries)))
  }

  /** Entries for some of the candidates, one for each of their components. */
  ghost predicate Partial(schema: Schema, pool: multiset<Candidate>, made: map<string, Entry>) {
    && (forall id :: id in made ==> Arises(schema, pool, id, made[id]))
    && OneEach(schema, pool, made)
    && DistinctIds(made)
  }

  lemma SameYield(schema: Schema, pool: multiset<Candidate>, c: Candidate, d: Candidate, id: string, e: Entry)
    requires Yields(schema, pool, c, id, e) && Connected(pool, c, d)
    ensures Yields(schema, pool, d, id, e)
  {
    hide IsOutcome, Connected;
    assert d in GroupOf(pool, c) by { ConnectedMember(pool, c, d); }
    SameGroup(pool, c, d);
  }

  lemma ConnectedMember(pool: multiset<Candidate>, c: Candidate, d: Candidate)
    requires Connected(pool, c, d)
    ensures d in pool
  {
  }

  /** A component whose candidate is not served shares no identity with what is made, and no game id. */
  lemma NewIdentity(schema: Schema, pool: multiset<Candidate>, made: map<string, Entry>, c: Candidate, id: string, e: Entry,
                    other: string)
    requires Partial(schema, pool, made) && Separate(schema, pool)
    requires Yields(schema, pool, c, id, e) && !Served(schema, pool, made, c) && other in made
    ensures schema.gameId(other) != schema.gameId(id) && made[other].game.gameId == schema.gameId(other)
    ensures forall k :: !(Yields(schema, pool, k, id, e) && Yields(schema, pool, k, other, made[other]))
  {
    hide Yields, Connected, OneEach, DistinctIds;
    var d :| Yields(schema, pool, d, other, made[other]);
    EntryId(schema, pool, d, other, made[other]);
    if schema.gameId(other) == schema.gameId(id) {
      SameYield(schema, pool, d, c, other, made[other]);
    }
    forall k ensures !(Yields(schema, pool, k, id, e) && Yields(schema, pool, k, other, made[other])) {
      if Yields(schema, pool, k, id, e) && Yields(schema, pool, k, other, made[other]) {
        IdentityIsOwn(schema, pool, k, c, id, e, e);
        SameYield(schema, pool, k, c, other, made[other]);
      }
    }
  }

  lemma EntryId(schema: Schema, pool: multiset<Candidate>, c: Candidate, id: string, e: Entry)
    requires Yields(schema, pool, c, id, e)
    ensures e.game.gameId == schema.gameId(id)
  {
    OutcomeId(schema, GroupOf(pool, c), id, e);
  }

  lemma AddComponent(schema: Schema, pool: multiset<Candidate>, made: map<string, Entry>, c: Candidate, id: string, e: Entry)
    requires Partial(schema, pool, made) && Separate(schema, pool)
    requires Yields(schema, pool, c, id, e) && !Served(schema, pool, made, c)
    ensures id !in made && Partial(schema, pool, made[id := e]) && Served(schema, pool, made[id := e], c)
  {
    hide Yields, Connected, Separate;
    EntryId(schema, pool, c, id, e);
    forall other | other in made
      ensures schema.gameId(other) != schema.gameId(id) && made[other].game.gameId == schema.gameId(other)
      ensures forall k :: !(Yields(schema, pool, k, id, e) && Yields(schema, pool, k, other, made[other]))
    {
      NewIdentity(schema, pool, made, c, id, e, other);
    }
    var more := made[id := e];
    assert id in more && more[id] == e;
    forall x | x in more ensures Arises(schema, pool, x, more[x]) {
      if x != id { assert x in made; }
    }
  }

  lemma StillServed(schema: Schema, pool: multiset<Candidate>, made: map<string, Entry>, id: string, e: Entry, c: Candidate)
    requires Served(schema, pool, made, c) && id !in made
    ensures Served(schema, pool, made[id := e], c)
  {
    hide Yields;
    var x :| x in made && Yields(schema, pool, c, x, made[x]);
    assert x in made[id := e] && made[id := e][x] == made[x];
  }

  lemma BuiltFor(schema: Schema, pool: multiset<Candidate>, c: Candidate) returns (id: string, e: Entry)
    requires c in pool && AlwaysBuilds(schema, GroupOf(pool, c))
    ensures Yields(schema, pool, c, id, e)
  {
    hide IsOutcome, Connected;
    ConnectedSelf(pool, c);
    assert c in GroupOf(pool, c);
    var o := OutcomeExists(schema, GroupOf(pool, c));
    id, e := o.identity, o.entry;
  }

  /** Entries can be made for the candidates of any list, keeping those that are there. */
  lemma {:induction false} MakeAll(schema: Schema, pool: multiset<Candidate>, made: map<string, Entry>, cs: seq<Candidate>)
    returns (all: map<string, Entry>)
    requires Partial(schema, pool, made) && Accepting(schema, pool) && forall c :: c in cs ==> c in pool
    ensures Partial(schema, pool, all) && forall c :: c in cs ==> Served(schema, pool, all, c)
    ensures forall id :: id in made ==> id in all && all[id] == made[id]
    decreases |cs|
  {
    hide Partial, Served, Yields, Lists, AlwaysBuilds, GroupOf;
    if cs == [] {
      all := made;
    } else {
      var n := |cs| - 1;
      var last := cs[n];
      var most := MakeAll(schema, pool, made, cs[..n]);
      if Served(schema, pool, most, last) {
        all := most;
      } else {
        var id, e := BuiltFor(schema, pool, last);
        AddComponent(schema, pool, most, last, id, e);
        all := most[id := e];
        forall c | c in cs[..n] ensures Served(schema, pool, all, c) { StillServed(schema, pool, most, id, e, c); }
      }
      assert cs == cs[..n] + [last];
    }
  }

  lemma {:induction false} ListMade(made: map<string, Entry>) returns (entries: seq<Entry>)
    requires DistinctIds(made)
    ensures AscendingIds(entries) && forall e :: e in entries <==> Holds(made, e)
    decreases |made|
  {
    hide AscendingIds;
    if made == map[] {
      entries := [];
      assert AscendingIds(entries) by { NoEntries(); }
    } else {
      var id :| id in made;
      var rest := made - {id};
      assert made == rest[id := made[id]] && id !in rest;
      var some := ListMade(rest);
      var at := EntryPlace(some, made[id]);
      forall i | 0 <= i < |some| ensures some[i].game.gameId != made[id].game.gameId {
        assert some[i] in some;
      }
      InsertEntry(some, at, made[id]);
      entries := some[..at] + [made[id]] + some[at..];
      forall e ensures e in entries <==> Holds(made, e) { HoldsMore(rest, id, made[id], e); }
    }
  }

  lemma NoEntries()
    ensures AscendingIds([])
  {
  }

  lemma EntryPlace(s: seq<Entry>, e: Entry) returns (at: nat)
    ensures at <= |s| && (forall i :: 0 <= i < at ==> !Less(e.game.gameId, s[i].game.gameId))
    ensures at < |s| ==> Less(e.game.gameId, s[at].game.gameId)
  {
    hide Less;
    at := 0;
    while at < |s| && !Less(e.game.gameId, s[at].game.gameId)
      invariant at <= |s| && forall i :: 0 <= i < at ==> !Less(e.game.gameId, s[i].game.gameId)
    {
      at := at + 1;
    }
  }

  lemma HoldsMore(made: map<string, Entry>, id: string, e: Entry, f: Entry)
    requires id !in made
    ensures Holds(made[id := e], f) <==> Holds(made, f) || f == e
  {
    var more := made[id := e];
    if Holds(made, f) {
      var x :| x in made && made[x] == f;
      assert x in more && more[x] == f;
    }
    if f == e { assert id in more && more[id] == f; }
  }

  lemma {:induction false} ListBag(pool: multiset<Candidate>) returns (cs: seq<Candidate>)
    ensures multiset(cs) == pool
    decreases |pool|
  {
    if pool == multiset{} {
      cs := [];
    } else {
      var c :| c in pool;
      var rest := ListBag(pool - multiset{c});
      cs := rest + [c];
    }
  }

  /** What is made for some components can be completed to a catalog. */
  lemma Complete(schema: Schema, pool: multiset<Candidate>, made: map<string, Entry>) returns (entries: seq<Entry>)
    requires Accepting(schema, pool) && Partial(schema, pool, made)
    ensures IsCatalog(schema, pool, entries) && forall id :: id in made ==> made[id] in entries
  {
    hide Served, Arises, OneEach, DistinctIds, AscendingIds, Separate, AlwaysBuilds, GroupOf;
    var cs := ListBag(pool);
    var all := MakeAll(schema, pool, made, cs);
    entries := ListMade(all);
    forall c | c in pool ensures Served(schema, pool, all, c) {
      assert c in multiset(cs);
      assert c in cs;
    }
    assert Lists(schema, pool, all, entries);
    forall id | id in made ensures made[id] in entries { assert Holds(all, all[id]); }
  }

  lemma CatalogExists(schema: Schema, pool: multiset<Candidate>) returns (entries: seq<Entry>)
    requires Accepting(schema, pool)
    ensures IsCatalog(schema, pool, entries)
  {
    hide Accepting, IsCatalog;
    entries := Complete(schema, pool, map[]);
  }

  lemma CatalogWith(schema: Schema, pool: multiset<Candidate>, c: Candidate, id: string, e: Entry) returns (entries: seq<Entry>)
    requires Accepting(schema, pool) && Yields(schema, pool, c, id, e)
    ensures IsCatalog(schema, pool, entries) && e in entries
  {
    hide IsCatalog, Yields, Lists, AlwaysBuilds, GroupOf;
    assert !Served(schema, pool, map[], c);
    AddComponent(schema, pool, map[], c, id, e);
    entries := Complete(schema, pool, map[][id := e]);
    assert map[][id := e][id] == e;
  }

  // ---------------------------------------------------------------- one catalog, or several

  /** A catalog holds one entry of a component. */
  lemma OneOfEach(schema: Schema, pool: multiset<Candidate>, xs: seq<Entry>, c: Candidate, x: string, d: Entry, y: string,
                  e: Entry)
    requires Accepting(schema, pool) && IsCatalog(schema, pool, xs)
    requires Yields(schema, pool, c, x, d) && Yields(schema, pool, c, y, e) && d in xs && e in xs
    ensures d == e
  {
    hide Yields, AlwaysBuilds, GroupOf, AscendingIds, DistinctIds, Served;
    var made :| Lists(schema, pool, made, xs);
    assert Holds(made, d) && Holds(made, e);
    var u :| u in made && made[u] == d;
    var v :| v in made && made[v] == e;
    YieldedBy(schema, pool, c, x, u, d);
    YieldedBy(schema, pool, c, y, v, e);
  }

  /** An entry that one component yields arises from no other. */
  lemma YieldedBy(schema: Schema, pool: multiset<Candidate>, c: Candidate, x: string, u: string, e: Entry)
    requires Separate(schema, pool) && Yields(schema, pool, c, x, e) && Arises(schema, pool, u, e)
    ensures Yields(schema, pool, c, u, e)
  {
    hide Yields, Connected;
    var k :| Yields(schema, pool, k, u, e);
    EntryId(schema, pool, c, x, e);
    EntryId(schema, pool, k, u, e);
    SameYield(schema, pool, k, c, u, e);
  }

  lemma GroupKeyed(pool: multiset<Candidate>, c: Candidate)
    requires Keyed(pool)
    ensures Keyed(GroupOf(pool, c))
  {
    hide Connected;
    forall d | d in GroupOf(pool, c) ensures d in pool {}
  }

  /** A component in which candidates that tie disagree leaves the bag with two catalogs. */
  lemma TwoCatalogs(schema: Schema, pool: multiset<Candidate>) returns (xs: seq<Entry>, ys: seq<Entry>)
    requires Keyed(pool) && Accepting(schema, pool) && !Unambiguous(pool)
    ensures IsCatalog(schema, pool, xs) && IsCatalog(schema, pool, ys) && xs != ys
  {
    hide Keyed, Determined, IsOutcome, GroupOf, IsCatalog, Lists, AlwaysBuilds, Separate;
    var c :| c in pool && !Determined(GroupOf(pool, c));
    GroupKeyed(pool, c);
    var x, d, y, e := TwoOutcomes(schema, GroupOf(pool, c));
    assert Yields(schema, pool, c, x, d) && Yields(schema, pool, c, y, e);
    xs := CatalogWith(schema, pool, c, x, d);
    ys := CatalogWith(schema, pool, c, y, e);
    if xs == ys { OneOfEach(schema, pool, xs, c, x, d, y, e); }
  }

  /** A bag that becomes a catalog becomes the same catalog in every order if and only if it is unambiguous. */
  lemma CatalogExactly(schema: Schema, pool: multiset<Candidate>)
    requires Keyed(pool) && Accepting(schema, pool)
    ensures Unambiguous(pool) <==> forall xs, ys :: IsCatalog(schema, pool, xs) && IsCatalog(schema, pool, ys) ==> xs == ys
  {
    hide Keyed, Accepting, Unambiguous, IsCatalog;
    if Unambiguous(pool) {
      forall xs, ys | IsCatalog(schema, pool, xs) && IsCatalog(schema, pool, ys) ensures xs == ys {
        CatalogUnique(schema, pool, xs, ys);
      }
    } else {
      var xs, ys := TwoCatalogs(schema, pool);
    }
  }

  // ---------------------------------------------------------------- when there is no catalog

  ghost predicate NoCatalog(schema: Schema, pool: multiset<Candidate>) {
    forall entries :: !IsCatalog(schema, pool, entries)
  }

  lemma CatalogBuilds(schema: Schema, pool: multiset<Candidate>, made: map<string, Entry>, entries: seq<Entry>, c: Candidate)
    requires Unambiguous(pool) && Lists(schema, pool, made, entries) && c in pool
    ensures AlwaysBuilds(schema, GroupOf(pool, c))
  {
    hide Determined, IsOutcome, GroupOf, AscendingIds, DistinctIds, OneEach, Arises, Holds;
    assert Served(schema, pool, made, c);
    var id :| id in made && Yields(schema, pool, c, id, made[id]);
    GroupDetermined(pool, c);
    forall o | IsOutcome(schema, GroupOf(pool, c), o) ensures o.Built? {
      OutcomeUnique(schema, GroupOf(pool, c), o, Built(id, made[id]));
    }
  }

  lemma CatalogSeparates(schema: Schema, pool: multiset<Candidate>, made: map<string, Entry>, entries: seq<Entry>)
    requires Unambiguous(pool) && Lists(schema, pool, made, entries)
    ensures Separate(schema, pool)
  {
    hide Unambiguous, Yields, Connected, AscendingIds, OneEach, Arises, Holds;
    forall c, x, e, d, y, f | Yields(schema, pool, c, x, e) && Yields(schema, pool, d, y, f)
                              && schema.gameId(x) == schema.gameId(y)
      ensures Connected(pool, c, d)
    {
      InCatalog(schema, pool, made, entries, c, x, e);
      InCatalog(schema, pool, made, entries, d, y, f);
      EntryId(schema, pool, c, x, e);
      EntryId(schema, pool, d, y, f);
      assert x == y;
      IdentityIsOwn(schema, pool, c, d, x, e, f);
    }
  }

  lemma InCatalog(schema: Schema, pool: multiset<Candidate>, made: map<string, Entry>, entries: seq<Entry>, c: Candidate,
                  x: string, e: Entry)
    requires Unambiguous(pool) && Lists(schema, pool, made, entries) && Yields(schema, pool, c, x, e)
    ensures x in made && made[x] == e
  {
    hide Unambiguous, Yields, AscendingIds, OneEach, Arises, Holds, DistinctIds;
    YieldsMember(schema, pool, c, x, e);
    assert Served(schema, pool, made, c);
    var id :| id in made && Yields(schema, pool, c, id, made[id]);
    YieldsOnce(schema, pool, c, x, e, id, made[id]);
  }

  /** An unambiguous bag has a catalog exactly when every step of building one is accepted. */
  lemma NoCatalogExactly(schema: Schema, pool: multiset<Candidate>)
    requires Unambiguous(pool)
    ensures NoCatalog(schema, pool) <==> !Accepting(schema, pool)
  {
    hide Unambiguous, Lists, AlwaysBuilds, GroupOf, Separate;
    if Accepting(schema, pool) {
      var entries := CatalogExists(schema, pool);
    } else {
      forall entries ensures !IsCatalog(schema, pool, entries) {
        if IsCatalog(schema, pool, entries) {
          var made :| Lists(schema, pool, made, entries);
          forall c | c in pool ensures AlwaysBuilds(schema, GroupOf(pool, c)) {
            CatalogBuilds(schema, pool, made, entries, c);
          }
          CatalogSeparates(schema, pool, made, entries);
          forall made', others | Lists(schema, pool, made', others) ensures schema.validDocument(Games(others)) {
            ListsUnique(schema, pool, made, entries, made', others);
          }
        }
      }
    }
  }
}
