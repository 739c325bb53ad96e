/** What an entry takes from the candidates of its group, said of their fields alone. */
module CatalogFreshness {
  import opened Words
  import opened CatalogModel
  import opened CatalogMerge
  import opened CatalogOutcomes
  import opened CatalogBuild

  /** The order of texts: at the first difference the smaller character, or the end of the text. */
  ghost predicate Before(a: string, b: string) {
    exists i :: DiffersAt(a, b, i)
  }

  predicate DiffersAt(a: string, b: string, i: int) {
    0 <= i <= |a| && i < |b| && a[..i] == b[..i] && (i == |a| || a[i] < b[i])
  }

  lemma {:induction false} LessExactly(a: string, b: string)
    ensures Less(a, b) <==> Before(a, b)
    decreases |a|
  {
    if |b| > 0 && |a| > 0 && a[0] == b[0] {
      LessExactly(a[1..], b[1..]);
      if Before(a[1..], b[1..]) {
        var i :| DiffersAt(a[1..], b[1..], i);
        assert a[..i + 1] == [a[0]] + a[1..][..i] && b[..i + 1] == [b[0]] + b[1..][..i];
        assert DiffersAt(a, b, i + 1);
      }
      if Before(a, b) {
        var i :| DiffersAt(a, b, i);
        assert a[1..][..i - 1] == a[..i][1..] && b[1..][..i - 1] == b[..i][1..];
        assert DiffersAt(a[1..], b[1..], i - 1);
      }
    } else if |b| > 0 {
      if |a| == 0 || a[0] < b[0] { assert DiffersAt(a, b, 0); }
      if Before(a, b) {
        var i :| DiffersAt(a, b, i);
        if i > 0 { assert a[..i][0] == b[..i][0]; }
      }
    }
  }

  /** Current is fresher than unknown, and unknown than stale. */
  predicate AsFresh(c: Candidate, d: Candidate) {
    && (d.staleness.Current? ==> c.staleness.Current?)
    && (c.staleness.Stale? ==> d.staleness.Stale?)
  }

  /**
   * Nothing speaks for d against c: it is no fresher; of two as fresh an identified one goes first, then one that was
   * discovered, then the one with the lesser key.
   */
  ghost predicate Precedes(c: Candidate, d: Candidate) {
    && AsFresh(c, d)
    && (c.staleness == d.staleness ==>
          && (d.providerAppId.Some? ==> c.providerAppId.Some?)
          && (c.providerAppId.Some? == d.providerAppId.Some? ==>
                && (d.origin.Discovered? ==> c.origin.Discovered?)
                && (c.origin == d.origin ==> !Before(d.canonicalKey, c.canonicalKey))))
  }

  /** The comparison of the source is this precedence. */
  lemma BetterExactly(c: Candidate, d: Candidate)
    ensures Precedes(c, d) <==> !Better(d, c)
  {
    hide Less, Before;
    LessExactly(d.canonicalKey, c.canonicalKey);
  }

  // ---------------------------------------------------------------- what is taken

  /** The first, in that precedence, of the candidates that have it. */
  ghost predicate TakesFirst(g: multiset<Candidate>, sel: Candidate -> Option<string>, v: Option<string>) {
    if v.None? then forall d :: d in g ==> sel(d).None?
    else exists c :: c in g && sel(c) == v && forall d :: d in g && sel(d).Some? ==> Precedes(c, d)
  }

  /** The representative: identified if anybody is, and preceded by nobody eligible. */
  ghost predicate Represents(g: multiset<Candidate>, rep: Candidate) {
    && rep in g
    && forall d :: d in g ==>
         && (d.providerAppId.Some? ==> rep.providerAppId.Some?)
         && (d.providerAppId.Some? == rep.providerAppId.Some? ==> Precedes(rep, d))
  }

  /** No candidate whose architecture is known is fresher. */
  ghost predicate Knows(g: multiset<Candidate>, c: Candidate) {
    && c in g && !c.architecture.Unknown?
    && forall d :: d in g && !d.architecture.Unknown? ==> AsFresh(c, d)
  }

  ghost predicate TakesArchitecture(g: multiset<Candidate>, a: Architecture) {
    if a.Unknown? then
      forall c :: Knows(g, c) ==> exists d :: Knows(g, d) && d.architecture != c.architecture
    else
      (exists c :: Knows(g, c)) && forall c :: Knows(g, c) ==> c.architecture == a
  }

  /** Two candidates are of one application, or one file is offered by both. */
  predicate SameThing(c: Candidate, d: Candidate) {
    || (&& c.providerAppId.Some? && d.providerAppId.Some?
        && "provider|" + c.providerId + "|" + c.providerAppId.value == "provider|" + d.providerId + "|" + d.providerAppId.value)
    || exists e, f :: e in c.executables && f in d.executables && e.key == f.key
  }

  /** Candidates are linked exactly when they are the same thing. */
  lemma LinkedExactly(c: Candidate, d: Candidate)
    ensures Linked(c, d) <==> SameThing(c, d)
  {
    if Linked(c, d) {
      var key :| key in Keys(c) * Keys(d);
    }
    if exists e, f :: e in c.executables && f in d.executables && e.key == f.key {
      var e, f :| e in c.executables && f in d.executables && e.key == f.key;
      assert Path(e.key) in Keys(c) * Keys(d);
    } else if SameThing(c, d) {
      assert Strong(StrongIdentity(c).value) in Keys(c) * Keys(d);
    }
  }

  /** The game is named after the application, or else after the representative's first file. */
  predicate NamedAfter(schema: Schema, rep: Candidate, game: Game) {
    if rep.providerAppId.Some?
    then game.gameId == schema.gameId("provider|" + rep.providerId + "|" + rep.providerAppId.value)
    else rep.executables != [] && game.gameId == schema.gameId("exe|" + rep.executables[0].key)
  }

  ghost predicate Offers(g: multiset<Candidate>, key: string, display: string) {
    exists c :: c in g && Executable(key, display) in c.executables
  }

  ghost predicate OfOthers(g: multiset<Candidate>, rep: Candidate, key: string) {
    (exists display :: Offers(g, key, display)) && forall e :: e in rep.executables ==> e.key != key
  }

  /** Of the spellings on offer for a file, the first in the order of texts. */
  ghost predicate TakesSpelling(g: multiset<Candidate>, key: string, display: string) {
    Offers(g, key, display) && forall d :: Offers(g, key, d) ==> !Before(d, display)
  }

  /** After the representative's own files come those of the others, each once, in the order of their keys. */
  ghost predicate TakesFiles(g: multiset<Candidate>, rep: Candidate, game: Game, keys: seq<string>) {
    && |game.executables| == |rep.executables| + |keys|
    && (forall i, j :: 0 <= i < j < |keys| ==> Before(keys[i], keys[j]))
    && (forall key :: key in keys <==> OfOthers(g, rep, key))
    && forall i :: 0 <= i < |keys| ==> TakesSpelling(g, keys[i], game.executables[|rep.executables| + i])
  }

  lemma OffersExactly(g: multiset<Candidate>)
    ensures forall key, display :: HasDisplay(g, key, display) <==> Offers(g, key, display)
  {
  }

  lemma OthersExactly(g: multiset<Candidate>, rep: Candidate, key: string)
    ensures GroupHas(g, key) && !Listed(rep.executables, key) <==> OfOthers(g, rep, key)
  {
    OffersExactly(g);
  }

  lemma SpellingExactly(g: multiset<Candidate>, key: string, display: string)
    requires IsLeastDisplay(g, key, display)
    ensures TakesSpelling(g, key, display)
  {
    hide Less, Before;
    OffersExactly(g);
    forall d | Offers(g, key, d) ensures !Before(d, display) { LessExactly(d, display); }
  }

  lemma FilesTaken(g: multiset<Candidate>, rep: Candidate, game: Game)
    requires IsMergedExecutables(g, rep.executables, game.executables)
    ensures exists keys :: TakesFiles(g, rep, game, keys)
  {
    hide Less, Before, GroupHas, Listed, IsLeastDisplay, OfOthers, TakesSpelling;
    var keys :| MergedAs(g, rep.executables, keys, game.executables);
    forall i, j | 0 <= i < j < |keys| ensures Before(keys[i], keys[j]) { LessExactly(keys[i], keys[j]); }
    forall key ensures key in keys <==> OfOthers(g, rep, key) { OthersExactly(g, rep, key); }
    forall i | 0 <= i < |keys| ensures TakesSpelling(g, keys[i], game.executables[|rep.executables| + i]) {
      SpellingExactly(g, keys[i], game.executables[|rep.executables| + i]);
    }
    assert TakesFiles(g, rep, game, keys);
  }

  /** Everything that an entry takes from its group. */
  ghost predicate Takes(schema: Schema, g: multiset<Candidate>, e: Entry) {
    && (exists rep :: Represents(g, rep) && TakesFrom(rep, e.game) && NamedAfter(schema, rep, e.game)
                      && exists keys :: TakesFiles(g, rep, e.game, keys))
    && OneApplication(g)
    && TakesFirst(g, (c: Candidate) => c.localVersion, e.game.localVersion)
    && TakesFirst(g, (c: Candidate) => c.executableSha256, e.game.executableSha256)
    && TakesFirst(g, (c: Candidate) => c.compatibility, e.game.compatibility)
    && TakesFirst(g, (c: Candidate) => c.localIconSource, e.localIconSource)
    && TakesArchitecture(g, e.architecture)
    && (e.staleness.Current? <==> exists c :: c in g && c.staleness.Current?)
    && (e.staleness.Stale? <==> forall c :: c in g ==> c.staleness.Stale?)
    && e.mergedCandidateCount == |g|
  }

  /** All who are of an application are of the same. */
  ghost predicate OneApplication(g: multiset<Candidate>) {
    forall c, d :: c in g && d in g && c.providerAppId.Some? && d.providerAppId.Some? ==> SameThing(c, d)
  }

  lemma NotSeveral(g: multiset<Candidate>)
    requires !SeveralIdentities(g)
    ensures OneApplication(g)
  {
    forall c, d | c in g && d in g && c.providerAppId.Some? && d.providerAppId.Some? ensures SameThing(c, d) {
      assert Meets(c, Identified) && Meets(d, Identified);
    }
  }

  predicate TakesFrom(rep: Candidate, game: Game) {
    && game.providerId == rep.providerId && game.providerAppId == rep.providerAppId
    && game.title == rep.title && game.installRoot == rep.installRoot && game.origin == rep.origin
    && |game.executables| >= |rep.executables|
    && forall i :: 0 <= i < |rep.executables| ==> game.executables[i] == rep.executables[i].display
  }

  lemma BestPrecedes(g: multiset<Candidate>, w: Wanted, c: Candidate)
    requires IsBest(g, w, c)
    ensures c in g && Meets(c, w) && forall d :: d in g && Meets(d, w) ==> Precedes(c, d)
  {
    hide Better, Meets, Precedes;
    forall d | d in g && Meets(d, w) ensures Precedes(c, d) { BetterExactly(c, d); }
  }

  lemma RepresentativeRepresents(g: multiset<Candidate>, rep: Candidate)
    requires IsRepresentative(g, rep)
    ensures Represents(g, rep)
  {
    hide IsBest, Precedes;
    BestPrecedes(g, Wish(g), rep);
    forall d | d in g ensures d.providerAppId.Some? <==> Meets(d, Identified) {}
    forall d | d in g ensures Meets(d, Anyone) {}
  }

  lemma FieldTaken(s: seq<Candidate>, f: Field, v: Option<string>, sel: Candidate -> Option<string>)
    requires Ordered(s) && IsFirstValue(s, f, v) && forall c :: Get(c, f) == sel(c)
    ensures TakesFirst(multiset(s), sel, v)
  {
    hide Ordered, Leads, Precedes, IsBest, Get;
    if Someone(multiset(s), Having(f)) {
      var c :| Leads(s, Having(f), c) && v == Get(c, f);
      LeaderIsBest(s, Having(f), c);
      BestPrecedes(multiset(s), Having(f), c);
      assert sel(c) == v;
      forall d | d in multiset(s) && sel(d).Some? ensures Precedes(c, d) { assert Meets(d, Having(f)); }
    } else {
      forall d | d in multiset(s) ensures sel(d).None? { assert !Meets(d, Having(f)); }
    }
  }

  lemma AuthorityKnows(g: multiset<Candidate>, c: Candidate)
    ensures Authority(g, c) <==> Knows(g, c)
  {
    forall d: Candidate ensures StalenessQuality(d.staleness) <= StalenessQuality(c.staleness) <==> AsFresh(c, d) {}
  }

  lemma ArchitectureTaken(g: multiset<Candidate>, a: Architecture)
    requires IsMergedArchitecture(g, a)
    ensures TakesArchitecture(g, a)
  {
    hide Authority, Knows;
    forall c ensures Authority(g, c) <==> Knows(g, c) { AuthorityKnows(g, c); }
    if a.Unknown? {
      forall c | Knows(g, c) ensures exists d :: Knows(g, d) && d.architecture != c.architecture {
        KnownIsKnown(g, c);
        assert !Agreed(g, c.architecture);
      }
    }
  }

  lemma KnownIsKnown(g: multiset<Candidate>, c: Candidate)
    requires Knows(g, c)
    ensures !c.architecture.Unknown?
  {
  }

  lemma GameTaken(g: multiset<Candidate>, rep: Candidate, game: Game)
    requires IsMergedExecutables(g, rep.executables, game.executables)
    ensures |game.executables| >= |rep.executables|
    ensures forall i :: 0 <= i < |rep.executables| ==> game.executables[i] == rep.executables[i].display
  {
    hide Ascending, GroupHas, Listed, IsLeastDisplay;
  }

  lemma EntryTaken(schema: Schema, s: seq<Candidate>, rep: Candidate, identity: string, e: Entry)
    requires Ordered(s) && Leads(s, Wish(multiset(s)), rep) && IsEntry(schema, s, rep, identity, e)
    requires IdentityOf(rep) == Some(identity) && !SeveralIdentities(multiset(s))
    ensures Takes(schema, multiset(s), e)
  {
    hide Ordered, Leads, Wish, IsFirstValue, IsMergedExecutables, IsMergedArchitecture, TakesFirst, TakesArchitecture,
         IsBest, Represents, SeveralIdentities, OneApplication, TakesFiles;
    var g := multiset(s);
    LeaderIsBest(s, Wish(g), rep);
    RepresentativeRepresents(g, rep);
    GameTaken(g, rep, e.game);
    FilesTaken(g, rep, e.game);
    NotSeveral(g);
    assert NamedAfter(schema, rep, e.game);
    assert TakesFrom(rep, e.game);
    FieldTaken(s, LocalVersion, e.game.localVersion, (c: Candidate) => c.localVersion);
    FieldTaken(s, ExecutableSha256, e.game.executableSha256, (c: Candidate) => c.executableSha256);
    FieldTaken(s, Compatibility, e.game.compatibility, (c: Candidate) => c.compatibility);
    FieldTaken(s, LocalIconSource, e.localIconSource, (c: Candidate) => c.localIconSource);
    ArchitectureTaken(g, e.architecture);
    assert |g| == |s|;
  }

  /** An entry made for a group takes from each place what comes first there. */
  lemma OutcomeTakes(schema: Schema, g: multiset<Candidate>, identity: string, e: Entry)
    requires IsOutcome(schema, g, Built(identity, e))
    ensures Takes(schema, g, e)
  {
    hide SeveralIdentities, Ordered, Leads, Wish, IsEntry, Takes, IdentityOf;
    assert !SeveralIdentities(g);
    var s :| ReconcilesAs(schema, g, s, Built(identity, e));
    var rep :| Leads(s, Wish(g), rep) && Reconciles(schema, s, rep, Built(identity, e));
    EntryTaken(schema, s, rep, identity, e);
  }

  lemma ComponentTakes(schema: Schema, pool: multiset<Candidate>, made: map<string, Entry>, entries: seq<Entry>, c: Candidate)
    requires Lists(schema, pool, made, entries) && c in pool
    ensures exists e :: e in entries && Takes(schema, GroupOf(pool, c), e)
  {
    hide Takes, GroupOf, IsOutcome, OneEach, AscendingIds, DistinctIds, Arises;
    assert Served(schema, pool, made, c);
    var id :| id in made && Yields(schema, pool, c, id, made[id]);
    OutcomeTakes(schema, GroupOf(pool, c), id, made[id]);
    assert Holds(made, made[id]);
  }

  lemma ListedTakes(schema: Schema, pool: multiset<Candidate>, made: map<string, Entry>, entries: seq<Entry>, e: Entry)
    requires Lists(schema, pool, made, entries) && e in entries
    ensures exists c :: c in pool && Takes(schema, GroupOf(pool, c), e)
  {
    hide Takes, GroupOf, IsOutcome, OneEach, AscendingIds, DistinctIds, Served;
    assert Holds(made, e);
    var id :| id in made && made[id] == e;
    assert Arises(schema, pool, id, e);
    var c :| Yields(schema, pool, c, id, e);
    OutcomeTakes(schema, GroupOf(pool, c), id, e);
  }

  /** Every component has its entry in the catalog, every entry its component, and each takes what comes first there. */
  lemma CatalogTakes(schema: Schema, pool: multiset<Candidate>, entries: seq<Entry>)
    requires IsCatalog(schema, pool, entries)
    ensures forall c :: c in pool ==> exists e :: e in entries && Takes(schema, GroupOf(pool, c), e)
    ensures forall e :: e in entries ==> exists c :: c in pool && Takes(schema, GroupOf(pool, c), e)
  {
    hide Takes, GroupOf, Lists;
    var made :| Lists(schema, pool, made, entries);
    forall c | c in pool ensures exists e :: e in entries && Takes(schema, GroupOf(pool, c), e) {
      ComponentTakes(schema, pool, made, entries, c);
    }
    forall e | e in entries ensures exists c :: c in pool && Takes(schema, GroupOf(pool, c), e) {
      ListedTakes(schema, pool, made, entries, e);
    }
  }
}
