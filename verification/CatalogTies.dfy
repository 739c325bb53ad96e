/** Two accepted candidates that the canonical key cannot tell apart, and the two catalogs they become. */
module CatalogTies {
  import opened Words
  import opened CatalogModel
  import opened CatalogMerge
  import opened CatalogOutcomes
  import opened CatalogBuild
  import Paths = PathNormalization
  import opened PathTheorems

  /** ASCII text as wide text. */
  function Units(s: string): Paths.Wide
    requires forall i :: 0 <= i < |s| ==> s[i] as int < 0x80
  {
    seq(|s|, i requires 0 <= i < |s| => s[i] as int)
  }

  predicate IsAscii(s: string) {
    forall i :: 0 <= i < |s| ==> s[i] as int < 0x80
  }

  /** The candidate's executables are as normalizeCandidate leaves them: each once, under its normalized path. */
  predicate Normal(c: Candidate) {
    && |c.executables| > 0 && DistinctKeys(c.executables)
    && forall e :: e in c.executables ==> IsAscii(e.key) && IsAscii(e.display) && Paths.Normalized(Units(e.display)) == Units(e.key)
  }

  /** A tie inside one provider app: equal in every respect the order looks at. */
  predicate Twins(a: Candidate, b: Candidate) {
    && StrongIdentity(a).Some? && StrongIdentity(a) == StrongIdentity(b)
    && a.staleness == b.staleness && a.origin == b.origin && a.canonicalKey == b.canonicalKey
  }

  lemma TwinsGroup(a: Candidate, b: Candidate)
    requires Twins(a, b)
    ensures GroupOf(multiset{a, b}, a) == multiset{a, b} && GroupOf(multiset{a, b}, b) == multiset{a, b}
  {
    hide StrongIdentity, Connected, Keys;
    var pool := multiset{a, b};
    TwinsLinked(a, b);
    ConnectedSelf(pool, a);
    ConnectedSelf(pool, b);
    LinkedConnected(pool, a, b);
    forall d ensures GroupOf(pool, a)[d] == pool[d] && GroupOf(pool, b)[d] == pool[d] {
      if d in pool { assert d == a || d == b; }
    }
  }

  lemma TwinsLinked(a: Candidate, b: Candidate)
    requires Twins(a, b)
    ensures Linked(a, b)
  {
    assert Strong(StrongIdentity(a).value) in Keys(a) * Keys(b);
  }

  lemma TwinsRepresent(a: Candidate, b: Candidate)
    requires Twins(a, b)
    ensures !SeveralIdentities(multiset{a, b}) && IsRepresentative(multiset{a, b}, a)
  {
    hide StrongIdentity;
    BetterIsStrictOrder(a, b, a);
    LessTrichotomy(a.canonicalKey, a.canonicalKey);
    assert a in multiset{a, b} && b in multiset{a, b} && Meets(a, Identified);
  }

  lemma OneEntryLists(schema: Schema, pool: multiset<Candidate>, id: string, e: Entry)
    requires pool != multiset{} && forall c :: c in pool ==> Yields(schema, pool, c, id, e)
    ensures Lists(schema, pool, map[id := e], [e])
  {
    hide Yields;
    var c :| c in pool;
    var made := map[id := e];
    assert id in made && made[id] == e;
    assert Holds(made, e);
  }

  lemma TwinEntry(schema: Schema, a: Candidate, b: Candidate) returns (id: string, e: Entry)
    requires Twins(a, b)
    ensures IsOutcome(schema, multiset{a, b}, Verdict(schema, id, e)) && e.game.title == a.title
  {
    hide IsBest, StrongIdentity, IsOutcome, IsEntry, SeveralIdentities, Wish, Leads, Ordered;
    TwinsRepresent(a, b);
    var s := BestLeads(multiset{a, b}, Wish(multiset{a, b}), a);
    LeaderMember(s, Wish(multiset{a, b}), a);
    id := IdentityOf(a).value;
    e := EntryExists(schema, s, a, id);
    EntryTitle(schema, s, a, id, e);
    EntryOutcome(schema, s, a, id, e);
  }

  lemma OneGame(e: Entry)
    ensures Games([e]) == [e.game]
  {
    assert [e][..0] == [];
  }

  /** Put in front, either twin gives the catalog its title. */
  lemma TwinCatalog(schema: Schema, a: Candidate, b: Candidate) returns (xs: seq<Entry>)
    requires Twins(a, b)
    ensures |xs| == 1 && xs[0].game.title == a.title
    ensures schema.validDocument([xs[0].game]) ==> IsCatalog(schema, multiset{a, b}, xs)
  {
    hide Twins, IsOutcome, GroupOf, Lists, Games;
    var pool := multiset{a, b};
    TwinsGroup(a, b);
    var id, e := TwinEntry(schema, a, b);
    xs := [e];
    OneGame(e);
    if schema.validDocument([e.game]) {
      forall c | c in pool ensures Yields(schema, pool, c, id, e) { assert c == a || c == b; }
      OneEntryLists(schema, pool, id, e);
    }
  }

  lemma EntryTitle(schema: Schema, s: seq<Candidate>, rep: Candidate, identity: string, entry: Entry)
    requires IsEntry(schema, s, rep, identity, entry)
    ensures entry.game.title == rep.title
  {
    hide IsFirstValue, IsMergedExecutables, IsMergedArchitecture, IsMergedStaleness;
  }

  // ---------------------------------------------------------------- such a pair

  /**
   * The canonical key joins its parts with a character they may contain, so it can tie between candidates that
   * differ. Any candidate of a provider app has two such variants: for every schema that accepts both documents,
   * their bag has two catalogs, which differ in the title of the game.
   */
  lemma TieLeavesTitleOpen(schema: Schema, c: Candidate, root: string, icon: string)
    returns (a: Candidate, b: Candidate, xs: seq<Entry>, ys: seq<Entry>)
    requires c.providerAppId.Some?
    ensures Normal(a) && a.canonicalKey == KeyText(a, root, icon)
    ensures Normal(b) && b.canonicalKey == KeyText(b, root, icon)
    ensures |xs| == |ys| == 1 && xs[0].game.title != ys[0].game.title
    ensures schema.validDocument([xs[0].game]) ==> IsCatalog(schema, multiset{a, b}, xs)
    ensures schema.validDocument([ys[0].game]) ==> IsCatalog(schema, multiset{a, b}, ys)
  {
    hide KeyHead, KeyTail, ExecutablesText, StrongIdentity, IsCatalog, Normal;
    var x := c.(title := "T", executables := [Executable("u|b:b", "u|b:b")]);
    var y := c.(title := "T|u|b:b:u", executables := [Executable("b", "b")]);
    a := x.(canonicalKey := KeyText(x, root, icon));
    b := y.(canonicalKey := KeyText(y, root, icon));
    SameEnds(x, a, root, icon);
    SameEnds(y, b, root, icon);
    SameEnds(x, y, root, icon);
    SameMiddle();
    SameIdentity(a, b);
    TwinPaths();
    OnePath(a, "u|b:b");
    OnePath(b, "b");
    xs := TwinCatalog(schema, a, b);
    ys := TwinCatalog(schema, b, a);
    assert multiset{b, a} == multiset{a, b};
    assert a.title != b.title by { assert |a.title| == 1 && |b.title| == 9; }
  }

  lemma TwinPaths()
    ensures IsAscii("u|b:b") && Paths.Normalized(Units("u|b:b")) == Units("u|b:b")
    ensures IsAscii("b") && Paths.Normalized(Units("b")) == Units("b")
  {
    hide Paths.Normalized;
    assert Units("u|b:b") == [117, 124, 98, 58, 98] && Units("b") == [98];
    OneSegment([117, 124, 98, 58, 98]);
    OneSegment([98]);
  }

  lemma OnePath(c: Candidate, path: string)
    requires IsAscii(path) && Paths.Normalized(Units(path)) == Units(path) && c.executables == [Executable(path, path)]
    ensures Normal(c)
  {
  }

  lemma SameEnds(a: Candidate, b: Candidate, root: string, icon: string)
    requires b == a.(title := b.title, executables := b.executables, canonicalKey := b.canonicalKey)
    ensures KeyHead(a, root) == KeyHead(b, root) && KeyTail(a, icon) == KeyTail(b, icon)
  {
  }

  lemma SameMiddle()
    ensures "T" + "|" + ExecutablesText([Executable("u|b:b", "u|b:b")])
         == "T|u|b:b:u" + "|" + ExecutablesText([Executable("b", "b")])
  {
    OneExecutable("u|b:b", "u|b:b");
    OneExecutable("b", "b");
  }

  lemma OneExecutable(key: string, display: string)
    ensures ExecutablesText([Executable(key, display)]) == key + ":" + display + ";"
  {
    assert [Executable(key, display)][1..] == [];
  }

  lemma SameIdentity(a: Candidate, b: Candidate)
    requires a.providerAppId.Some? && b.providerAppId == a.providerAppId && b.providerId == a.providerId
    ensures StrongIdentity(a).Some? && StrongIdentity(a) == StrongIdentity(b)
  {
  }
}
