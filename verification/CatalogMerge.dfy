/** Reconciling one group of candidates into one catalog entry. */
module CatalogMerge {
  import opened Words
  import opened CatalogModel

  // ---------------------------------------------------------------- what is merged

  datatype Game = Game(
    gameId: string,
    providerId: string,
    providerAppId: Option<string>,
    title: string,
    installRoot: string,
    executables: seq<string>,
    localVersion: Option<string>,
    executableSha256: Option<string>,
    compatibility: Option<string>,
    origin: Origin)

  datatype Entry = Entry(
    game: Game,
    localIconSource: Option<string>,
    architecture: Architecture,
    staleness: Staleness,
    mergedCandidateCount: nat)

  /** Code the catalog calls but does not define: the id hash and the document schema. */
  datatype Schema = Schema(gameId: string -> string, validDocument: seq<Game> -> bool)

  datatype Outcome =
    | Built(identity: string, entry: Entry)
    | IdentityConflict
    | NoExecutable
    | InvalidGame(identity: string)

  datatype Field = LocalVersion | ExecutableSha256 | Compatibility | LocalIconSource

  function Get(c: Candidate, f: Field): Option<string> {
    match f
    case LocalVersion => c.localVersion
    case ExecutableSha256 => c.executableSha256
    case Compatibility => c.compatibility
    case LocalIconSource => c.localIconSource
  }

  /** What a scan over the ordered group looks for. */
  datatype Wanted = Anyone | Identified | Having(field: Field)

  predicate Meets(c: Candidate, w: Wanted) {
    match w
    case Anyone => true
    case Identified => StrongIdentity(c).Some?
    case Having(f) => Get(c, f).Some?
  }

  // ---------------------------------------------------------------- what the entry must be, up to the order of ties

  /** No candidate of the group that meets the wish is better. */
  ghost predicate IsBest(g: multiset<Candidate>, w: Wanted, c: Candidate) {
    && c in g && Meets(c, w)
    && forall d :: d in g && Meets(d, w) ==> !Better(d, c)
  }

  ghost predicate Someone(g: multiset<Candidate>, w: Wanted) {
    exists c :: c in g && Meets(c, w)
  }

  /** What the representative must be: a candidate with an identity, if there is one. */
  ghost function Wish(g: multiset<Candidate>): Wanted {
    if Someone(g, Identified) then Identified else Anyone
  }

  ghost predicate IsRepresentative(g: multiset<Candidate>, c: Candidate) {
    IsBest(g, Wish(g), c)
  }

  /** No candidate comes after a worse one; candidates that tie may come in any order. */
  ghost predicate Ordered(s: seq<Candidate>) {
    forall i, j :: 0 <= i < j < |s| ==> !Better(s[j], s[i])
  }

  /** The first candidate of the list that meets the wish. */
  ghost predicate Leads(s: seq<Candidate>, w: Wanted, c: Candidate) {
    exists i :: LeadsAt(s, w, i) && s[i] == c
  }

  ghost predicate LeadsAt(s: seq<Candidate>, w: Wanted, i: int) {
    0 <= i < |s| && Meets(s[i], w) && forall j :: 0 <= j < i ==> !Meets(s[j], w)
  }

  ghost predicate IsFirstValue(s: seq<Candidate>, f: Field, v: Option<string>) {
    if Someone(multiset(s), Having(f)) then exists c :: Leads(s, Having(f), c) && v == Get(c, f) else v == None
  }

  ghost predicate IsMergedStaleness(g: multiset<Candidate>, s: Staleness) {
    && (s.Current? <==> exists c :: c in g && c.staleness.Current?)
    && (s.Stale? <==> forall c :: c in g ==> c.staleness.Stale?)
  }

  /** A candidate whose architecture is known, and none that is known is fresher. */
  ghost predicate Authority(g: multiset<Candidate>, c: Candidate) {
    && c in g && !c.architecture.Unknown?
    && forall d :: d in g && !d.architecture.Unknown? ==> StalenessQuality(d.staleness) <= StalenessQuality(c.staleness)
  }

  ghost predicate Agreed(g: multiset<Candidate>, a: Architecture) {
    && !a.Unknown?
    && (exists c :: Authority(g, c) && c.architecture == a)
    && forall c :: Authority(g, c) ==> c.architecture == a
  }

  ghost predicate IsMergedArchitecture(g: multiset<Candidate>, a: Architecture) {
    if a.Unknown? then forall b :: !Agreed(g, b) else Agreed(g, a)
  }

  ghost predicate HasDisplay(g: multiset<Candidate>, key: string, display: string) {
    exists c :: c in g && Executable(key, display) in c.executables
  }

  ghost predicate IsLeastDisplay(g: multiset<Candidate>, key: string, display: string) {
    HasDisplay(g, key, display) && forall d :: HasDisplay(g, key, d) ==> !Less(d, display)
  }

  ghost predicate GroupHas(g: multiset<Candidate>, key: string) {
    exists display :: HasDisplay(g, key, display)
  }

  predicate Listed(executables: seq<Executable>, key: string) {
    exists e :: e in executables && e.key == key
  }

  predicate Ascending(keys: seq<string>) {
    forall i, j :: 0 <= i < j < |keys| ==> Less(keys[i], keys[j])
  }

  /** The representative's executables in their order, then every other path once, by key, in its least spelling. */
  ghost predicate MergedAs(g: multiset<Candidate>, own: seq<Executable>, keys: seq<string>, out: seq<string>) {
    && |out| == |own| + |keys|
    && (forall i :: 0 <= i < |own| ==> out[i] == own[i].display)
    && Ascending(keys)
    && (forall key :: key in keys <==> GroupHas(g, key) && !Listed(own, key))
    && (forall i :: 0 <= i < |keys| ==> IsLeastDisplay(g, keys[i], out[|own| + i]))
  }

  ghost predicate IsMergedExecutables(g: multiset<Candidate>, own: seq<Executable>, out: seq<string>) {
    exists keys :: MergedAs(g, own, keys, out)
  }

  predicate DistinctKeys(executables: seq<Executable>) {
    forall i, j :: 0 <= i < j < |executables| ==> executables[i].key != executables[j].key
  }

  function IdentityOf(c: Candidate): Option<string> {
    if StrongIdentity(c).Some? then StrongIdentity(c)
    else if |c.executables| == 0 then None
    else Some("exe|" + c.executables[0].key)
  }

  ghost predicate SeveralIdentities(g: multiset<Candidate>) {
    exists c, d :: c in g && d in g && Meets(c, Identified) && Meets(d, Identified)
                   && StrongIdentity(c) != StrongIdentity(d)
  }

  /** The game a representative with the given identity gives the ordered group. */
  ghost predicate IsGame(schema: Schema, s: seq<Candidate>, rep: Candidate, identity: string, game: Game) {
    && game.gameId == schema.gameId(identity)
    && game.providerId == rep.providerId && game.providerAppId == rep.providerAppId
    && game.title == rep.title && game.installRoot == rep.installRoot && game.origin == rep.origin
    && IsMergedExecutables(multiset(s), rep.executables, game.executables)
    && IsFirstValue(s, LocalVersion, game.localVersion)
    && IsFirstValue(s, ExecutableSha256, game.executableSha256)
    && IsFirstValue(s, Compatibility, game.compatibility)
  }

  ghost predicate IsEntry(schema: Schema, s: seq<Candidate>, rep: Candidate, identity: string, entry: Entry) {
    && IsGame(schema, s, rep, identity, entry.game)
    && IsFirstValue(s, LocalIconSource, entry.localIconSource)
    && IsMergedArchitecture(multiset(s), entry.architecture)
    && IsMergedStaleness(multiset(s), entry.staleness)
    && entry.mergedCandidateCount == |s|
  }

  /** What reconciling a group yields under some order of the candidates that tie, which sorting leaves open. */
  ghost predicate IsOutcome(schema: Schema, g: multiset<Candidate>, o: Outcome) {
    if SeveralIdentities(g) then o == IdentityConflict else exists s :: ReconcilesAs(schema, g, s, o)
  }

  ghost predicate ReconcilesAs(schema: Schema, g: multiset<Candidate>, s: seq<Candidate>, o: Outcome) {
    && multiset(s) == g && Ordered(s)
    && exists rep :: Leads(s, Wish(g), rep) && Reconciles(schema, s, rep, o)
  }

  ghost predicate Reconciles(schema: Schema, s: seq<Candidate>, rep: Candidate, o: Outcome) {
    match IdentityOf(rep)
    case None => o == NoExecutable
    case Some(identity) => exists entry :: IsEntry(schema, s, rep, identity, entry) && o == Verdict(schema, identity, entry)
  }

  function Verdict(schema: Schema, identity: string, entry: Entry): Outcome {
    if schema.validDocument([entry.game]) then Built(identity, entry) else InvalidGame(identity)
  }

  // ---------------------------------------------------------------- when the outcome is determined

  /** Both lead to the same list of executables. */
  ghost predicate MergeAlike(g: multiset<Candidate>, c: Candidate, d: Candidate) {
    exists out :: IsMergedExecutables(g, c.executables, out) && IsMergedExecutables(g, d.executables, out)
  }

  /** What an entry takes from its representative is the same in both. */
  ghost predicate Alike(g: multiset<Candidate>, c: Candidate, d: Candidate) {
    && IdentityOf(c) == IdentityOf(d)
    && c.providerId == d.providerId && c.providerAppId == d.providerAppId
    && c.title == d.title && c.installRoot == d.installRoot && c.origin == d.origin
    && MergeAlike(g, c, d)
  }

  ghost predicate RepresentativesAlike(g: multiset<Candidate>) {
    forall c, d :: IsRepresentative(g, c) && IsRepresentative(g, d) ==> Alike(g, c, d)
  }

  ghost predicate FieldAlike(g: multiset<Candidate>, f: Field) {
    forall c, d :: IsBest(g, Having(f), c) && IsBest(g, Having(f), d) ==> Get(c, f) == Get(d, f)
  }

  /** The candidates that tie for a place in the entry agree on what is taken from it. */
  ghost predicate Determined(g: multiset<Candidate>) {
    SeveralIdentities(g) || (RepresentativesAlike(g) && forall f :: FieldAlike(g, f))
  }

  /** Candidates that the order cannot tell apart are the same candidate: the simplest way to be determined. */
  ghost predicate TieFree(g: multiset<Candidate>) {
    forall c, d :: c in g && d in g && c.canonicalKey == d.canonicalKey ==> c == d
  }

  lemma BestUnique(g: multiset<Candidate>, w: Wanted, c: Candidate, d: Candidate)
    requires TieFree(g) && IsBest(g, w, c) && IsBest(g, w, d)
    ensures c == d
  {
    hide Better, Meets;
    BetterIsStrictOrder(c, d, c);
  }

  // ---------------------------------------------------------------- the outcome is unique

  /** The first match in the ordered group is the best of all that match. */
  lemma LeaderIsBest(s: seq<Candidate>, w: Wanted, c: Candidate)
    requires Ordered(s) && Leads(s, w, c)
    ensures IsBest(multiset(s), w, c)
  {
    hide Better, Meets;
    var i :| LeadsAt(s, w, i) && s[i] == c;
    forall d | d in multiset(s) && Meets(d, w) ensures !Better(d, c) {
      var j :| 0 <= j < |s| && s[j] == d;
      BetterIsStrictOrder(d, d, d);
    }
  }

  lemma FirstValueUnique(s: seq<Candidate>, t: seq<Candidate>, f: Field, u: Option<string>, v: Option<string>)
    requires multiset(s) == multiset(t) && Ordered(s) && Ordered(t) && FieldAlike(multiset(s), f)
    requires IsFirstValue(s, f, u) && IsFirstValue(t, f, v)
    ensures u == v
  {
    hide IsBest, Get, Ordered, Leads;
    if Someone(multiset(s), Having(f)) {
      var c :| Leads(s, Having(f), c) && u == Get(c, f);
      var d :| Leads(t, Having(f), d) && v == Get(d, f);
      LeaderIsBest(s, Having(f), c);
      LeaderIsBest(t, Having(f), d);
    }
  }

  lemma StalenessUnique(g: multiset<Candidate>, s: Staleness, t: Staleness)
    requires IsMergedStaleness(g, s) && IsMergedStaleness(g, t)
    ensures s == t
  {
    var current, stale := exists c :: c in g && c.staleness.Current?, forall c :: c in g ==> c.staleness.Stale?;
    if !s.Current? && !s.Stale? { assert s == Staleness.Unknown; }
    if !t.Current? && !t.Stale? { assert t == Staleness.Unknown; }
  }

  lemma ArchitectureUnique(g: multiset<Candidate>, a: Architecture, b: Architecture)
    requires IsMergedArchitecture(g, a) && IsMergedArchitecture(g, b)
    ensures a == b
  {
    if !a.Unknown? && !b.Unknown? {
      var c :| Authority(g, c) && c.architecture == a;
    }
  }

  lemma SomeElement(t: seq<string>)
    ensures t == [] || exists x :: x in t
  {
    if t != [] { assert t[0] in t; }
  }

  /** An ascending list is determined by its elements. */
  lemma {:induction false} AscendingUnique(s: seq<string>, t: seq<string>)
    requires Ascending(s) && Ascending(t) && forall x :: x in s <==> x in t
    ensures s == t
    decreases |s|
  {
    if |s| == 0 {
      SomeElement(t);
    } else {
      assert s[0] in t && t[0] in s;
      var i :| 0 <= i < |t| && t[i] == s[0];
      var j :| 0 <= j < |s| && s[j] == t[0];
      LessTrichotomy(s[0], t[0]);
      assert s[0] == t[0];
      var u, v := s[1..], t[1..];
      forall x ensures x in u <==> x in v { InTail(s, x); InTail(t, x); }
      AscendingUnique(u, v);
      assert s == [s[0]] + u && t == [t[0]] + v;
    }
  }

  lemma InTail(s: seq<string>, x: string)
    requires Ascending(s) && |s| > 0
    ensures x in s[1..] <==> x in s && x != s[0]
  {
    if x in s[1..] {
      var i :| 0 <= i < |s[1..]| && s[1..][i] == x;
      assert Less(s[0], s[i + 1]);
      LessTrichotomy(s[0], s[0]);
    } else {
      assert s == [s[0]] + s[1..];
    }
  }

  lemma MergedUnique(g: multiset<Candidate>, own: seq<Executable>, out: seq<string>, other: seq<string>)
    requires IsMergedExecutables(g, own, out) && IsMergedExecutables(g, own, other)
    ensures out == other
  {
    hide Ascending, GroupHas, Listed, HasDisplay, Less;
    var a :| MergedAs(g, own, a, out);
    var b :| MergedAs(g, own, b, other);
    AscendingUnique(a, b);
    forall i | 0 <= i < |out| ensures out[i] == other[i] {
      if i >= |own| {
        var k := i - |own|;
        assert IsLeastDisplay(g, a[k], out[|own| + k]) && IsLeastDisplay(g, b[k], other[|own| + k]);
        LessTrichotomy(out[i], other[i]);
      }
    }
  }

  lemma ExecutablesAlike(g: multiset<Candidate>, c: Candidate, d: Candidate, xs: seq<string>, ys: seq<string>)
    requires MergeAlike(g, c, d) && IsMergedExecutables(g, c.executables, xs) && IsMergedExecutables(g, d.executables, ys)
    ensures xs == ys
  {
    hide IsMergedExecutables;
    var out :| IsMergedExecutables(g, c.executables, out) && IsMergedExecutables(g, d.executables, out);
    MergedUnique(g, c.executables, xs, out);
    MergedUnique(g, d.executables, ys, out);
  }

  lemma EntryUnique(schema: Schema, s: seq<Candidate>, t: seq<Candidate>, c: Candidate, d: Candidate, identity: string,
                    x: Entry, y: Entry)
    requires multiset(s) == multiset(t) && Ordered(s) && Ordered(t)
    requires Alike(multiset(s), c, d) && forall f :: FieldAlike(multiset(s), f)
    requires IsEntry(schema, s, c, identity, x) && IsEntry(schema, t, d, identity, y)
    ensures x == y
  {
    hide FieldAlike, MergeAlike, IsFirstValue, IsMergedExecutables, IsMergedArchitecture, IsMergedStaleness, IdentityOf,
         Ordered;
    FirstValueUnique(s, t, LocalVersion, x.game.localVersion, y.game.localVersion);
    FirstValueUnique(s, t, ExecutableSha256, x.game.executableSha256, y.game.executableSha256);
    FirstValueUnique(s, t, Compatibility, x.game.compatibility, y.game.compatibility);
    FirstValueUnique(s, t, LocalIconSource, x.localIconSource, y.localIconSource);
    StalenessUnique(multiset(s), x.staleness, y.staleness);
    ArchitectureUnique(multiset(s), x.architecture, y.architecture);
    ExecutablesAlike(multiset(s), c, d, x.game.executables, y.game.executables);
    assert |multiset(s)| == |s| && |multiset(t)| == |t|;
  }

  lemma RepresentativesAgree(s: seq<Candidate>, t: seq<Candidate>, c: Candidate, d: Candidate)
    requires multiset(s) == multiset(t) && Ordered(s) && Ordered(t) && RepresentativesAlike(multiset(s))
    requires Leads(s, Wish(multiset(s)), c) && Leads(t, Wish(multiset(s)), d)
    ensures Alike(multiset(s), c, d) && IdentityOf(c) == IdentityOf(d)
  {
    hide IsBest, MergeAlike, IdentityOf, Leads, Wish, Ordered;
    LeaderIsBest(s, Wish(multiset(s)), c);
    LeaderIsBest(t, Wish(multiset(s)), d);
    assert IsRepresentative(multiset(s), c) && IsRepresentative(multiset(s), d);
  }

  /** A determined group has one outcome, whatever order its candidates arrive in. */
  lemma OutcomeUnique(schema: Schema, g: multiset<Candidate>, x: Outcome, y: Outcome)
    requires Determined(g) && IsOutcome(schema, g, x) && IsOutcome(schema, g, y)
    ensures x == y
  {
    hide RepresentativesAlike, FieldAlike, Alike, IsEntry, SeveralIdentities, IdentityOf, Ordered, Leads, Wish, Verdict;
    if !SeveralIdentities(g) {
      var s :| ReconcilesAs(schema, g, s, x);
      var t :| ReconcilesAs(schema, g, t, y);
      var c :| Leads(s, Wish(g), c) && Reconciles(schema, s, c, x);
      var d :| Leads(t, Wish(g), d) && Reconciles(schema, t, d, y);
      RepresentativesAgree(s, t, c, d);
      if IdentityOf(c).Some? {
        var identity := IdentityOf(c).value;
        var e :| IsEntry(schema, s, c, identity, e) && x == Verdict(schema, identity, e);
        var f :| IsEntry(schema, t, d, identity, f) && y == Verdict(schema, identity, f);
        EntryUnique(schema, s, t, c, d, identity, e, f);
      }
    }
  }

  /** The group has one identity, its representative's. */
  ghost predicate Identifies(g: multiset<Candidate>, identity: string) {
    && !SeveralIdentities(g)
    && exists rep :: IsRepresentative(g, rep) && IdentityOf(rep) == Some(identity)
  }
}
