/** Every group has an outcome, and it has exactly one when the candidates that tie agree on what is taken from them. */
module CatalogOutcomes {
  import opened Words
  import opened CatalogModel
  import opened CatalogMerge

  // ---------------------------------------------------------------- orders of a group

  lemma InsertOrdered(s: seq<Candidate>, at: nat, c: Candidate)
    requires Ordered(s) && at <= |s|
    requires forall i :: 0 <= i < at ==> !Better(c, s[i])
    requires at < |s| ==> !Better(s[at], c)
    ensures Ordered(s[..at] + [c] + s[at..])
    ensures multiset(s[..at] + [c] + s[at..]) == multiset(s) + multiset{c}
  {
    hide Better;
    var t := s[..at] + [c] + s[at..];
    assert s == s[..at] + s[at..];
    forall i, j | 0 <= i < j < |t| ensures !Better(t[j], t[i]) {
      if i == at && j > at + 1 { NotBetterTransitive(c, s[at], s[j - 1]); }
    }
  }

  /** A candidate put in front of all that tie with it. */
  lemma PutInFront(t: seq<Candidate>, c: Candidate) returns (s: seq<Candidate>, at: nat)
    requires Ordered(t)
    ensures Ordered(s) && multiset(s) == multiset(t) + multiset{c}
    ensures at < |s| && s[at] == c && forall i :: 0 <= i < at ==> Better(s[i], c)
  {
    hide Better, Ordered;
    at := 0;
    while at < |t| && Better(t[at], c)
      invariant at <= |t| && forall i :: 0 <= i < at ==> Better(t[i], c)
    {
      at := at + 1;
    }
    forall i | 0 <= i < at ensures !Better(c, t[i]) { BetterIsStrictOrder(c, t[i], c); }
    InsertOrdered(t, at, c);
    s := t[..at] + [c] + t[at..];
  }

  /** A bag can be ordered with any of its candidates in front of all that tie with it. */
  lemma {:induction false} OrderFor(g: multiset<Candidate>, c: Candidate) returns (s: seq<Candidate>, at: nat)
    requires c in g
    ensures multiset(s) == g && Ordered(s) && at < |s| && s[at] == c && forall i :: 0 <= i < at ==> Better(s[i], c)
    decreases |g|
  {
    hide Better, Ordered;
    var rest := g - multiset{c};
    var t: seq<Candidate> := [];
    if rest == multiset{} {
      assert Ordered(t) by { NothingOrdered(); }
    } else {
      var d :| d in rest;
      var k;
      t, k := OrderFor(rest, d);
    }
    s, at := PutInFront(t, c);
  }

  lemma NothingOrdered()
    ensures Ordered([])
  {
  }

  /** Each of the best candidates leads some order. */
  lemma BestLeads(g: multiset<Candidate>, w: Wanted, c: Candidate) returns (s: seq<Candidate>)
    requires IsBest(g, w, c)
    ensures multiset(s) == g && Ordered(s) && Leads(s, w, c)
  {
    hide Better, Meets, Ordered;
    var at;
    s, at := OrderFor(g, c);
    forall i | 0 <= i < at ensures !Meets(s[i], w) { assert s[i] in multiset(s); }
    assert LeadsAt(s, w, at);
  }

  lemma {:induction false} LeaderExists(s: seq<Candidate>, w: Wanted) returns (c: Candidate)
    requires Someone(multiset(s), w)
    ensures Leads(s, w, c)
    decreases |s|
  {
    hide Meets;
    var n := |s| - 1;
    assert s == s[..n] + [s[n]];
    if Someone(multiset(s[..n]), w) {
      c := LeaderExists(s[..n], w);
      var i :| LeadsAt(s[..n], w, i) && s[..n][i] == c;
      assert LeadsAt(s, w, i);
    } else {
      forall j | 0 <= j < n ensures !Meets(s[j], w) { assert s[..n][j] in multiset(s[..n]); }
      c := s[n];
      assert LeadsAt(s, w, n);
    }
  }

  /** A group has an order and, in it, a representative. */
  lemma RepresentativeExists(g: multiset<Candidate>) returns (s: seq<Candidate>, rep: Candidate)
    requires g != multiset{}
    ensures multiset(s) == g && Ordered(s) && Leads(s, Wish(g), rep)
  {
    hide Ordered, Leads;
    var c :| c in g;
    assert Meets(c, Anyone);
    var at;
    s, at := OrderFor(g, c);
    rep := LeaderExists(s, Wish(g));
  }

  // ---------------------------------------------------------------- every part of an entry exists

  lemma FirstValueExists(s: seq<Candidate>, f: Field)
    ensures exists v :: IsFirstValue(s, f, v)
  {
    hide Leads, Get;
    if Someone(multiset(s), Having(f)) {
      var c := LeaderExists(s, Having(f));
      assert IsFirstValue(s, f, Get(c, f));
    } else {
      assert IsFirstValue(s, f, None);
    }
  }

  lemma StalenessExists(g: multiset<Candidate>)
    requires g != multiset{}
    ensures exists s :: IsMergedStaleness(g, s)
  {
    var c :| c in g;
    if exists c :: c in g && c.staleness.Current? {
      assert IsMergedStaleness(g, Staleness.Current);
    } else if forall c :: c in g ==> c.staleness.Stale? {
      assert IsMergedStaleness(g, Staleness.Stale);
    } else {
      assert IsMergedStaleness(g, Staleness.Unknown);
    }
  }

  lemma ArchitectureExists(g: multiset<Candidate>)
    ensures exists a :: IsMergedArchitecture(g, a)
  {
    hide Authority;
    if exists b :: Agreed(g, b) {
      var b :| Agreed(g, b);
      assert IsMergedArchitecture(g, b);
    } else {
      assert IsMergedArchitecture(g, Architecture.Unknown);
    }
  }

  lemma {:induction false} LeastExists(keys: set<string>)
    requires keys != {}
    ensures exists key :: key in keys && forall other :: other in keys ==> !Less(other, key)
  {
    var x :| x in keys;
    LessTrichotomy(x, x);
    if keys == {x} {
    } else {
      LeastExists(keys - {x});
      var y :| y in keys - {x} && forall other :: other in keys - {x} ==> !Less(other, y);
      var least := if Less(x, y) then x else y;
      forall other | other in keys ensures !Less(other, least) {
        if least == x && other != x && Less(other, x) { LessTransitive(other, x, y); }
      }
    }
  }

  lemma {:induction false} ListKeys(keys: set<string>) returns (list: seq<string>)
    ensures Ascending(list) && forall key :: key in list <==> key in keys
    decreases |keys|
  {
    hide Less;
    if keys == {} {
      list := [];
    } else {
      LeastExists(keys);
      var least :| least in keys && forall other :: other in keys ==> !Less(other, least);
      var rest := ListKeys(keys - {least});
      forall i | 0 <= i < |rest| ensures Less(least, rest[i]) {
        assert rest[i] in rest;
        LessTrichotomy(least, rest[i]);
      }
      list := [least] + rest;
    }
  }

  lemma LeastDisplayExists(g: multiset<Candidate>, key: string)
    requires GroupHas(g, key)
    ensures exists display :: IsLeastDisplay(g, key, display)
  {
    hide Less;
    var displays := set c, e | c in g && e in c.executables && e.key == key :: e.display;
    forall d ensures d in displays <==> HasDisplay(g, key, d) {
      if d in displays {
        var c, e :| c in g && e in c.executables && e.key == key && d == e.display;
        assert e == Executable(key, d);
      }
    }
    LeastExists(displays);
    var least :| least in displays && forall other :: other in displays ==> !Less(other, least);
    assert IsLeastDisplay(g, key, least);
  }

  lemma {:induction false} ListDisplays(g: multiset<Candidate>, keys: seq<string>) returns (displays: seq<string>)
    requires forall key :: key in keys ==> GroupHas(g, key)
    ensures |displays| == |keys| && forall i :: 0 <= i < |keys| ==> IsLeastDisplay(g, keys[i], displays[i])
  {
    hide IsLeastDisplay, GroupHas;
    if keys == [] {
      displays := [];
    } else {
      LeastDisplayExists(g, keys[0]);
      var first :| IsLeastDisplay(g, keys[0], first);
      var rest := ListDisplays(g, keys[1..]);
      displays := [first] + rest;
    }
  }

  lemma OtherPaths(g: multiset<Candidate>, own: seq<Executable>) returns (others: set<string>)
    ensures forall key :: key in others <==> GroupHas(g, key) && !Listed(own, key)
  {
    hide Listed;
    others := set c, e | c in g && e in c.executables && !Listed(own, e.key) :: e.key;
    forall key ensures key in others <==> GroupHas(g, key) && !Listed(own, key) {
      if key in others {
        var c, e :| c in g && e in c.executables && !Listed(own, e.key) && key == e.key;
        assert e == Executable(key, e.display);
        assert HasDisplay(g, key, e.display);
      }
    }
  }

  lemma MergedExists(g: multiset<Candidate>, own: seq<Executable>)
    ensures exists out :: IsMergedExecutables(g, own, out)
  {
    hide Ascending, IsLeastDisplay, Listed, GroupHas;
    var others := OtherPaths(g, own);
    var keys := ListKeys(others);
    var displays := ListDisplays(g, keys);
    var out := seq(|own|, i requires 0 <= i < |own| => own[i].display) + displays;
    forall i | 0 <= i < |keys| ensures IsLeastDisplay(g, keys[i], out[|own| + i]) {
      assert out[|own| + i] == displays[i];
    }
    assert MergedAs(g, own, keys, out);
    assert IsMergedExecutables(g, own, out);
  }

  // ---------------------------------------------------------------- every group has an outcome

  lemma EntryExists(schema: Schema, s: seq<Candidate>, rep: Candidate, identity: string) returns (entry: Entry)
    requires s != []
    ensures IsEntry(schema, s, rep, identity, entry)
  {
    hide IsFirstValue, IsMergedExecutables, IsMergedArchitecture, IsMergedStaleness;
    var g := multiset(s);
    assert s[0] in g;
    FirstValueExists(s, LocalVersion);
    FirstValueExists(s, ExecutableSha256);
    FirstValueExists(s, Compatibility);
    FirstValueExists(s, LocalIconSource);
    MergedExists(g, rep.executables);
    ArchitectureExists(g);
    StalenessExists(g);
    var version :| IsFirstValue(s, LocalVersion, version);
    var sha :| IsFirstValue(s, ExecutableSha256, sha);
    var compatibility :| IsFirstValue(s, Compatibility, compatibility);
    var icon :| IsFirstValue(s, LocalIconSource, icon);
    var executables :| IsMergedExecutables(g, rep.executables, executables);
    var architecture :| IsMergedArchitecture(g, architecture);
    var staleness :| IsMergedStaleness(g, staleness);
    entry := Entry(Game(schema.gameId(identity), rep.providerId, rep.providerAppId, rep.title, rep.installRoot, executables,
                        version, sha, compatibility, rep.origin),
                   icon, architecture, staleness, |s|);
  }

  lemma EntryOutcome(schema: Schema, s: seq<Candidate>, rep: Candidate, identity: string, entry: Entry)
    requires !SeveralIdentities(multiset(s)) && Ordered(s) && Leads(s, Wish(multiset(s)), rep)
    requires IdentityOf(rep) == Some(identity) && IsEntry(schema, s, rep, identity, entry)
    ensures IsOutcome(schema, multiset(s), Verdict(schema, identity, entry))
  {
    hide SeveralIdentities, Ordered, Leads, Wish, IdentityOf, IsEntry, Verdict;
    assert Reconciles(schema, s, rep, Verdict(schema, identity, entry));
    assert ReconcilesAs(schema, multiset(s), s, Verdict(schema, identity, entry));
  }

  /** Any order of a group yields an outcome, with its representative's identity. */
  lemma OrderOutcome(schema: Schema, s: seq<Candidate>, rep: Candidate) returns (o: Outcome)
    requires !SeveralIdentities(multiset(s)) && s != [] && Ordered(s) && Leads(s, Wish(multiset(s)), rep)
    ensures IsOutcome(schema, multiset(s), o)
    ensures IdentityOf(rep).Some? ==> (o.Built? || o.InvalidGame?) && o.identity == IdentityOf(rep).value
    ensures IdentityOf(rep).None? ==> o.NoExecutable?
  {
    hide SeveralIdentities, Ordered, Leads, Wish, IdentityOf, IsEntry;
    match IdentityOf(rep)
    case None =>
      o := NoExecutable;
      assert Reconciles(schema, s, rep, o);
      assert ReconcilesAs(schema, multiset(s), s, o);
    case Some(identity) =>
      var entry := EntryExists(schema, s, rep, identity);
      EntryOutcome(schema, s, rep, identity, entry);
      o := Verdict(schema, identity, entry);
  }

  lemma OutcomeExists(schema: Schema, g: multiset<Candidate>) returns (o: Outcome)
    requires g != multiset{}
    ensures IsOutcome(schema, g, o)
  {
    hide SeveralIdentities, Ordered, Leads, Wish, ReconcilesAs;
    if SeveralIdentities(g) {
      o := IdentityConflict;
    } else {
      var s, rep := RepresentativeExists(g);
      o := OrderOutcome(schema, s, rep);
    }
  }

  lemma IdentifiedOutcome(schema: Schema, g: multiset<Candidate>, identity: string) returns (o: Outcome)
    requires Identifies(g, identity)
    ensures IsOutcome(schema, g, o) && (o.Built? || o.InvalidGame?) && o.identity == identity
  {
    hide SeveralIdentities, Ordered, Leads, Wish, IsBest, IdentityOf, IsOutcome;
    var rep :| IsRepresentative(g, rep) && IdentityOf(rep) == Some(identity);
    var s := BestLeads(g, Wish(g), rep);
    assert s != [] by { LeaderMember(s, Wish(g), rep); }
    o := OrderOutcome(schema, s, rep);
  }

  lemma LeaderMember(s: seq<Candidate>, w: Wanted, c: Candidate)
    requires Leads(s, w, c)
    ensures c in s && c in multiset(s)
  {
  }

  // ---------------------------------------------------------------- the exact condition

  /** Whatever the order of candidates that tie, the group becomes an entry. */
  ghost predicate AlwaysBuilds(schema: Schema, g: multiset<Candidate>) {
    forall o :: IsOutcome(schema, g, o) ==> o.Built?
  }

  /** A path's key is a function of its spelling, as it is when the key is the normalized path. */
  ghost predicate Keyed(g: multiset<Candidate>) {
    forall c, d, e, f :: c in g && d in g && e in c.executables && f in d.executables && e.display == f.display
                         ==> e.key == f.key
  }

  lemma BuiltEntry(schema: Schema, s: seq<Candidate>, rep: Candidate) returns (identity: string, entry: Entry)
    requires AlwaysBuilds(schema, multiset(s)) && !SeveralIdentities(multiset(s)) && s != []
    requires Ordered(s) && Leads(s, Wish(multiset(s)), rep)
    ensures IdentityOf(rep) == Some(identity) && IsEntry(schema, s, rep, identity, entry)
    ensures IsOutcome(schema, multiset(s), Built(identity, entry))
  {
    hide SeveralIdentities, Ordered, Leads, Wish, IdentityOf, IsEntry, IsOutcome;
    var o := OrderOutcome(schema, s, rep);
    identity := IdentityOf(rep).value;
    entry := EntryExists(schema, s, rep, identity);
    EntryOutcome(schema, s, rep, identity, entry);
  }

  /** Equal entries come from alike representatives. */
  lemma EqualEntriesAlike(schema: Schema, s: seq<Candidate>, t: seq<Candidate>, c: Candidate, d: Candidate, x: string,
                          y: string, entry: Entry)
    requires multiset(s) == multiset(t) && Keyed(multiset(s)) && c in multiset(s) && d in multiset(s)
    requires IdentityOf(c) == Some(x) && IdentityOf(d) == Some(y)
    requires IsEntry(schema, s, c, x, entry) && IsEntry(schema, t, d, y, entry)
    ensures Alike(multiset(s), c, d)
  {
    hide IsFirstValue, IsMergedArchitecture, IsMergedStaleness, Keyed, IsMergedExecutables;
    if StrongIdentity(c).None? {
      FirstSpelling(multiset(s), c.executables, entry.game.executables);
      FirstSpelling(multiset(s), d.executables, entry.game.executables);
      FirstKeys(multiset(s), c, d);
    }
  }

  lemma FirstSpelling(g: multiset<Candidate>, own: seq<Executable>, out: seq<string>)
    requires |own| > 0 && IsMergedExecutables(g, own, out)
    ensures |out| > 0 && out[0] == own[0].display
  {
    hide Ascending, GroupHas, Listed, IsLeastDisplay;
  }

  lemma FirstKeys(g: multiset<Candidate>, c: Candidate, d: Candidate)
    requires Keyed(g) && c in g && d in g && |c.executables| > 0 && |d.executables| > 0
    requires c.executables[0].display == d.executables[0].display
    ensures c.executables[0].key == d.executables[0].key
  {
    assert c.executables[0] in c.executables && d.executables[0] in d.executables;
  }

  function FieldOf(entry: Entry, f: Field): Option<string> {
    match f
    case LocalVersion => entry.game.localVersion
    case ExecutableSha256 => entry.game.executableSha256
    case Compatibility => entry.game.compatibility
    case LocalIconSource => entry.localIconSource
  }

  lemma EntryField(schema: Schema, s: seq<Candidate>, rep: Candidate, identity: string, entry: Entry, f: Field)
    requires IsEntry(schema, s, rep, identity, entry)
    ensures IsFirstValue(s, f, FieldOf(entry, f))
  {
    hide IsFirstValue, IsMergedExecutables, IsMergedArchitecture, IsMergedStaleness;
  }

  lemma LeaderValue(s: seq<Candidate>, f: Field, c: Candidate, v: Option<string>)
    requires Leads(s, Having(f), c) && IsFirstValue(s, f, v)
    ensures v == Get(c, f)
  {
    hide Get;
    assert c in multiset(s) && Meets(c, Having(f));
  }

  lemma RepresentativesDiffer(schema: Schema, g: multiset<Candidate>)
    returns (x: string, e: Entry, y: string, f: Entry)
    requires Keyed(g) && AlwaysBuilds(schema, g) && !SeveralIdentities(g) && !RepresentativesAlike(g)
    ensures IsOutcome(schema, g, Built(x, e)) && IsOutcome(schema, g, Built(y, f)) && e != f
  {
    hide Keyed, AlwaysBuilds, SeveralIdentities, IsBest, Alike, IsOutcome, IsEntry, IdentityOf, Ordered, Leads, Wish;
    var c, d :| IsRepresentative(g, c) && IsRepresentative(g, d) && !Alike(g, c, d);
    var s := BestLeads(g, Wish(g), c);
    var t := BestLeads(g, Wish(g), d);
    LeaderMember(s, Wish(g), c);
    LeaderMember(t, Wish(g), d);
    x, e := BuiltEntry(schema, s, c);
    y, f := BuiltEntry(schema, t, d);
    if e == f { EqualEntriesAlike(schema, s, t, c, d, x, y, e); }
  }

  /** The entry of an order that a best candidate for the field leads. */
  lemma FieldChoice(schema: Schema, g: multiset<Candidate>, f: Field, c: Candidate) returns (x: string, entry: Entry)
    requires AlwaysBuilds(schema, g) && !SeveralIdentities(g) && IsBest(g, Having(f), c)
    ensures IsOutcome(schema, g, Built(x, entry)) && FieldOf(entry, f) == Get(c, f)
  {
    hide AlwaysBuilds, SeveralIdentities, IsBest, IsOutcome, IsEntry, IdentityOf, Ordered, Leads, IsFirstValue, Get, FieldOf;
    var s := BestLeads(g, Having(f), c);
    LeaderMember(s, Having(f), c);
    assert Meets(c, Anyone);
    var rep := LeaderExists(s, Wish(g));
    x, entry := BuiltEntry(schema, s, rep);
    EntryField(schema, s, rep, x, entry, f);
    LeaderValue(s, f, c, FieldOf(entry, f));
  }

  /** A group that is not determined becomes different entries under two orders of the candidates that tie. */
  lemma TwoOutcomes(schema: Schema, g: multiset<Candidate>) returns (x: string, d: Entry, y: string, e: Entry)
    requires Keyed(g) && AlwaysBuilds(schema, g) && !Determined(g)
    ensures IsOutcome(schema, g, Built(x, d)) && IsOutcome(schema, g, Built(y, e)) && d != e
  {
    hide Keyed, AlwaysBuilds, SeveralIdentities, RepresentativesAlike, IsOutcome, IsBest;
    if !RepresentativesAlike(g) {
      x, d, y, e := RepresentativesDiffer(schema, g);
    } else {
      var f :| !FieldAlike(g, f);
      var a, b :| IsBest(g, Having(f), a) && IsBest(g, Having(f), b) && Get(a, f) != Get(b, f);
      x, d := FieldChoice(schema, g, f, a);
      y, e := FieldChoice(schema, g, f, b);
    }
  }

  /** A group that becomes an entry becomes the same entry in every order if and only if it is determined. */
  lemma OutcomeExactly(schema: Schema, g: multiset<Candidate>)
    requires Keyed(g) && AlwaysBuilds(schema, g)
    ensures Determined(g) <==> forall x, y :: IsOutcome(schema, g, x) && IsOutcome(schema, g, y) ==> x == y
  {
    hide Keyed, AlwaysBuilds, Determined, IsOutcome;
    if Determined(g) {
      forall x, y | IsOutcome(schema, g, x) && IsOutcome(schema, g, y) ensures x == y { OutcomeUnique(schema, g, x, y); }
    } else {
      var x, d, y, e := TwoOutcomes(schema, g);
      assert Built(x, d) != Built(y, e);
    }
  }

  /** Without ties there is nothing to agree on. */
  lemma TieFreeDetermined(g: multiset<Candidate>)
    requires TieFree(g)
    ensures Determined(g)
  {
    hide TieFree, IsBest, Meets, IdentityOf, IsMergedExecutables, SeveralIdentities, Wish;
    forall c, d | IsRepresentative(g, c) && IsRepresentative(g, d) ensures Alike(g, c, d) {
      BestUnique(g, Wish(g), c, d);
      MergedExists(g, c.executables);
    }
    forall f ensures FieldAlike(g, f) {
      forall c, d | IsBest(g, Having(f), c) && IsBest(g, Having(f), d) ensures Get(c, f) == Get(d, f) {
        BestUnique(g, Having(f), c, d);
      }
    }
  }
}
