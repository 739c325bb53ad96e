/** The passes that reconcile a group: sort it, pick its representative, merge its fields. */
module CatalogEntry {
  import opened Words
  import opened CatalogModel
  import opened CatalogMerge
  import opened CatalogOutcomes

  /** The sort by betterCandidate; the order of candidates that tie is left open. */
  method SortGroup(group: seq<Candidate>) returns (s: seq<Candidate>)
    ensures Ordered(s) && multiset(s) == multiset(group)
  {
    hide Better;
    s := [];
    for n := 0 to |group|
      invariant Ordered(s) && multiset(s) == multiset(group[..n])
    {
      var c := group[n];
      var at := 0;
      while at < |s| && !Better(c, s[at])
        invariant at <= |s| && forall i :: 0 <= i < at ==> !Better(c, s[i])
      {
        at := at + 1;
      }
      if at < |s| { BetterIsStrictOrder(c, s[at], c); }
      InsertOrdered(s, at, c);
      assert group[..n + 1] == group[..n] + [c];
      s := s[..at] + [c] + s[at..];
    }
    assert group[..|group|] == group;
  }

  method StrongIdentities(s: seq<Candidate>) returns (ids: set<string>)
    ensures forall id :: id in ids <==> exists c :: c in multiset(s) && StrongIdentity(c) == Some(id)
  {
    hide StrongIdentity;
    ids := {};
    for n := 0 to |s|
      invariant forall id :: id in ids <==> exists i :: 0 <= i < n && StrongIdentity(s[i]) == Some(id)
    {
      var strong := StrongIdentity(s[n]);
      if strong.Some? { ids := ids + {strong.value}; }
    }
    forall id ensures id in ids <==> exists c :: c in multiset(s) && StrongIdentity(c) == Some(id) {
      if id in ids {
        var i :| 0 <= i < |s| && StrongIdentity(s[i]) == Some(id);
        assert s[i] in multiset(s);
      }
    }
  }

  method FirstMeeting(s: seq<Candidate>, w: Wanted) returns (found: Option<Candidate>)
    ensures found.Some? ==> Leads(s, w, found.value)
    ensures found.None? ==> !Someone(multiset(s), w)
  {
    hide Meets;
    for n := 0 to |s|
      invariant forall i :: 0 <= i < n ==> !Meets(s[i], w)
    {
      if Meets(s[n], w) {
        assert LeadsAt(s, w, n);
        return Some(s[n]);
      }
    }
    found := None;
  }

  /** firstOptional */
  method FirstValue(s: seq<Candidate>, f: Field) returns (v: Option<string>)
    ensures IsFirstValue(s, f, v)
  {
    hide Leads;
    var found := FirstMeeting(s, Having(f));
    if found.Some? {
      LeaderMember(s, Having(f), found.value);
      assert Someone(multiset(s), Having(f)) by { LeaderMeets(s, Having(f), found.value); }
      v := Get(found.value, f);
    } else {
      v := None;
    }
  }

  lemma LeaderMeets(s: seq<Candidate>, w: Wanted, c: Candidate)
    requires Leads(s, w, c)
    ensures Meets(c, w)
  {
  }

  method MergeStaleness(s: seq<Candidate>) returns (r: Staleness)
    ensures IsMergedStaleness(multiset(s), r)
  {
    var unknown := false;
    for n := 0 to |s|
      invariant forall i :: 0 <= i < n ==> !s[i].staleness.Current?
      invariant unknown <==> exists i :: 0 <= i < n && s[i].staleness.Unknown?
    {
      if s[n].staleness.Current? {
        assert s[n] in multiset(s);
        return Staleness.Current;
      }
      if s[n].staleness.Unknown? { unknown := true; }
    }
    if unknown {
      var i :| 0 <= i < |s| && s[i].staleness.Unknown?;
      assert s[i] in multiset(s);
    }
    r := if unknown then Staleness.Unknown else Staleness.Stale;
  }

  /** Quality of a candidate's word on the architecture: 0 when it has none. */
  function Word(c: Candidate): nat {
    if c.architecture.Unknown? then 0 else StalenessQuality(c.staleness)
  }

  /** The kept set holds the architectures named at the best quality so far. */
  ghost predicate BestWords(s: seq<Candidate>, n: nat, best: nat, kept: set<Architecture>)
    requires n <= |s|
  {
    && (best > 0 ==> kept != {})
    && (forall i :: 0 <= i < n ==> Word(s[i]) <= best)
    && (forall a :: a in kept ==> exists i :: 0 <= i < n && s[i].architecture == a && Word(s[i]) == best && best > 0)
    && (forall i :: 0 <= i < n && best > 0 && Word(s[i]) == best ==> s[i].architecture in kept)
  }

  lemma WordsDecide(s: seq<Candidate>, best: nat, kept: set<Architecture>)
    requires BestWords(s, |s|, best, kept)
    ensures forall c :: Authority(multiset(s), c) <==> c in s && Word(c) == best && best > 0
    ensures forall a :: a in kept <==> exists c :: Authority(multiset(s), c) && c.architecture == a
  {
    forall c | Authority(multiset(s), c) ensures c in s && Word(c) == best && best > 0 {
      if kept != {} {
        var a :| a in kept;
        var i :| 0 <= i < |s| && s[i].architecture == a && Word(s[i]) == best && best > 0;
        assert s[i] in multiset(s);
      }
    }
    forall c | c in s && Word(c) == best && best > 0 ensures Authority(multiset(s), c) {
      forall d | d in multiset(s) && !d.architecture.Unknown? ensures StalenessQuality(d.staleness) <= StalenessQuality(c.staleness) {
        var i :| 0 <= i < |s| && s[i] == d;
        assert Word(s[i]) <= best;
      }
    }
    forall a | a in kept ensures exists c :: Authority(multiset(s), c) && c.architecture == a {
      var i :| 0 <= i < |s| && s[i].architecture == a && Word(s[i]) == best && best > 0;
      assert s[i] in s;
      assert Authority(multiset(s), s[i]);
    }
  }

  method MergeArchitecture(s: seq<Candidate>) returns (r: Architecture)
    ensures IsMergedArchitecture(multiset(s), r)
  {
    hide Authority;
    var best := 0;
    var kept: set<Architecture> := {};
    for n := 0 to |s|
      invariant BestWords(s, n, best, kept)
    {
      var c := s[n];
      if c.architecture.Unknown? { continue; }
      var quality := StalenessQuality(c.staleness);
      if quality > best {
        best, kept := quality, {c.architecture};
      } else if quality == best {
        kept := kept + {c.architecture};
      }
    }
    WordsDecide(s, best, kept);
    r := Only(s, kept);
  }

  lemma AgreedAlone(s: seq<Candidate>, kept: set<Architecture>, a: Architecture)
    requires forall b :: b in kept <==> exists c :: Authority(multiset(s), c) && c.architecture == b
    requires Agreed(multiset(s), a)
    ensures kept == {a}
  {
  }

  method Only(s: seq<Candidate>, kept: set<Architecture>) returns (r: Architecture)
    requires Architecture.Unknown !in kept
    requires forall a :: a in kept <==> exists c :: Authority(multiset(s), c) && c.architecture == a
    ensures IsMergedArchitecture(multiset(s), r)
  {
    if |kept| == 1 {
      var a :| a in kept;
      assert kept == {a} by {
        assert |kept - {a}| == 0;
      }
      r := a;
      forall c | Authority(multiset(s), c) ensures c.architecture == a {
        assert c.architecture in kept;
      }
    } else {
      r := Architecture.Unknown;
      forall a ensures !Agreed(multiset(s), a) {
        if Agreed(multiset(s), a) { AgreedAlone(s, kept, a); }
      }
    }
  }

  // ---------------------------------------------------------------- executables

  /** `remaining` holds, for each path seen that the representative does not list, the least spelling seen. */
  ghost predicate LeastSeen(seen: set<Executable>, own: seq<Executable>, remaining: map<string, string>) {
    && (forall e :: e in seen && !Listed(own, e.key) ==> e.key in remaining && !Less(e.display, remaining[e.key]))
    && (forall key :: key in remaining ==> Executable(key, remaining[key]) in seen && !Listed(own, key))
  }

  lemma SeeAnother(seen: set<Executable>, own: seq<Executable>, remaining: map<string, string>, e: Executable)
    requires LeastSeen(seen, own, remaining)
    ensures Listed(own, e.key) ==> LeastSeen(seen + {e}, own, remaining)
    ensures !Listed(own, e.key) && (e.key !in remaining || Less(e.display, remaining[e.key])) ==>
              LeastSeen(seen + {e}, own, remaining[e.key := e.display])
    ensures !Listed(own, e.key) && e.key in remaining && !Less(e.display, remaining[e.key]) ==>
              LeastSeen(seen + {e}, own, remaining)
  {
    hide Listed, Less;
    LessTrichotomy(e.display, e.display);
    if e.key in remaining && Less(e.display, remaining[e.key]) {
      forall d | d in seen && d.key == e.key && !Listed(own, d.key) ensures !Less(d.display, e.display) {
        if Less(d.display, e.display) { LessTransitive(d.display, e.display, remaining[e.key]); }
      }
    }
  }

  lemma NothingSeen(own: seq<Executable>)
    ensures LeastSeen({}, own, map[])
  {
  }

  ghost predicate SeenAll(s: seq<Candidate>, seen: set<Executable>) {
    forall e :: e in seen <==> exists c :: c in multiset(s) && e in c.executables
  }

  method CollectRemaining(own: seq<Executable>, s: seq<Candidate>, selected: map<string, string>)
    returns (remaining: map<string, string>, ghost seen: set<Executable>)
    requires forall key :: key in selected <==> Listed(own, key)
    ensures LeastSeen(seen, own, remaining) && SeenAll(s, seen)
  {
    hide LeastSeen, Less, Listed;
    remaining, seen := map[], {};
    NothingSeen(own);
    for n := 0 to |s|
      invariant LeastSeen(seen, own, remaining)
      invariant forall e :: e in seen <==> exists i :: 0 <= i < n && e in s[i].executables
    {
      ghost var before := seen;
      for m := 0 to |s[n].executables|
        invariant LeastSeen(seen, own, remaining)
        invariant forall e :: e in seen <==> e in before || e in s[n].executables[..m]
      {
        var e := s[n].executables[m];
        SeeAnother(seen, own, remaining, e);
        if e.key !in selected && (e.key !in remaining || Less(e.display, remaining[e.key])) {
          remaining := remaining[e.key := e.display];
        }
        seen := seen + {e};
      }
    }
    AllSeen(s, seen);
  }

  lemma AllSeen(s: seq<Candidate>, seen: set<Executable>)
    requires forall e :: e in seen <==> exists i :: 0 <= i < |s| && e in s[i].executables
    ensures SeenAll(s, seen)
  {
    forall e | e in seen ensures exists c :: c in multiset(s) && e in c.executables {
      var i :| 0 <= i < |s| && e in s[i].executables;
      assert s[i] in multiset(s);
    }
  }

  /** The keys of a map in ascending order. */
  method KeysInOrder(m: map<string, string>) returns (keys: seq<string>)
    ensures Ascending(keys) && forall key :: key in keys <==> key in m
  {
    hide Less;
    keys := [];
    var rest := m.Keys;
    while rest != {}
      invariant Ascending(keys) && rest <= m.Keys
      invariant forall key :: key in m <==> key in keys || key in rest
      invariant forall i, key :: 0 <= i < |keys| && key in rest ==> Less(keys[i], key)
      decreases |rest|
    {
      LeastExists(rest);
      var key :| key in rest && forall other :: other in rest ==> !Less(other, key);
      forall other | other in rest && other != key ensures Less(key, other) { LessTrichotomy(key, other); }
      keys := keys + [key];
      rest := rest - {key};
    }
  }

  lemma RemainingMerged(s: seq<Candidate>, seen: set<Executable>, own: seq<Executable>, remaining: map<string, string>,
                        keys: seq<string>, out: seq<string>)
    requires LeastSeen(seen, own, remaining) && SeenAll(s, seen) && Ascending(keys)
    requires forall key :: key in keys <==> key in remaining
    requires |out| == |own| + |keys| && forall i :: 0 <= i < |own| ==> out[i] == own[i].display
    requires forall i :: 0 <= i < |keys| ==> out[|own| + i] == remaining[keys[i]]
    ensures IsMergedExecutables(multiset(s), own, out)
  {
    hide Less, Listed, Ascending;
    var g := multiset(s);
    forall key, display ensures HasDisplay(g, key, display) <==> Executable(key, display) in seen {}
    forall key | key in remaining ensures IsLeastDisplay(g, key, remaining[key]) {
      forall d | HasDisplay(g, key, d) ensures !Less(d, remaining[key]) {
        assert Executable(key, d) in seen;
      }
    }
    forall key ensures key in keys <==> GroupHas(g, key) && !Listed(own, key) {
      if GroupHas(g, key) && !Listed(own, key) {
        var display :| HasDisplay(g, key, display);
        assert Executable(key, display) in seen;
      }
    }
    assert MergedAs(g, own, keys, out);
  }

  method MergeExecutables(own: seq<Executable>, s: seq<Candidate>) returns (out: seq<string>)
    requires DistinctKeys(own)
    ensures IsMergedExecutables(multiset(s), own, out)
  {
    hide LeastSeen, SeenAll, Less, IsMergedExecutables;
    var selected: map<string, string> := map[];
    var order: seq<string> := [];
    for n := 0 to |own|
      invariant |order| == n && forall i :: 0 <= i < n ==> order[i] == own[i].key
      invariant forall key :: key in selected <==> exists i :: 0 <= i < n && own[i].key == key
      invariant forall i :: 0 <= i < n ==> selected[own[i].key] == own[i].display
    {
      if own[n].key !in selected {
        selected := selected[own[n].key := own[n].display];
        order := order + [own[n].key];
      }
    }
    forall key ensures key in selected <==> Listed(own, key) {
      if key in selected {
        var i :| 0 <= i < |own| && own[i].key == key;
        assert own[i] in own;
      }
    }
    var remaining, seen := CollectRemaining(own, s, selected);
    var keys := KeysInOrder(remaining);
    NotOwn(seen, own, remaining);
    out := Displays(order + keys, selected + remaining);
    RemainingMerged(s, seen, own, remaining, keys, out);
  }

  lemma NotOwn(seen: set<Executable>, own: seq<Executable>, remaining: map<string, string>)
    requires LeastSeen(seen, own, remaining)
    ensures forall i :: 0 <= i < |own| ==> own[i].key !in remaining
  {
    forall i | 0 <= i < |own| ensures own[i].key !in remaining { assert Listed(own, own[i].key); }
  }

  method Displays(order: seq<string>, selected: map<string, string>) returns (out: seq<string>)
    requires forall i :: 0 <= i < |order| ==> order[i] in selected
    ensures |out| == |order| && forall i :: 0 <= i < |order| ==> out[i] == selected[order[i]]
  {
    out := [];
    for n := 0 to |order|
      invariant |out| == n && forall i :: 0 <= i < n ==> out[i] == selected[order[i]]
    {
      out := out + [selected[order[n]]];
    }
  }

  // ---------------------------------------------------------------- the entry

  datatype Attempt = Reconciled(outcome: Outcome) | IdCollision(identity: string)

  function Recorded(schema: Schema, ids: map<string, string>, o: Outcome): map<string, string> {
    if o.Built? || o.InvalidGame? then ids[schema.gameId(o.identity) := o.identity] else ids
  }

  predicate Clashes(schema: Schema, ids: map<string, string>, identity: string) {
    schema.gameId(identity) in ids && ids[schema.gameId(identity)] != identity
  }

  lemma IdentitiesCounted(s: seq<Candidate>, ids: set<string>)
    requires forall id :: id in ids <==> exists c :: c in multiset(s) && StrongIdentity(c) == Some(id)
    ensures |ids| > 1 <==> SeveralIdentities(multiset(s))
    ensures ids != {} <==> Someone(multiset(s), Identified)
  {
    hide StrongIdentity;
    TwoElements(ids);
    var g := multiset(s);
    if |ids| > 1 {
      var x, y :| x in ids && y in ids && x != y;
      var c :| c in g && StrongIdentity(c) == Some(x);
      var d :| d in g && StrongIdentity(d) == Some(y);
      assert Meets(c, Identified) && Meets(d, Identified);
    }
    if SeveralIdentities(g) {
      var c, d :| c in g && d in g && Meets(c, Identified) && Meets(d, Identified)
                  && StrongIdentity(c) != StrongIdentity(d);
      assert StrongIdentity(c).value in ids && StrongIdentity(d).value in ids;
    }
    if ids != {} {
      var x :| x in ids;
      var c :| c in g && StrongIdentity(c) == Some(x);
      assert Meets(c, Identified);
    }
    if Someone(g, Identified) {
      var c :| c in g && Meets(c, Identified);
      assert StrongIdentity(c).value in ids;
    }
  }

  lemma TwoElements(ids: set<string>)
    ensures |ids| > 1 <==> exists x, y :: x in ids && y in ids && x != y
  {
    if ids != {} {
      var x :| x in ids;
      var rest := ids - {x};
      assert ids == rest + {x};
      assert |ids| == |rest| + 1;
      if rest != {} { var y :| y in rest; }
    }
  }

  method Representative(s: seq<Candidate>) returns (conflict: bool, rep: Candidate)
    requires |s| > 0
    ensures conflict <==> SeveralIdentities(multiset(s))
    ensures rep in s
    ensures !conflict ==> Leads(s, Wish(multiset(s)), rep)
  {
    hide SeveralIdentities, Meets, Someone, Leads;
    var ids := StrongIdentities(s);
    IdentitiesCounted(s, ids);
    conflict := |ids| > 1;
    rep := s[0];
    FirstAnyone(s);
    if !conflict && ids != {} {
      var found := FirstMeeting(s, Identified);
      if found.Some? {
        rep := found.value;
        LeaderMember(s, Identified, rep);
      }
    }
  }

  lemma FirstAnyone(s: seq<Candidate>)
    requires |s| > 0
    ensures Leads(s, Anyone, s[0])
  {
    assert LeadsAt(s, Anyone, 0);
  }

  /** buildEntry */
  method BuildEntry(schema: Schema, group: seq<Candidate>, ids: map<string, string>)
    returns (attempt: Attempt, ids': map<string, string>)
    requires |group| > 0 && forall c :: c in group ==> DistinctKeys(c.executables)
    ensures attempt.Reconciled? ==>
              && IsOutcome(schema, multiset(group), attempt.outcome)
              && ids' == Recorded(schema, ids, attempt.outcome)
              && ((attempt.outcome.Built? || attempt.outcome.InvalidGame?) ==>
                    !Clashes(schema, ids, attempt.outcome.identity))
    ensures attempt.IdCollision? ==>
              && Identifies(multiset(group), attempt.identity)
              && Clashes(schema, ids, attempt.identity)
              && ids' == ids
  {
    hide SeveralIdentities, Ordered, Leads, Wish, IsMergedExecutables, IsFirstValue, IsMergedArchitecture,
         IsMergedStaleness, StrongIdentity, DistinctKeys, IsOutcome, Identifies;
    ids' := ids;
    var s := SortGroup(group);
    SameMembers(s, group);
    var conflict, rep := Representative(s);
    if conflict {
      assert IsOutcome(schema, multiset(group), IdentityConflict) by { ConflictOutcome(schema, multiset(group)); }
      return Reconciled(IdentityConflict), ids;
    }
    var identity := IdentityOf(rep);
    if identity.None? {
      assert IsOutcome(schema, multiset(group), NoExecutable) by { NoneOutcome(schema, s, rep); }
      return Reconciled(NoExecutable), ids;
    }
    if Clashes(schema, ids, identity.value) {
      IdentifiesBy(s, rep, identity.value);
      return IdCollision(identity.value), ids;
    }
    ids' := ids[schema.gameId(identity.value) := identity.value];
    var executables := MergeExecutables(rep.executables, s);
    var version := FirstValue(s, LocalVersion);
    var sha := FirstValue(s, ExecutableSha256);
    var compatibility := FirstValue(s, Compatibility);
    var game := Game(schema.gameId(identity.value), rep.providerId, rep.providerAppId, rep.title, rep.installRoot,
                     executables, version, sha, compatibility, rep.origin);
    var icon := FirstValue(s, LocalIconSource);
    var architecture := MergeArchitecture(s);
    var staleness := MergeStaleness(s);
    var entry := Entry(game, icon, architecture, staleness, |group|);
    EntryOutcome(schema, s, rep, identity.value, entry);
    attempt := Reconciled(if schema.validDocument([game]) then Built(identity.value, entry) else InvalidGame(identity.value));
  }

  lemma ConflictOutcome(schema: Schema, g: multiset<Candidate>)
    requires SeveralIdentities(g)
    ensures IsOutcome(schema, g, IdentityConflict)
  {
  }

  lemma NoneOutcome(schema: Schema, s: seq<Candidate>, rep: Candidate)
    requires !SeveralIdentities(multiset(s)) && Ordered(s) && Leads(s, Wish(multiset(s)), rep) && IdentityOf(rep).None?
    ensures IsOutcome(schema, multiset(s), NoExecutable)
  {
    hide SeveralIdentities, Ordered, Leads, Wish, IdentityOf;
    assert Reconciles(schema, s, rep, NoExecutable);
    assert ReconcilesAs(schema, multiset(s), s, NoExecutable);
  }

  lemma IdentifiesBy(s: seq<Candidate>, rep: Candidate, identity: string)
    requires !SeveralIdentities(multiset(s)) && Ordered(s) && Leads(s, Wish(multiset(s)), rep)
    requires IdentityOf(rep) == Some(identity)
    ensures Identifies(multiset(s), identity)
  {
    hide SeveralIdentities, Ordered, Leads, Wish, IdentityOf, IsBest;
    LeaderIsBest(s, Wish(multiset(s)), rep);
    assert IsRepresentative(multiset(s), rep);
  }

  lemma SameMembers(s: seq<Candidate>, t: seq<Candidate>)
    requires multiset(s) == multiset(t)
    ensures |s| == |t| && forall c :: c in s <==> c in t
  {
    assert |multiset(s)| == |multiset(t)|;
    forall c ensures c in s <==> c in t {
      assert c in s <==> c in multiset(s);
      assert c in t <==> c in multiset(t);
    }
  }

  // ---------------------------------------------------------------- a candidate's own executables

  ghost predicate LeastSpellings(given: seq<Executable>, n: nat, list: seq<Executable>)
    requires n <= |given|
  {
    && DistinctKeys(list)
    && (forall i :: 0 <= i < |list| ==> list[i] in given[..n])
    && (forall e :: e in given[..n] ==> Spelled(list, e))
  }

  /** The list has the path, in a spelling no greater than this one. */
  ghost predicate Spelled(list: seq<Executable>, e: Executable) {
    exists i :: 0 <= i < |list| && list[i].key == e.key && !Less(e.display, list[i].display)
  }

  /** normalizeCandidate's pass over the executables: each path once, where it first occurs, in its least spelling. */
  method NormalizeExecutables(given: seq<Executable>) returns (list: seq<Executable>)
    ensures DistinctKeys(list)
    ensures forall i :: 0 <= i < |list| ==> list[i] in given
    ensures forall e :: e in given ==> Spelled(list, e)
  {
    hide Less, LeastSpellings;
    list := [];
    NoSpellings(given);
    for n := 0 to |given|
      invariant LeastSpellings(given, n, list)
    {
      var e := given[n];
      var at := 0;
      while at < |list| && list[at].key != e.key
        invariant at <= |list| && forall i :: 0 <= i < at ==> list[i].key != e.key
      {
        at := at + 1;
      }
      if at == |list| {
        NewPath(given, n, list);
        list := list + [e];
      } else if Less(e.display, list[at].display) {
        BetterSpelling(given, n, list, at);
        list := list[at := e];
      } else {
        WorseSpelling(given, n, list, at);
      }
    }
    AllSpellings(given, list);
  }

  lemma NoSpellings(given: seq<Executable>)
    ensures LeastSpellings(given, 0, [])
  {
  }

  lemma AllSpellings(given: seq<Executable>, list: seq<Executable>)
    requires LeastSpellings(given, |given|, list)
    ensures DistinctKeys(list) && forall i :: 0 <= i < |list| ==> list[i] in given
    ensures forall e :: e in given ==> Spelled(list, e)
  {
    assert given[..|given|] == given;
  }

  lemma NewPath(given: seq<Executable>, n: nat, list: seq<Executable>)
    requires n < |given| && LeastSpellings(given, n, list) && forall i :: 0 <= i < |list| ==> list[i].key != given[n].key
    ensures LeastSpellings(given, n + 1, list + [given[n]])
  {
    hide Less, Spelled;
    var more := list + [given[n]];
    assert given[..n + 1] == given[..n] + [given[n]];
    SpelledItself(more, |list|);
    forall e | e in given[..n] ensures Spelled(more, e) { StillSpelled(list, given[n], e); }
  }

  lemma SpelledItself(list: seq<Executable>, i: nat)
    requires i < |list|
    ensures Spelled(list, list[i])
  {
    hide Less;
    LessTrichotomy(list[i].display, list[i].display);
  }

  lemma StillSpelled(list: seq<Executable>, last: Executable, e: Executable)
    requires Spelled(list, e)
    ensures Spelled(list + [last], e)
  {
    hide Less;
    var i :| 0 <= i < |list| && list[i].key == e.key && !Less(e.display, list[i].display);
    assert (list + [last])[i] == list[i];
  }

  lemma BetterSpelled(list: seq<Executable>, at: nat, better: Executable, e: Executable)
    requires Spelled(list, e) && at < |list| && list[at].key == better.key && Less(better.display, list[at].display)
    ensures Spelled(list[at := better], e)
  {
    hide Less;
    var i :| 0 <= i < |list| && list[i].key == e.key && !Less(e.display, list[i].display);
    if i == at && Less(e.display, better.display) { LessTransitive(e.display, better.display, list[at].display); }
    assert list[at := better][i].key == e.key;
  }

  lemma BetterSpelling(given: seq<Executable>, n: nat, list: seq<Executable>, at: nat)
    requires n < |given| && LeastSpellings(given, n, list) && at < |list| && list[at].key == given[n].key
    requires Less(given[n].display, list[at].display)
    ensures LeastSpellings(given, n + 1, list[at := given[n]])
  {
    hide Less, Spelled;
    var better := list[at := given[n]];
    assert given[..n + 1] == given[..n] + [given[n]];
    SpelledItself(better, at);
    forall e | e in given[..n] ensures Spelled(better, e) { BetterSpelled(list, at, given[n], e); }
  }

  lemma WorseSpelling(given: seq<Executable>, n: nat, list: seq<Executable>, at: nat)
    requires n < |given| && LeastSpellings(given, n, list) && at < |list| && list[at].key == given[n].key
    requires !Less(given[n].display, list[at].display)
    ensures LeastSpellings(given, n + 1, list)
  {
    hide Less;
    assert given[..n + 1] == given[..n] + [given[n]];
  }
}
