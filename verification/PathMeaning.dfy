/** Path normalization said of the paths as they are written: their units, their roots, their names. */
module PathMeaning {
  import opened Words
  import opened PathNormalization
  import opened PathTheorems

  // ---------------------------------------------------------------- spelling

  predicate IsSeparator(c: int) { c == 47 || c == 92 }

  /** Two units that differ at most in ASCII case or in the kind of slash. */
  predicate SameUnit(a: U16, b: U16) {
    || a == b
    || (IsSeparator(a) && IsSeparator(b))
    || (65 <= a <= 90 && b == a + 32)
    || (65 <= b <= 90 && a == b + 32)
  }

  predicate SameSpelling(a: Wide, b: Wide) {
    |a| == |b| && forall i :: 0 <= i < |a| ==> SameUnit(a[i], b[i])
  }

  /** Folding identifies exactly such units, by lower-case letters and backslashes. */
  lemma FoldExactly(a: U16, b: U16)
    ensures FoldUnit(a) == FoldUnit(b) <==> SameUnit(a, b)
    ensures !(65 <= FoldUnit(a) <= 90) && FoldUnit(a) != 47
  {
  }

  /** Paths that differ only so are normalized alike, and exactly those are folded alike. */
  lemma SpellingIgnored(a: Wide, b: Wide)
    ensures FoldText(a) == FoldText(b) <==> SameSpelling(a, b)
    ensures SameSpelling(a, b) ==> Normalized(a) == Normalized(b)
  {
    hide FoldUnit, SameUnit;
    if |a| == |b| {
      forall i | 0 <= i < |a| ensures FoldText(a)[i] == FoldText(b)[i] <==> SameUnit(a[i], b[i]) { FoldExactly(a[i], b[i]); }
      if FoldText(a) == FoldText(b) {
        forall i | 0 <= i < |a| ensures SameUnit(a[i], b[i]) { assert FoldText(a)[i] == FoldText(b)[i]; }
      }
    }
  }

  // ---------------------------------------------------------------- roots

  predicate IsLetter(c: int) { 65 <= c <= 90 || 97 <= c <= 122 }

  predicate HasDrive(input: Wide) { |input| >= 2 && IsLetter(input[0]) && input[1] == 58 }

  /** Which root a path has, from its first units; a drive goes before the slashes. */
  lemma RootExactly(input: Wide)
    ensures var r := RootOf(FoldText(input));
      && (r.DriveRooted? <==> HasDrive(input) && |input| > 2 && IsSeparator(input[2]))
      && (r.DriveRelative? <==> HasDrive(input) && !(|input| > 2 && IsSeparator(input[2])))
      && (r.Unc? <==> |input| >= 2 && IsSeparator(input[0]) && IsSeparator(input[1]))
      && (r.Rooted? <==> |input| >= 1 && IsSeparator(input[0]) && !(|input| >= 2 && IsSeparator(input[1])))
      && (r.DriveRooted? || r.DriveRelative? ==> SameUnit(r.letter, input[0]) && 97 <= r.letter <= 122)
  {
    var v := FoldText(input);
    if |input| >= 1 { UnitFolded(input[0]); }
    if |input| >= 2 { UnitFolded(input[1]); }
    if |input| > 2 { UnitFolded(input[2]); }
  }

  lemma UnitFolded(c: U16)
    ensures FoldUnit(c) == 92 <==> IsSeparator(c)
    ensures 97 <= FoldUnit(c) <= 122 <==> IsLetter(c)
    ensures FoldUnit(c) == 58 <==> c == 58
    ensures SameUnit(FoldUnit(c), c)
  {
  }

  // ---------------------------------------------------------------- names

  /** A name as it appears between separators, in lower case. */
  predicate IsName(s: Wide) {
    && s != [] && s != [46] && s != [46, 46]
    && forall i :: 0 <= i < |s| ==> s[i] != 92 && s[i] != 47 && !(65 <= s[i] <= 90)
  }

  lemma NamePlain(s: Wide)
    requires IsName(s)
    ensures Plain(s) && s != UP
  {
  }

  lemma {:induction false} JoinedFolded(segments: seq<Wide>)
    requires forall i :: 0 <= i < |segments| ==> Folded(segments[i])
    ensures Folded(Joined(segments))
  {
    if |segments| > 1 {
      JoinedFolded(segments[1..]);
      FoldedJoin(segments[0] + [92], Joined(segments[1..]));
    }
  }

  predicate Segments(segments: seq<Wide>) {
    segments != [] && forall i :: 0 <= i < |segments| ==> Whole(segments[i]) && Folded(segments[i])
  }

  /** A path with a root, written as the root and its segments, is normalized to the root and the folded segments. */
  lemma SegmentsNormalized(r: Root, segments: seq<Wide>)
    requires !r.Relative? && Segments(segments) && Folded(r.Prefix()) && RootOf(r.Prefix() + Joined(segments)) == r
    requires Fold(r, [], segments) != []
    ensures Normalized(r.Prefix() + Joined(segments)) == r.Prefix() + Joined(Fold(r, [], segments))
  {
    hide Split, Fold, FoldText, Joined, RootOf, Folded, AllPlain, Settled, Render;
    var v := r.Prefix() + Joined(segments);
    assert v[r.Start()..] == Joined(segments) by { PrefixLength(r); }
    JoinedFolded(segments);
    FoldedJoin(r.Prefix(), Joined(segments));
    FoldedUnchanged(v);
    SplitJoined(segments);
    StackSettled(v);
    RenderJoined(r, Stack(v));
    assert r.Prefix() != [];
  }

  lemma PrefixLength(r: Root)
    ensures |r.Prefix()| == r.Start()
  {
  }

  lemma DriveSegments(letter: U16, segments: seq<Wide>)
    requires 97 <= letter <= 122 && Segments(segments) && Fold(DriveRooted(letter), [], segments) != []
    ensures Normalized([letter, 58, 92] + Joined(segments)) == [letter, 58, 92] + Joined(Fold(DriveRooted(letter), [], segments))
  {
    hide Fold, Joined, RootOf, Normalized, Segments;
    RootShown(DriveRooted(letter), Joined(segments));
    SegmentsNormalized(DriveRooted(letter), segments);
  }

  lemma NameSegment(s: Wide)
    requires IsName(s)
    ensures Whole(s) && Folded(s) && Whole(UP) && Folded(UP)
  {
  }

  /** Under a drive's root a plain path stays; a parent segment takes the name before it away, and nothing above the root. */
  lemma ParentTaken(letter: U16, a: Wide, b: Wide)
    requires 97 <= letter <= 122 && IsName(a) && IsName(b)
    ensures Normalized([letter, 58, 92] + Joined([a, b])) == [letter, 58, 92] + (a + [92] + b)
    ensures Normalized([letter, 58, 92] + Joined([a, [46, 46], b])) == [letter, 58, 92] + b
    ensures Normalized([letter, 58, 92] + Joined([[46, 46], a, [46], [], b])) == [letter, 58, 92] + (a + [92] + b)
  {
    var r := DriveRooted(letter);
    NamedSegments(a, b);
    FoldThree(r, a, [46, 46], b);
    FoldNames(r, a, b);
    FoldDots(r, a, b);
    JoinedTwo(a, b);
    OneJoined(b);
    hide Normalized, IsName, Folded, Whole, Fold, Joined, Segments;
    DriveSegments(letter, [a, b]);
    DriveSegments(letter, [a, [46, 46], b]);
    DriveSegments(letter, [[46, 46], a, [46], [], b]);
  }

  lemma OneJoined(b: Wide)
    ensures Joined([b]) == b
  {
  }

  lemma NamedSegments(a: Wide, b: Wide)
    requires IsName(a) && IsName(b)
    ensures Segments([a, b]) && Segments([a, [46, 46], b]) && Segments([[46, 46], a, [46], [], b])
  {
    NameSegment(a);
    NameSegment(b);
    DotsWhole();
    hide IsName, Folded, Whole;
  }

  lemma DotsWhole()
    ensures Whole([46, 46]) && Folded([46, 46]) && Whole([46]) && Folded([46]) && Whole([]) && Folded([])
  {
  }

  lemma Named(r: Root, stack: seq<Wide>, s: Wide)
    requires r.DriveRooted? && IsName(s)
    ensures Push(r, stack, s) == stack + [s]
  {
  }

  lemma FoldNames(r: Root, a: Wide, b: Wide)
    requires r.DriveRooted? && IsName(a) && IsName(b)
    ensures Fold(r, [], [b]) == [b] && Fold(r, [a], [b]) == [a, b] && Fold(r, [], [a, b]) == [a, b]
  {
    hide Push, Fold, IsName;
    Named(r, [], a);
    Named(r, [], b);
    Named(r, [a], b);
    FoldStep(r, [], a, [b]);
    FoldStep(r, [], b, []);
    FoldStep(r, [a], b, []);
    assert [a] + [b] == [a, b] && [] + [a] == [a] && [] + [b] == [b];
  }

  lemma FoldThree(r: Root, a: Wide, up: Wide, b: Wide)
    requires r.DriveRooted? && IsName(a) && IsName(b) && up == UP
    ensures Fold(r, [], [a, up, b]) == [b]
  {
    FoldNames(r, a, b);
    Named(r, [], a);
    assert Push(r, [a], up) == [];
    hide Push, Fold;
    FoldStep(r, [], a, [up, b]);
    FoldStep(r, [a], up, [b]);
    assert [a] + [up, b] == [a, up, b] && [up] + [b] == [up, b] && [] + [a] == [a];
  }

  lemma FoldDots(r: Root, a: Wide, b: Wide)
    requires r.DriveRooted? && IsName(a) && IsName(b)
    ensures Fold(r, [], [[46, 46], a, [46], [], b]) == [a, b]
  {
    FoldNames(r, a, b);
    Named(r, [], a);
    assert Push(r, [], [46, 46]) == [] && Push(r, [a], [46]) == [a] && Push(r, [a], []) == [a];
    hide Push, Fold;
    FoldStep(r, [], [46, 46], [a, [46], [], b]);
    FoldStep(r, [], a, [[46], [], b]);
    FoldStep(r, [a], [46], [[], b]);
    FoldStep(r, [a], [], [b]);
    assert [[46, 46]] + [a, [46], [], b] == [[46, 46], a, [46], [], b] && [a] + [[46], [], b] == [a, [46], [], b];
    var dot: Wide, empty: Wide := [46], [];
    assert [dot] + [empty, b] == [dot, empty, b] && [empty] + [b] == [empty, b] && [] + [a] == [a];
  }

  /** The two names of a UNC path stay, whatever parent segments follow. */
  lemma UncPrefixStays(server: Wide, share: Wide, more: seq<Wide>) returns (rest: seq<Wide>)
    requires IsName(server) && IsName(share) && Segments(more)
    ensures Normalized([92, 92] + Joined([server, share] + more)) == [92, 92] + Joined([server, share] + rest)
  {
    hide Normalized, Folded, Joined, Fold, RootOf, IsName, Whole, Push;
    var segments := [server, share] + more;
    NameSegment(server);
    NameSegment(share);
    assert Segments(segments);
    FoldUnc(server, share, more);
    var stack := Fold(Unc, [server, share], more);
    UncNamesStay([server, share], more);
    UncFolded();
    RootShown(Unc, Joined(segments));
    SegmentsNormalized(Unc, segments);
    rest := stack[2..];
    assert stack[..2] == [server, share][..2] == [server, share];
    assert stack == [server, share] + rest;
    assert Unc.Prefix() == [92, 92];
  }

  lemma UncFolded()
    ensures Folded(Unc.Prefix())
  {
  }

  lemma FoldUnc(server: Wide, share: Wide, more: seq<Wide>)
    requires IsName(server) && IsName(share)
    ensures Fold(Unc, [], [server, share] + more) == Fold(Unc, [server, share], more)
  {
    var all := [server, share] + more;
    assert all[1..] == [share] + more && all[1..][1..] == more;
    assert Push(Unc, [], server) == [server] && Push(Unc, [server], share) == [server, share];
    assert Fold(Unc, [server], [share] + more) == Fold(Unc, [server, share], more);
  }
}
