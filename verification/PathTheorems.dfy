/** What normalization guarantees: folded segments, the same place, and when a second pass changes nothing. */
module PathTheorems {
  import opened Words
  import opened PathNormalization

  // ---------------------------------------------------------------- the folded stack

  predicate Folded(s: Wide) {
    forall i :: 0 <= i < |s| ==> FoldUnit(s[i]) == s[i]
  }

  predicate Plain(segment: Wide) {
    segment != [] && segment != HERE && Folded(segment) && Whole(segment)
  }

  predicate Whole(segment: Wide) {
    forall i :: 0 <= i < |segment| ==> segment[i] != BACKSLASH
  }

  /** No `..` that could still be applied: none under a root, none past the two UNC names, else only in front. */
  predicate Settled(r: Root, stack: seq<Wide>) {
    match r
    case Unc => forall i :: 2 <= i < |stack| ==> stack[i] != UP
    case Rooted => forall i :: 0 <= i < |stack| ==> stack[i] != UP
    case DriveRooted(_) => forall i :: 0 <= i < |stack| ==> stack[i] != UP
    case Relative => UpsInFront(stack)
    case DriveRelative(_) => UpsInFront(stack)
  }

  predicate UpsInFront(stack: seq<Wide>) {
    forall i, j :: 0 <= i < j < |stack| && stack[j] == UP ==> stack[i] == UP
  }

  predicate AllPlain(stack: seq<Wide>) {
    forall i :: 0 <= i < |stack| ==> Plain(stack[i])
  }

  lemma PushSettles(r: Root, stack: seq<Wide>, segment: Wide)
    requires Settled(r, stack) && AllPlain(stack) && Folded(segment)
    requires forall i :: 0 <= i < |segment| ==> segment[i] != BACKSLASH
    ensures Settled(r, Push(r, stack, segment)) && AllPlain(Push(r, stack, segment))
  {
    hide Folded;
  }

  ghost predicate Clean(segments: seq<Wide>) {
    forall s :: s in segments ==> Folded(s) && forall i :: 0 <= i < |s| ==> s[i] != BACKSLASH
  }

  lemma {:induction false} FoldSettles(r: Root, stack: seq<Wide>, segments: seq<Wide>)
    requires Settled(r, stack) && AllPlain(stack) && Clean(segments)
    ensures Settled(r, Fold(r, stack, segments)) && AllPlain(Fold(r, stack, segments))
    decreases |segments|
  {
    hide Settled, AllPlain, Folded, Push;
    if segments != [] {
      assert segments[0] in segments;
      PushSettles(r, stack, segments[0]);
      FoldSettles(r, Push(r, stack, segments[0]), segments[1..]);
    }
  }

  lemma {:induction false} SplitClean(v: Wide)
    requires Folded(v)
    ensures Clean(Split(v))
    decreases |v|
  {
    var k := Find(v, 0);
    if k < |v| { SplitClean(v[k + 1..]); }
  }

  /** However the input is written, the folded stack has no applicable `.`, `..` or empty segment left. */
  lemma StackSettled(input: Wide)
    ensures var v := FoldText(input);
      Settled(RootOf(v), Stack(v)) && AllPlain(Stack(v))
  {
    var v := FoldText(input);
    SplitClean(v[RootOf(v).Start()..]);
    FoldSettles(RootOf(v), [], Split(v[RootOf(v).Start()..]));
  }

  /** The first two names of a UNC path stay whatever follows them. */
  lemma {:induction false} UncNamesStay(stack: seq<Wide>, segments: seq<Wide>)
    requires |stack| >= 2
    ensures |Fold(Unc, stack, segments)| >= 2 && Fold(Unc, stack, segments)[..2] == stack[..2]
    decreases |segments|
  {
    if segments != [] { UncNamesStay(Push(Unc, stack, segments[0]), segments[1..]); }
  }

  // ---------------------------------------------------------------- the same place

  /** Where segments lead from a place; `..` stops at the root (for UNC, at the two names). */
  function Walk(r: Root, place: seq<Wide>, segments: seq<Wide>): seq<Wide>
    decreases |segments|
  {
    if segments == [] then place else Walk(r, Step(r, place, segments[0]), segments[1..])
  }

  function Step(r: Root, place: seq<Wide>, segment: Wide): seq<Wide> {
    if segment == [] || segment == HERE then place
    else if r.Unc? && |place| < 2 then place + [segment]
    else if segment == UP then
      if |place| > Protected(r, place) then place[..|place| - 1] else place
    else place + [segment]
  }

  lemma {:induction false} WalkAppend(r: Root, place: seq<Wide>, a: seq<Wide>, b: seq<Wide>)
    ensures Walk(r, place, a + b) == Walk(r, Walk(r, place, a), b)
    decreases |a|
  {
    if a == [] {
      assert a + b == b;
    } else {
      assert (a + b)[1..] == a[1..] + b;
      WalkAppend(r, Step(r, place, a[0]), a[1..], b);
    }
  }

  lemma WalkOne(r: Root, place: seq<Wide>, s: Wide)
    ensures Walk(r, place, [s]) == Step(r, place, s)
  {
    assert [s][1..] == [];
  }

  /** Where a walk from the root is once the names are down. */
  lemma {:induction false} RootedWalk(r: Root, place: seq<Wide>, stack: seq<Wide>)
    requires r.IsRooted() && Settled(r, place + stack) && AllPlain(stack)
    ensures Walk(r, place, stack) == place + stack
    decreases |stack|
  {
    hide Plain;
    if stack == [] {
      assert place + stack == place;
    } else {
      assert Plain(stack[0]);
      assert (place + stack)[|place|] == stack[0];
      NotHere(stack[0]);
      assert place + [stack[0]] + stack[1..] == place + stack;
      RootedWalk(r, place + [stack[0]], stack[1..]);
    }
  }

  lemma NotHere(s: Wide)
    requires Plain(s)
    ensures s != [] && s != HERE
  {
  }

  /** Where a path can be read: a rooted one from the root, any other from any place. */
  predicate From(r: Root, here: seq<Wide>) {
    r.IsRooted() ==> here == []
  }

  lemma PushSamePlace(r: Root, here: seq<Wide>, stack: seq<Wide>, segment: Wide)
    requires From(r, here) && Settled(r, stack) && AllPlain(stack)
    ensures Walk(r, here, Push(r, stack, segment)) == Step(r, Walk(r, here, stack), segment)
  {
    if r.IsRooted() {
      PushFromRoot(r, stack, segment);
    } else {
      PushFromHere(r, here, stack, segment);
    }
  }

  lemma PushFromRoot(r: Root, stack: seq<Wide>, segment: Wide)
    requires r.IsRooted() && Settled(r, stack) && AllPlain(stack)
    ensures Walk(r, [], Push(r, stack, segment)) == Step(r, Walk(r, [], stack), segment)
  {
    hide Plain, Walk;
    var n := |stack|;
    var pushed := Push(r, stack, segment);
    RootedWalk(r, [], stack);
    assert [] + stack == stack;
    if pushed == stack + [segment] {
      WalkAppend(r, [], stack, [segment]);
      WalkOne(r, stack, segment);
    } else if n > 0 && pushed == stack[..n - 1] {
      SettledPrefix(r, stack);
      RootedWalk(r, [], stack[..n - 1]);
      assert [] + stack[..n - 1] == stack[..n - 1];
    }
  }

  lemma PushFromHere(r: Root, here: seq<Wide>, stack: seq<Wide>, segment: Wide)
    requires !r.IsRooted() && AllPlain(stack)
    ensures Walk(r, here, Push(r, stack, segment)) == Step(r, Walk(r, here, stack), segment)
  {
    hide Plain, Walk;
    var n := |stack|;
    var pushed := Push(r, stack, segment);
    if pushed == stack + [segment] {
      WalkAppend(r, here, stack, [segment]);
      WalkOne(r, Walk(r, here, stack), segment);
    } else if pushed != stack {
      assert Plain(stack[n - 1]);
      NotHere(stack[n - 1]);
      assert stack == stack[..n - 1] + [stack[n - 1]];
      WalkAppend(r, here, stack[..n - 1], [stack[n - 1]]);
      WalkOne(r, Walk(r, here, stack[..n - 1]), stack[n - 1]);
    }
  }

  lemma SettledPrefix(r: Root, stack: seq<Wide>)
    requires |stack| > 0 && Settled(r, stack)
    ensures Settled(r, stack[..|stack| - 1])
  {
  }

  lemma {:induction false} FoldSamePlace(r: Root, here: seq<Wide>, stack: seq<Wide>, segments: seq<Wide>)
    requires From(r, here) && Settled(r, stack) && AllPlain(stack) && Clean(segments)
    ensures Walk(r, here, Fold(r, stack, segments)) == Walk(r, Walk(r, here, stack), segments)
    decreases |segments|
  {
    hide Settled, AllPlain, Push, Folded;
    if segments != [] {
      assert segments[0] in segments;
      PushSettles(r, stack, segments[0]);
      PushSamePlace(r, here, stack, segments[0]);
      FoldSamePlace(r, here, Push(r, stack, segments[0]), segments[1..]);
    }
  }

  /** The folded stack leads where the input's own segments lead, from every place it can be read from. */
  lemma StackSamePlace(input: Wide, here: seq<Wide>)
    requires From(RootOf(FoldText(input)), here)
    ensures var v := FoldText(input); var r := RootOf(v);
      Walk(r, here, Stack(v)) == Walk(r, here, Split(v[r.Start()..]))
  {
    hide Find, Split, Fold;
    var v := FoldText(input);
    var r := RootOf(v);
    SplitClean(v[r.Start()..]);
    FoldSamePlace(r, here, [], Split(v[r.Start()..]));
  }

  // ---------------------------------------------------------------- text and stack

  function Joined(stack: seq<Wide>): Wide {
    if stack == [] then []
    else if |stack| == 1 then stack[0]
    else stack[0] + [BACKSLASH] + Joined(stack[1..])
  }

  lemma {:induction false} JoinedLast(stack: seq<Wide>, last: Wide)
    requires stack != []
    ensures Joined(stack + [last]) == Joined(stack) + [BACKSLASH] + last
    decreases |stack|
  {
    if |stack| == 1 {
      assert (stack + [last])[1..] == [last];
    } else {
      assert (stack + [last])[1..] == stack[1..] + [last];
      JoinedLast(stack[1..], last);
    }
  }

  lemma {:induction false} JoinedPlain(stack: seq<Wide>)
    requires stack != [] && AllPlain(stack)
    ensures Joined(stack) != [] && Joined(stack)[0] == stack[0][0] != BACKSLASH && Folded(Joined(stack))
    ensures Joined(stack)[|Joined(stack)| - 1] != BACKSLASH
    ensures |Joined(stack)| >= |stack[0]| && Joined(stack)[..|stack[0]|] == stack[0]
    ensures |stack| > 1 ==> |Joined(stack)| >= |stack[0]| + 2
    decreases |stack|
  {
    assert Plain(stack[0]);
    if |stack| > 1 { JoinedPlain(stack[1..]); }
  }

  lemma {:induction false} FindInPlain(s: Wide, rest: Wide, from: nat)
    requires from <= |s| && forall i :: 0 <= i < |s| ==> s[i] != BACKSLASH
    ensures Find(s + [BACKSLASH] + rest, from) == |s|
    ensures Find(s, from) == |s|
    decreases |s| - from
  {
    if from < |s| { FindInPlain(s, rest, from + 1); }
  }

  lemma {:induction false} SplitJoined(stack: seq<Wide>)
    requires stack != [] && forall i :: 0 <= i < |stack| ==> Whole(stack[i])
    ensures Split(Joined(stack)) == stack
    decreases |stack|
  {
    assert Whole(stack[0]);
    if |stack| == 1 {
      FindInPlain(stack[0], [], 0);
    } else {
      var rest := Joined(stack[1..]);
      FindInPlain(stack[0], rest, 0);
      var v := stack[0] + [BACKSLASH] + rest;
      assert v[..|stack[0]|] == stack[0] && v[|stack[0]| + 1..] == rest;
      SplitJoined(stack[1..]);
    }
  }

  /** Folding a settled stack again changes nothing. */
  lemma {:induction false} FoldSettled(r: Root, done: seq<Wide>, more: seq<Wide>)
    requires Settled(r, done + more) && AllPlain(done + more)
    ensures Fold(r, done, more) == done + more
    decreases |more|
  {
    if more == [] {
      assert done + more == done;
    } else {
      assert (done + more)[|done|] == more[0];
      assert Plain(more[0]);
      PushNext(r, done, more);
      assert done + [more[0]] + more[1..] == done + more;
      FoldSettled(r, done + [more[0]], more[1..]);
    }
  }

  lemma PushNext(r: Root, done: seq<Wide>, more: seq<Wide>)
    requires more != [] && Settled(r, done + more) && AllPlain(done + more)
    ensures Push(r, done, more[0]) == done + [more[0]]
  {
    hide Folded;
    var all := done + more;
    assert all[|done|] == more[0] && Plain(all[|done|]);
    if done != [] { assert all[|done| - 1] == done[|done| - 1]; }
  }

  /** A segment that is a drive letter's or other character's colon: Append puts no separator after it. */
  predicate Colon(segment: Wide) {
    |segment| == 2 && segment[1] == COLON
  }

  lemma {:induction false} RenderJoined(r: Root, stack: seq<Wide>)
    requires stack != [] && AllPlain(stack) && !(r.Relative? && Colon(stack[0]))
    ensures Render(r, stack) == r.Prefix() + Joined(stack)
    decreases |stack|
  {
    hide Joined, Plain, Colon;
    var init, last := stack[..|stack| - 1], stack[|stack| - 1];
    if init == [] {
      assert stack == [last];
      OneRendered(r, last);
    } else {
      RenderJoined(r, init);
      JoinedLast(init, last);
      assert stack == init + [last];
      NoColonLeft(r, init);
      assert (r.Prefix() + Joined(init)) + [BACKSLASH] + last == r.Prefix() + (Joined(init) + [BACKSLASH] + last);
    }
  }

  lemma OneRendered(r: Root, segment: Wide)
    ensures Render(r, [segment]) == r.Prefix() + Joined([segment])
  {
    assert [segment][..0] == [];
  }

  lemma NoColonLeft(r: Root, stack: seq<Wide>)
    requires stack != [] && AllPlain(stack) && !(r.Relative? && Colon(stack[0]))
    ensures var output := r.Prefix() + Joined(stack);
      output != [] && output[|output| - 1] != BACKSLASH && !(|output| == 2 && output[1] == COLON && !r.IsRooted())
  {
    JoinedPlain(stack);
    assert Plain(stack[0]);
  }

  // ---------------------------------------------------------------- a second pass

  lemma {:induction false} FoldedUnchanged(v: Wide)
    requires Folded(v)
    ensures FoldText(v) == v
  {
    forall i | 0 <= i < |v| ensures FoldText(v)[i] == v[i] {}
  }

  lemma FoldTextFolds(input: Wide)
    ensures Folded(FoldText(input))
  {
  }

  lemma AllWhole(stack: seq<Wide>)
    requires AllPlain(stack)
    ensures forall i :: 0 <= i < |stack| ==> Whole(stack[i])
  {
    forall i | 0 <= i < |stack| ensures Whole(stack[i]) { assert Plain(stack[i]); }
  }

  /** Text that already is a root followed by a settled stack is left alone. */
  lemma SettledText(output: Wide, r: Root, stack: seq<Wide>)
    requires Folded(output) && RootOf(output) == r && output != []
    requires Settled(r, stack) && AllPlain(stack) && output[r.Start()..] == Joined(stack) && Render(r, stack) == output
    ensures Normalized(output) == output && FoldText(output) == output && Stack(output) == stack
  {
    hide Settled, AllPlain, Folded, RootOf, Joined;
    FoldedUnchanged(output);
    if stack == [] {
      NothingJoined();
    } else {
      AllWhole(stack);
      SplitJoined(stack);
      assert [] + stack == stack;
      FoldSettled(r, [], stack);
    }
  }

  lemma NothingJoined()
    ensures Joined([]) == [] && Folded([])
    ensures forall r :: Fold(r, [], Split([])) == []
  {
    var empty: seq<Wide> := [[]];
    assert Split([]) == empty && empty[1..] == [];
    forall r ensures Fold(r, [], Split([])) == [] {
      assert Push(r, [], empty[0]) == [];
    }
  }

  lemma RootShown(r: Root, body: Wide)
    requires !r.Relative? && Folded(r.Prefix())
    requires r.Rooted? || r.DriveRelative? ==> body == [] || body[0] != BACKSLASH
    requires r.DriveRelative? || r.DriveRooted? ==> IsLower(r.letter)
    ensures RootOf(r.Prefix() + body) == r
  {
  }

  lemma RootLetter(v: Wide)
    requires Folded(v)
    ensures Folded(RootOf(v).Prefix())
    ensures RootOf(v).DriveRelative? || RootOf(v).DriveRooted? ==> IsLower(RootOf(v).letter)
  {
  }

  lemma FoldedJoin(a: Wide, b: Wide)
    requires Folded(a) && Folded(b)
    ensures Folded(a + b)
  {
  }

  /** The normal form, read again, has the root and the stack of the input. */
  predicate Keeps(input: Wide) {
    var v, w := FoldText(input), FoldText(Normalized(input));
    RootOf(w) == RootOf(v) && Stack(w) == Stack(v)
  }

  /** Every path with a root, a drive or a UNC prefix. */
  lemma RootedSecondPass(input: Wide)
    requires !RootOf(FoldText(input)).Relative?
    ensures Normalized(Normalized(input)) == Normalized(input)
    ensures Keeps(input)
  {
    hide Settled, AllPlain, Joined, Folded, RootOf, Stack, Split;
    var v := FoldText(input);
    var r, stack := RootOf(v), Stack(v);
    FoldTextFolds(input);
    StackSettled(input);
    RootLetter(v);
    if stack == [] {
      NothingJoined();
    } else {
      JoinedPlain(stack);
      RenderJoined(r, stack);
    }
    FoldedJoin(r.Prefix(), Joined(stack));
    RootShown(r, Joined(stack));
    assert (r.Prefix() + Joined(stack))[r.Start()..] == Joined(stack);
    SettledText(r.Prefix() + Joined(stack), r, stack);
  }

  /** A first segment that reads as a drive once it stands in front. */
  predicate LooksLikeDrive(segment: Wide) {
    |segment| >= 2 && IsLower(segment[0]) && segment[1] == COLON
  }

  /** The relative paths whose normal form is not normal: the first folded segment is a letter, a colon and a dot. */
  predicate HiddenDrive(input: Wide) {
    var v := FoldText(input);
    RootOf(v).Relative? && Stack(v) != [] && LooksLikeDrive(Stack(v)[0]) && Stack(v)[0][2..] == HERE
  }

  lemma NoUps(stack: seq<Wide>)
    requires stack != [] && stack[0] != UP && UpsInFront(stack)
    ensures forall i :: 0 <= i < |stack| ==> stack[i] != UP
  {
  }

  /** A first segment `x:` swallows the separator after it. */
  lemma {:induction false} ColonRender(stack: seq<Wide>)
    requires stack != [] && AllPlain(stack) && Colon(stack[0])
    ensures Render(Relative, stack) == stack[0] + Joined(stack[1..])
    decreases |stack|
  {
    hide Plain;
    var init, last := stack[..|stack| - 1], stack[|stack| - 1];
    assert stack == init + [last];
    if init == [] {
      assert stack == [last] && stack[1..] == [];
      OneRendered(Relative, last);
    } else {
      ColonRender(init);
      if |init| == 1 {
        assert init[1..] == [] && stack[1..] == [last];
      } else {
        assert stack[1..] == init[1..] + [last];
        JoinedLast(init[1..], last);
        JoinedPlain(init[1..]);
        assert (init[0] + Joined(init[1..])) + [BACKSLASH] + last == init[0] + (Joined(init[1..]) + [BACKSLASH] + last);
      }
    }
  }

  lemma RelativeShown(output: Wide)
    requires output != [] && output[0] != BACKSLASH && !LooksLikeDrive(output)
    ensures RootOf(output) == Relative
  {
  }

  lemma DriveShown(output: Wide)
    requires LooksLikeDrive(output) && (|output| > 2 ==> output[2] != BACKSLASH)
    ensures RootOf(output) == DriveRelative(output[0]) && output == RootOf(output).Prefix() + output[2..]
  {
  }

  lemma PlainParts(stack: seq<Wide>)
    requires stack != [] && AllPlain(stack)
    ensures Plain(stack[0]) && Folded(stack[0]) && stack[0] != [] && AllPlain(stack[1..])
  {
  }

  lemma NoUpsSettled(stack: seq<Wide>)
    requires forall i :: 1 <= i < |stack| ==> stack[i] != UP
    ensures UpsInFront(stack)
  {
  }

  /** The first segment keeps its separator, and does not look like a drive. */
  lemma OrdinarySecondPass(stack: seq<Wide>)
    requires stack != [] && AllPlain(stack) && UpsInFront(stack) && !Colon(stack[0]) && !LooksLikeDrive(stack[0])
    ensures var output := Render(Relative, stack);
      output != [] && Normalized(output) == output
      && FoldText(output) == output && RootOf(output) == Relative && Stack(output) == stack
  {
    hide UpsInFront, AllPlain, Folded, RootOf, Joined, Normalized;
    var output := Render(Relative, stack);
    RenderJoined(Relative, stack);
    JoinedPlain(stack);
    PlainParts(stack);
    assert output == Joined(stack);
    if LooksLikeDrive(output) {
      assert |stack[0]| == 1;
      SecondUnit(stack);
    }
    RelativeShown(output);
    SettledText(output, Relative, stack);
  }

  lemma SecondUnit(stack: seq<Wide>)
    requires stack != [] && AllPlain(stack) && |stack[0]| == 1 && |Joined(stack)| > 1
    ensures Joined(stack)[1] == BACKSLASH
  {
  }

  /** The first segment `c:text` becomes drive c, relative to its directory, followed by `text`. */
  lemma DriveSecondPass(stack: seq<Wide>)
    requires stack != [] && AllPlain(stack) && UpsInFront(stack) && LooksLikeDrive(stack[0]) && |stack[0]| > 2
    ensures var output := Render(Relative, stack);
      output != [] && (Normalized(output) == output <==> stack[0][2..] != HERE)
      && FoldText(output) == output && RootOf(output) != Relative
  {
    hide AllPlain, Folded, RootOf, Joined, Normalized;
    var output := Render(Relative, stack);
    RenderJoined(Relative, stack);
    JoinedPlain(stack);
    PlainParts(stack);
    NoUps(stack);
    assert output == Joined(stack);
    var head, rest := stack[0][2..], stack[1..];
    var tail := [head] + rest;
    DriveTail(stack);
    DriveShown(output);
    var r := RootOf(output);
    if head != HERE {
      TailPlain(stack);
      NoUpsSettled(tail);
      RenderJoined(r, tail);
      SettledText(output, r, tail);
    } else {
      DotDropped(output, r, rest);
    }
  }

  lemma DriveTail(stack: seq<Wide>)
    requires stack != [] && AllPlain(stack) && LooksLikeDrive(stack[0]) && |stack[0]| > 2
    ensures |Joined(stack)| > 2 && Joined(stack)[2..] == Joined([stack[0][2..]] + stack[1..]) && Joined(stack)[2] != BACKSLASH
    ensures LooksLikeDrive(Joined(stack))
  {
    JoinedPlain(stack);
    assert Plain(stack[0]);
    assert ([stack[0][2..]] + stack[1..])[1..] == stack[1..];
    assert Joined(stack)[..|stack[0]|][2] == stack[0][2];
  }

  lemma TailPlain(stack: seq<Wide>)
    requires stack != [] && AllPlain(stack) && |stack[0]| > 2 && stack[0][2..] != HERE
    ensures AllPlain([stack[0][2..]] + stack[1..])
  {
    assert Plain(stack[0]);
  }

  /** Reading `c:.` followed by the rest drops the dot, so the second pass shortens the text. */
  lemma DotDropped(output: Wide, r: Root, rest: seq<Wide>)
    requires Folded(output) && RootOf(output) == r && r.DriveRelative? && AllPlain(rest)
    requires output[2..] == Joined([HERE] + rest) && forall i :: 0 <= i < |rest| ==> rest[i] != UP
    ensures Normalized(output) != output && FoldText(output) == output
  {
    hide AllPlain, Folded, RootOf, Joined, Split, Whole;
    FoldedUnchanged(output);
    var segments := [HERE] + rest;
    assert segments[1..] == rest;
    AllWhole(rest);
    HereWhole();
    SplitJoined(segments);
    assert [] + rest == rest;
    FoldSettled(r, [], rest);
    if rest != [] { RenderJoined(r, rest); }
    DotLonger(rest);
  }

  lemma HereWhole()
    ensures Whole(HERE)
  {
  }

  lemma DotLonger(rest: seq<Wide>)
    ensures |Joined([HERE] + rest)| > |Joined(rest)| && |Joined([HERE] + rest)| > 0
  {
    assert ([HERE] + rest)[1..] == rest;
  }

  /** The first segment is `x:`. A letter becomes a drive; any other character is fused with the next segment. */
  lemma ColonSecondPass(stack: seq<Wide>)
    requires stack != [] && AllPlain(stack) && UpsInFront(stack) && Colon(stack[0])
    ensures var output := Render(Relative, stack);
      output != [] && Normalized(output) == output && FoldText(output) == output
      && (RootOf(output) == Relative && Stack(output) == stack <==> !IsLower(stack[0][0]) && |stack| == 1)
  {
    hide AllPlain, Folded, RootOf, Normalized, Stack, Render;
    var output, first, rest := Render(Relative, stack), stack[0], stack[1..];
    ColonRender(stack);
    PlainParts(stack);
    NoUps(stack);
    ColonText(stack);
    if IsLower(first[0]) {
      DriveShown(output);
      var r := RootOf(output);
      NoUpsSettled(rest);
      assert output[2..] == Joined(rest);
      if rest == [] { NothingRendered(r); } else { RenderJoined(r, rest); }
      SettledText(output, r, rest);
    } else {
      RelativeShown(output);
      var fused := if rest == [] then stack else [first + rest[0]] + rest[1..];
      Fuse(stack, fused);
      NoUpsSettled(fused);
      if rest != [] { RenderJoined(Relative, fused); }
      SettledText(output, Relative, fused);
    }
  }

  lemma NothingRendered(r: Root)
    ensures Render(r, []) == r.Prefix() + Joined([])
  {
  }

  lemma ColonText(stack: seq<Wide>)
    requires stack != [] && AllPlain(stack) && Colon(stack[0])
    ensures var output := stack[0] + Joined(stack[1..]);
      Folded(output) && output != [] && output[0] != BACKSLASH && output[1] == COLON && output[..2] == stack[0]
      && (|output| > 2 ==> output[2] != BACKSLASH)
      && (LooksLikeDrive(output) <==> IsLower(stack[0][0]))
  {
    assert Plain(stack[0]);
    if |stack| > 1 { JoinedPlain(stack[1..]); }
  }

  lemma Fuse(stack: seq<Wide>, fused: seq<Wide>)
    requires stack != [] && AllPlain(stack) && Colon(stack[0])
    requires fused == if |stack| == 1 then stack else [stack[0] + stack[1]] + stack[2..]
    ensures AllPlain(fused) && Joined(fused) == stack[0] + Joined(stack[1..])
    ensures |stack| > 1 ==> !Colon(fused[0]) && |fused| == |stack| - 1
    ensures forall i :: 1 <= i < |fused| ==> i + 1 < |stack| && fused[i] == stack[i + 1]
  {
    assert Plain(stack[0]);
    if |stack| > 1 {
      assert Plain(stack[1]);
      FusedPlain(stack[0], stack[1]);
      FusedJoined(stack, fused);
      hide Plain, Joined, Colon;
      forall i | 0 <= i < |fused| ensures Plain(fused[i]) {
        if i > 0 { assert fused[i] == stack[i + 1]; }
      }
    }
  }

  lemma FusedPlain(drive: Wide, name: Wide)
    requires Plain(drive) && Colon(drive) && Plain(name)
    ensures Plain(drive + name) && !Colon(drive + name)
  {
  }

  lemma FusedJoined(stack: seq<Wide>, fused: seq<Wide>)
    requires |stack| > 1 && fused == [stack[0] + stack[1]] + stack[2..]
    ensures Joined(fused) == stack[0] + Joined(stack[1..])
  {
    assert fused[1..] == stack[2..] == stack[1..][1..];
  }

  /** Normalizing twice equals normalizing once, except for the relative paths that hide a drive and a dot. */
  lemma SecondPass(input: Wide)
    ensures Normalized(Normalized(input)) == Normalized(input) <==> !HiddenDrive(input)
  {
    hide Settled, AllPlain, Folded, Stack, Render;
    var v := FoldText(input);
    var stack := Stack(v);
    if !RootOf(v).Relative? {
      RootedSecondPass(input);
    } else {
      StackSettled(input);
      RelativeCases(input);
    }
  }

  lemma RelativeCases(input: Wide)
    requires RootOf(FoldText(input)).Relative?
    ensures Normalized(Normalized(input)) == Normalized(input) <==> !HiddenDrive(input)
    ensures Keeps(input) <==> !FirstMisread(input)
  {
    hide AllPlain, Folded, Stack, Render, UpsInFront, RootOf;
    var v := FoldText(input);
    var stack := Stack(v);
    StackSettled(input);
    FoldTextFolds(input);
    if stack == [] {
      FoldedUnchanged(v);
      NothingRendered(Relative);
      NothingJoined();
    } else if Colon(stack[0]) {
      ColonSecondPass(stack);
    } else if LooksLikeDrive(stack[0]) {
      DriveSecondPass(stack);
    } else {
      OrdinarySecondPass(stack);
    }
  }

  /** Relative paths whose first folded segment turns into something else when written out. */
  predicate FirstMisread(input: Wide) {
    var v := FoldText(input);
    && RootOf(v).Relative? && Stack(v) != []
    && (LooksLikeDrive(Stack(v)[0]) || (Colon(Stack(v)[0]) && |Stack(v)| > 1))
  }

  /** The normal form still says what the input says, except for those. */
  lemma KeepsExactly(input: Wide)
    ensures Keeps(input) <==> !FirstMisread(input)
  {
    hide Stack, Normalized, Keeps;
    if RootOf(FoldText(input)).Relative? { RelativeCases(input); } else { RootedSecondPass(input); }
  }

  /** Such an input exists: `.\c:.` normalizes to `c:.`, which normalizes to `c:`. */
  lemma HiddenDriveInput()
    ensures HiddenDrive([DOT, BACKSLASH, 99, COLON, DOT])
  {
    JoinedTwo(HERE, [99, COLON, DOT]);
    Spelled([DOT, BACKSLASH, 99, COLON, DOT], [HERE, [99, COLON, DOT]]);
  }

  /** So does one whose separator is lost: `1:\a` is written out as `1:a`. */
  lemma FusedInput()
    ensures FirstMisread([49, COLON, BACKSLASH, 97]) && !HiddenDrive([49, COLON, BACKSLASH, 97])
  {
    JoinedTwo([49, COLON], [97]);
    Spelled([49, COLON, BACKSLASH, 97], [[49, COLON], [97]]);
  }

  lemma JoinedTwo(a: Wide, b: Wide)
    ensures Joined([a, b]) == a + [BACKSLASH] + b
  {
    assert [a, b][1..] == [b];
  }

  lemma Spelled(v: Wide, segments: seq<Wide>)
    requires v == Joined(segments) && |segments| == 2 && Folded(v) && RootOf(v) == Relative
    requires forall i :: 0 <= i < |segments| ==> Whole(segments[i])
    ensures FoldText(v) == v && Stack(v) == Push(Relative, Push(Relative, [], segments[0]), segments[1])
  {
    hide Push, Joined, Split, Folded;
    FoldedUnchanged(v);
    SplitJoined(segments);
    assert v[0..] == v;
    FoldTwo(segments[0], segments[1]);
    assert segments == [segments[0], segments[1]];
  }

  lemma FoldTwo(a: Wide, b: Wide)
    ensures Fold(Relative, [], [a, b]) == Push(Relative, Push(Relative, [], a), b)
  {
    assert [a, b][1..] == [b] && [b][1..] == [];
    assert Fold(Relative, Push(Relative, [], a), [b]) == Push(Relative, Push(Relative, [], a), b);
  }

  /** A single name, neither a drive nor a dot segment, is its own normal form. */
  lemma OneSegment(v: Wide)
    requires v != [] && v != HERE && v != UP && RootOf(v) == Relative && Folded(v)
    requires forall i :: 0 <= i < |v| ==> v[i] != BACKSLASH
    ensures Normalized(v) == v
  {
    hide RootOf, Folded, Split, Fold, Render, FoldText;
    FoldedUnchanged(v);
    assert v[0..] == v && v[Relative.Start()..] == v;
    Unsplit(v);
    FoldOnly(v);
    RenderOnly(v);
  }

  lemma Unsplit(v: Wide)
    requires forall i :: 0 <= i < |v| ==> v[i] != BACKSLASH
    ensures Split(v) == [v]
  {
  }

  lemma FoldOnly(v: Wide)
    requires v != [] && v != HERE && v != UP
    ensures Fold(Relative, [], [v]) == [v]
  {
    assert [v][1..] == [];
    assert Push(Relative, [], v) == [v];
  }

  lemma RenderOnly(v: Wide)
    ensures Render(Relative, [v]) == v
  {
    assert [v][..0] == [];
  }
}
