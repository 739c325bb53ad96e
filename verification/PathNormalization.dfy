/** Windows path normalization: one pass over the text, and the segment stack it computes. */
module PathNormalization {
  import opened Words

  /** Wide text: 16-bit code units. */
  type Wide = seq<U16>

  const DOT: U16 := 46
  const SLASH: U16 := 47
  const COLON: U16 := 58
  const BACKSLASH: U16 := 92

  predicate IsUpper(c: U16) { 65 <= c <= 90 }

  predicate IsLower(c: U16) { 97 <= c <= 122 }

  function FoldUnit(c: U16): U16 {
    if c == SLASH then BACKSLASH else if IsUpper(c) then c + 32 else c
  }

  function FoldText(s: Wide): (t: Wide)
    ensures |t| == |s| && forall i :: 0 <= i < |s| ==> t[i] == FoldUnit(s[i])
  {
    if s == [] then [] else [FoldUnit(s[0])] + FoldText(s[1..])
  }

  // ---------------------------------------------------------------- roots

  datatype Root = Relative | Rooted | Unc | DriveRelative(letter: U16) | DriveRooted(letter: U16) {
    /** The source's `rooted` flag. */
    predicate IsRooted() { Rooted? || Unc? || DriveRooted? }

    /** Where the segments begin. */
    function Start(): nat {
      match this
      case Relative => 0
      case Rooted => 1
      case Unc => 2
      case DriveRelative(_) => 2
      case DriveRooted(_) => 3
    }

    function Prefix(): Wide {
      match this
      case Relative => []
      case Rooted => [BACKSLASH]
      case Unc => [BACKSLASH, BACKSLASH]
      case DriveRelative(letter) => [letter, COLON]
      case DriveRooted(letter) => [letter, COLON, BACKSLASH]
    }
  }

  function RootOf(v: Wide): (r: Root)
    ensures r.Start() <= |v| && v[..r.Start()] == r.Prefix()
  {
    if |v| >= 2 && IsLower(v[0]) && v[1] == COLON then
      if |v| > 2 && v[2] == BACKSLASH then DriveRooted(v[0]) else DriveRelative(v[0])
    else if |v| >= 2 && v[0] == BACKSLASH && v[1] == BACKSLASH then Unc
    else if |v| > 0 && v[0] == BACKSLASH then Rooted
    else Relative
  }

  // ---------------------------------------------------------------- segments

  /** The first separator at or after `from`, or the end. */
  function Find(v: Wide, from: nat): (k: nat)
    requires from <= |v|
    ensures from <= k <= |v| && (k < |v| ==> v[k] == BACKSLASH) && forall i :: from <= i < k ==> v[i] != BACKSLASH
    decreases |v| - from
  {
    if from == |v| || v[from] == BACKSLASH then from else Find(v, from + 1)
  }

  function Split(v: Wide): (segments: seq<Wide>)
    ensures |segments| > 0
    decreases |v|
  {
    var k := Find(v, 0);
    if k == |v| then [v] else [v[..k]] + Split(v[k + 1..])
  }

  const HERE: Wide := [DOT]
  const UP: Wide := [DOT, DOT]

  /** Segments that `..` cannot remove. */
  function Protected(r: Root, stack: seq<Wide>): nat {
    if !r.Unc? then 0 else if |stack| < 2 then |stack| else 2
  }

  /** One segment's effect on the stack. */
  function Push(r: Root, stack: seq<Wide>, segment: Wide): seq<Wide> {
    if segment == [] || segment == HERE then stack
    else if r.Unc? && |stack| < 2 then stack + [segment]
    else if segment == UP then
      if |stack| > Protected(r, stack) && stack[|stack| - 1] != UP then stack[..|stack| - 1]
      else if !r.IsRooted() then stack + [segment]
      else stack
    else stack + [segment]
  }

  function Fold(r: Root, stack: seq<Wide>, segments: seq<Wide>): seq<Wide>
    decreases |segments|
  {
    if segments == [] then stack else Fold(r, Push(r, stack, segments[0]), segments[1..])
  }

  /** The folded segments of a text. */
  function Stack(v: Wide): seq<Wide> {
    Fold(RootOf(v), [], Split(v[RootOf(v).Start()..]))
  }

  // ---------------------------------------------------------------- text again

  function Append(r: Root, output: Wide, segment: Wide): Wide {
    if output != [] && output[|output| - 1] != BACKSLASH && !(|output| == 2 && output[1] == COLON && !r.IsRooted())
    then output + [BACKSLASH] + segment
    else output + segment
  }

  function Render(r: Root, stack: seq<Wide>): Wide
    decreases |stack|
  {
    if stack == [] then r.Prefix() else Append(r, Render(r, stack[..|stack| - 1]), stack[|stack| - 1])
  }

  function Normalized(input: Wide): Wide {
    var v := FoldText(input);
    var output := Render(RootOf(v), Stack(v));
    if output == [] then v else output
  }

  // ---------------------------------------------------------------- the pass

  method FoldInput(input: Wide) returns (v: Wide)
    ensures v == FoldText(input)
  {
    v := [];
    for n := 0 to |input|
      invariant |v| == n && forall i :: 0 <= i < n ==> v[i] == FoldUnit(input[i])
    {
      var c := input[n];
      if c == SLASH { c := BACKSLASH; }
      if IsUpper(c) { c := c - 65 + 97; }
      v := v + [c];
    }
  }

  method CollectSegments(v: Wide, r: Root) returns (segments: seq<Wide>)
    requires r == RootOf(v)
    ensures segments == Stack(v)
  {
    hide Find, Split, Fold, RootOf, Stack;
    StackStarts(v);
    segments := [];
    var kept := 0;
    var cursor := r.Start();
    while cursor <= |v|
      invariant r.Start() <= cursor <= |v| + 1
      invariant kept == Protected(r, segments)
      invariant if cursor <= |v| then Fold(r, segments, Split(v[cursor..])) == Stack(v) else segments == Stack(v)
      decreases |v| + 1 - cursor
    {
      var end := Find(v, cursor);
      var segment := v[cursor..end];
      SplitStep(v, cursor);
      FoldStep(r, segments, segment, if end == |v| then [] else Split(v[end + 1..]));
      cursor := end + 1;
      if segment == [] || segment == HERE { continue; }
      if r.Unc? && kept < 2 {
        segments := segments + [segment];
        kept := kept + 1;
        continue;
      }
      if segment == UP {
        var floor := if r.Unc? then kept else 0;
        if |segments| > floor && segments[|segments| - 1] != UP {
          segments := segments[..|segments| - 1];
        } else if !r.IsRooted() {
          segments := segments + [segment];
        }
        continue;
      }
      segments := segments + [segment];
    }
  }

  lemma StackStarts(v: Wide)
    ensures Stack(v) == Fold(RootOf(v), [], Split(v[RootOf(v).Start()..]))
  {
  }

  lemma FoldStep(r: Root, stack: seq<Wide>, first: Wide, rest: seq<Wide>)
    ensures Fold(r, stack, [first] + rest) == Fold(r, Push(r, stack, first), rest)
    ensures Fold(r, stack, [first]) == Push(r, stack, first)
  {
    assert [first][1..] == [];
    assert ([first] + rest)[1..] == rest;
  }

  lemma SplitStep(v: Wide, cursor: nat)
    requires cursor <= |v|
    ensures var k := Find(v, cursor);
      Split(v[cursor..]) == if k == |v| then [v[cursor..k]] else [v[cursor..k]] + Split(v[k + 1..])
  {
    FindSuffix(v, cursor, cursor);
    var k := Find(v, cursor);
    assert v[cursor..][..k - cursor] == v[cursor..k];
    if k < |v| {
      assert v[cursor..][k - cursor + 1..] == v[k + 1..];
    } else {
      assert v[cursor..k] == v[cursor..];
    }
  }

  lemma {:induction false} FindSuffix(v: Wide, from: nat, base: nat)
    requires base <= from <= |v|
    ensures Find(v[base..], from - base) == Find(v, from) - base
    decreases |v| - from
  {
    if from < |v| && v[from] != BACKSLASH { FindSuffix(v, from + 1, base); }
  }

  method NormalizePath(input: Wide) returns (output: Wide)
    ensures output == Normalized(input)
  {
    hide Fold, Split, FoldText, RootOf;
    var v := FoldInput(input);
    var r := RootOf(v);
    var segments := CollectSegments(v, r);
    output := r.Prefix();
    for n := 0 to |segments|
      invariant output == Render(r, segments[..n])
    {
      assert segments[..n + 1][..n] == segments[..n];
      if output != [] && output[|output| - 1] != BACKSLASH
         && !(|output| == 2 && output[1] == COLON && !r.IsRooted())
      {
        output := output + [BACKSLASH];
      }
      output := output + segments[n];
    }
    assert segments[..|segments|] == segments;
    if output == [] { output := v; }
  }
}
