/** What a history file must be, line by line, and which results it restores. */
module HistoryReading {
  import opened Words
  import opened Submission
  import opened ShareHistory

  /** Lines, with a newline between each and the next. */
  function Joined(lines: seq<string>): string
    requires |lines| > 0
  {
    if |lines| == 1 then lines[0] else lines[0] + "\n" + Joined(lines[1..])
  }

  predicate Unbroken(lines: seq<string>) {
    forall i, k :: 0 <= i < |lines| && 0 <= k < |lines[i]| ==> lines[i][k] != '\n'
  }

  /** A text's lines are the one list without newlines that joins to it. */
  lemma {:induction false} LinesExactly(text: string, lines: seq<string>)
    requires |lines| > 0
    ensures lines == Lines(text) <==> Unbroken(lines) && Joined(lines) == text
    decreases |text|, |lines|
  {
    hide Lines, NewlineFrom;
    FirstLine(text);
    var k := NewlineFrom(text, 0);
    if k == |text| {
      if |lines| > 1 {
        assert Joined(lines)[|lines[0]|] == '\n';
      } else {
        assert lines == [lines[0]];
      }
    } else {
      var rest := text[k + 1..];
      assert text == text[..k] + "\n" + rest;
      if |lines| > 1 {
        LinesExactly(rest, lines[1..]);
        assert lines == [lines[0]] + lines[1..];
        Fronts(text, k, lines);
        assert Unbroken(lines) <==> Unbroken([lines[0]]) && Unbroken(lines[1..]) by { UnbrokenParts(lines); }
      } else {
        assert lines == [lines[0]];
      }
    }
  }

  lemma UnbrokenParts(lines: seq<string>)
    requires |lines| > 1
    ensures Unbroken(lines) <==> Unbroken([lines[0]]) && Unbroken(lines[1..])
  {
    if Unbroken([lines[0]]) && Unbroken(lines[1..]) {
      forall i, k | 0 <= i < |lines| && 0 <= k < |lines[i]| ensures lines[i][k] != '\n' {
        if i == 0 { assert [lines[0]][0][k] != '\n'; } else { assert lines[1..][i - 1][k] != '\n'; }
      }
    }
    if Unbroken(lines) {
      forall i, k | 0 <= i < |lines[1..]| && 0 <= k < |lines[1..][i]| ensures lines[1..][i][k] != '\n' {
        assert lines[i + 1][k] != '\n';
      }
      forall i, k | 0 <= i < 1 && 0 <= k < |lines[0]| ensures [lines[0]][i][k] != '\n' { assert lines[0][k] != '\n'; }
    }
  }

  lemma FirstEnds(text: string, k: nat, first: string, rest: string)
    requires k < |text| && text[k] == '\n' && forall i :: 0 <= i < k ==> text[i] != '\n'
    requires text == first + "\n" + rest && forall i :: 0 <= i < |first| ==> first[i] != '\n'
    ensures k == |first|
  {
    assert text[|first|] == '\n';
    forall i | 0 <= i < |first| ensures text[i] == first[i] {}
  }

  lemma SameRest(text: string, k: nat, rest: string)
    requires k < |text| && text[k] == '\n'
    ensures text == text[..k] + "\n" + rest <==> rest == text[k + 1..]
  {
    assert text == text[..k] + "\n" + text[k + 1..];
    var other := text[..k] + "\n" + rest;
    assert other[k + 1..] == rest;
  }

  /** The first line ends at the first newline. */
  lemma Fronts(text: string, k: nat, lines: seq<string>)
    requires k < |text| && text[k] == '\n' && (forall i :: 0 <= i < k ==> text[i] != '\n') && |lines| > 1
    ensures Unbroken([lines[0]]) && Joined(lines) == text ==>
              lines[0] == text[..k] && Joined(lines[1..]) == text[k + 1..]
    ensures lines[0] == text[..k] ==>
              Unbroken([lines[0]]) && (Joined(lines) == text <==> Joined(lines[1..]) == text[k + 1..])
  {
    var first, rest := lines[0], Joined(lines[1..]);
    assert Joined(lines) == first + "\n" + rest;
    hide Joined;
    SameRest(text, k, rest);
    if Unbroken([first]) && Joined(lines) == text {
      forall i | 0 <= i < |first| ensures first[i] != '\n' { assert [first][0][i] != '\n'; }
      FirstEnds(text, k, first, rest);
      assert text[..k] == first;
    }
  }

  /** The result that a line restores. */
  function Meant(codec: Codec, line: string): Option<CompatibilityResult> {
    var s := StripCr(line);
    if !(1 <= |s| <= 262144) || codec.decode(s).None? then None
    else
      var r := codec.canonical(codec.decode(s).value);
      if r.Some? && codec.publicEnvironment(r.value) then r else None
  }

  function AllMeant(codec: Codec, lines: seq<string>): (results: seq<CompatibilityResult>)
    requires forall i :: 0 <= i < |lines| ==> Meant(codec, lines[i]).Some?
    ensures |results| == |lines| && forall i :: 0 <= i < |lines| ==> results[i] == Meant(codec, lines[i]).value
  {
    seq(|lines|, i requires 0 <= i < |lines| => Meant(codec, lines[i]).value)
  }

  predicate Restorable(codec: Codec, lines: seq<string>, all: seq<CompatibilityResult>) {
    && (forall i :: 0 <= i < |lines| ==> Meant(codec, lines[i]).Some?)
    && |all| + |lines| <= 64
    && DistinctIds(all + AllMeant(codec, lines))
  }

  lemma OneRestored(codec: Codec, line: string, all: seq<CompatibilityResult>)
    requires Lawful(codec) && DistinctIds(all) && |all| <= 64
    ensures var step := RestoreLine(codec, StripCr(line), 64, Ids(all), |all|, all);
      && (step.Restored? <==> Meant(codec, line).Some? && |all| < 64 && DistinctIds(all + [Meant(codec, line).value]))
      && (step.Restored? ==> step.results == all + [Meant(codec, line).value]
                             && Ids(all) + {LineId(codec, StripCr(line))} == Ids(all + [Meant(codec, line).value]))
  {
    hide Lawful, Ids, StripCr;
    var s := StripCr(line);
    if codec.decode(s).Some? { LawfulId(codec, codec.decode(s).value); }
    if Meant(codec, line).Some? {
      var r := Meant(codec, line).value;
      AddedIds(all, r);
      NewIds(all, r);
    }
  }

  lemma NewIds(all: seq<CompatibilityResult>, r: CompatibilityResult)
    requires DistinctIds(all)
    ensures DistinctIds(all + [r]) <==> r.resultId !in Ids(all)
  {
    if r.resultId in Ids(all) {
      var x :| x in all && x.resultId == r.resultId;
      var i :| 0 <= i < |all| && all[i] == x;
      assert (all + [r])[i].resultId == (all + [r])[|all|].resultId;
    } else {
      forall i, j | 0 <= i < j < |all| + 1 ensures (all + [r])[i].resultId != (all + [r])[j].resultId {
        assert all[i] in all;
      }
    }
  }

  lemma PrefixIds(all: seq<CompatibilityResult>, more: seq<CompatibilityResult>)
    requires DistinctIds(all + more)
    ensures DistinctIds(all)
  {
    forall i, j | 0 <= i < j < |all| ensures all[i].resultId != all[j].resultId {
      assert (all + more)[i] == all[i] && (all + more)[j] == all[j];
    }
  }

  lemma {:induction false} RestoredExactly(codec: Codec, lines: seq<string>, all: seq<CompatibilityResult>)
    requires Lawful(codec) && DistinctIds(all) && |all| <= 64
    ensures var l := RestoreLines(codec, lines, 64, Ids(all), |all|, all);
      && (l.Restored? <==> Restorable(codec, lines, all))
      && (l.Restored? ==> l.results == all + AllMeant(codec, lines))
    decreases |lines|
  {
    hide Lawful, Ids, StripCr, Meant, RestoreLine, LineId, DistinctIds;
    if lines == [] {
      assert all + AllMeant(codec, lines) == all;
    } else {
      OneRestored(codec, lines[0], all);
      var step := RestoreLine(codec, StripCr(lines[0]), 64, Ids(all), |all|, all);
      if step.Restored? {
        var r := Meant(codec, lines[0]).value;
        RestoredExactly(codec, lines[1..], all + [r]);
        RestOf(codec, lines, all);
      } else if Restorable(codec, lines, all) {
        var r := Meant(codec, lines[0]).value;
        assert all + AllMeant(codec, lines) == (all + [r]) + AllMeant(codec, lines)[1..];
        PrefixIds(all + [r], AllMeant(codec, lines)[1..]);
      }
    }
  }

  lemma RestOf(codec: Codec, lines: seq<string>, all: seq<CompatibilityResult>)
    requires lines != [] && Meant(codec, lines[0]).Some?
    ensures var r := Meant(codec, lines[0]).value;
      && (Restorable(codec, lines, all) <==> Restorable(codec, lines[1..], all + [r]))
      && (Restorable(codec, lines, all) ==>
            all + AllMeant(codec, lines) == (all + [r]) + AllMeant(codec, lines[1..]))
  {
    hide Meant, DistinctIds;
    if forall i :: 0 <= i < |lines[1..]| ==> Meant(codec, lines[1..][i]).Some? {
      forall i | 0 <= i < |lines| ensures Meant(codec, lines[i]).Some? {
        if i > 0 { assert lines[i] == lines[1..][i - 1]; }
      }
      var r := Meant(codec, lines[0]).value;
      assert all + AllMeant(codec, lines) == (all + [r]) + AllMeant(codec, lines[1..]);
    } else {
      var i :| 0 <= i < |lines[1..]| && Meant(codec, lines[1..][i]).None?;
      assert Meant(codec, lines[i + 1]).None?;
    }
  }

  /**
   * A file is accepted exactly when it has the header line and then at most 64 lines, each of which is a result that
   * could be recorded, no two under one id; the newest of them are restored.
   */
  lemma LoadedExactly(codec: Codec, text: string, limit: nat)
    requires Lawful(codec) && 1 <= limit <= 64
    ensures var l, lines := LoadedHistory(codec, text, limit), Lines(text);
      && (l.Restored? <==>
            && 1 <= |text| <= 64 * 262145 + 128
            && StripCr(lines[0]) == "{\"schemaVersion\":1,\"kind\":" + "\"compatibility-local-history\"}"
            && Restorable(codec, lines[1..], []))
      && (l.Restored? ==> l.results == Kept(AllMeant(codec, lines[1..]), limit))
  {
    hide Lawful, StripCr, Restorable, Lines, RestoreLines, HEADER;
    SmallerLimitKeepsNewest(codec, text, limit);
    HeaderIs();
    assert Ids([]) == {};
    RestoredExactly(codec, Lines(text)[1..], []);
    if Restorable(codec, Lines(text)[1..], []) {
      AllAreMeant(codec, Lines(text)[1..]);
      assert [] + AllMeant(codec, Lines(text)[1..]) == AllMeant(codec, Lines(text)[1..]);
    }
  }

  lemma AllAreMeant(codec: Codec, lines: seq<string>)
    requires Restorable(codec, lines, [])
    ensures forall i :: 0 <= i < |lines| ==> Meant(codec, lines[i]).Some?
  {
  }

  lemma HeaderIs()
    ensures HEADER == "{\"schemaVersion\":1,\"kind\":" + "\"compatibility-local-history\"}"
  {
  }
}
