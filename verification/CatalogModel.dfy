/** Normalized game candidates, the orders used on them, and which of them belong together. */
module CatalogModel {
  import opened Words

  datatype Architecture = Unknown | X86 | X64 | Arm64
  datatype Staleness = Unknown | Current | Stale
  datatype Origin = Discovered | Manual

  /** A path's identity key and its original spelling (held in UTF-8). */
  datatype Executable = Executable(key: string, display: string)

  /** A candidate after normalizeCandidate; the input index, which only diagnostics use, is left out. */
  datatype Candidate = Candidate(
    providerId: string,
    providerAppId: Option<string>,
    title: string,
    installRoot: string,
    executables: seq<Executable>,
    localVersion: Option<string>,
    executableSha256: Option<string>,
    compatibility: Option<string>,
    origin: Origin,
    localIconSource: Option<string>,
    architecture: Architecture,
    staleness: Staleness,
    canonicalKey: string)

  function StrongIdentity(c: Candidate): Option<string> {
    if c.providerAppId.Some? then Some("provider|" + c.providerId + "|" + c.providerAppId.value) else None
  }

  // ---------------------------------------------------------------- orders

  /** std::string order. */
  predicate Less(a: string, b: string) {
    if |b| == 0 then false
    else if |a| == 0 then true
    else if a[0] == b[0] then Less(a[1..], b[1..])
    else a[0] < b[0]
  }

  lemma {:induction false} LessTrichotomy(a: string, b: string)
    ensures a == b || Less(a, b) || Less(b, a)
    ensures !(Less(a, b) && Less(b, a)) && !Less(a, a)
  {
    if |a| > 0 {
      LessTrichotomy(a[1..], a[1..]);
      if |b| > 0 && a[0] == b[0] {
        LessTrichotomy(a[1..], b[1..]);
        if a[1..] == b[1..] { assert a == [a[0]] + a[1..] && b == [b[0]] + b[1..]; }
      }
    }
  }

  lemma {:induction false} LessTransitive(a: string, b: string, c: string)
    requires Less(a, b) && Less(b, c)
    ensures Less(a, c)
  {
    if |a| > 0 && a[0] == b[0] == c[0] { LessTransitive(a[1..], b[1..], c[1..]); }
  }

  function StalenessQuality(s: Staleness): nat {
    match s
    case Current => 3
    case Unknown => 2
    case Stale => 1
  }

  function OriginQuality(o: Origin): nat {
    if o.Discovered? then 2 else 1
  }

  // ---------------------------------------------------------------- the canonical key

  function OptionText(o: Option<string>): string {
    if o.Some? then o.value else ""
  }

  function ExecutablesText(executables: seq<Executable>): string {
    if executables == [] then ""
    else executables[0].key + ":" + executables[0].display + ";" + ExecutablesText(executables[1..])
  }

  function Digit(n: nat): string {
    if n == 0 then "0" else if n == 1 then "1" else if n == 2 then "2" else "3"
  }

  function KeyHead(c: Candidate, root: string): string {
    c.providerId + "|" + OptionText(c.providerAppId) + "|" + Digit(if c.origin.Discovered? then 0 else 1) + "|"
    + Digit(match c.architecture case Unknown => 0 case X86 => 1 case X64 => 2 case Arm64 => 3) + "|"
    + Digit(match c.staleness case Unknown => 0 case Current => 1 case Stale => 2) + "|" + root + "|"
  }

  function KeyTail(c: Candidate, icon: string): string {
    "|" + c.installRoot + "|" + OptionText(c.localVersion) + "|" + OptionText(c.executableSha256) + "|"
    + OptionText(c.compatibility) + "|" + icon + "|" + OptionText(c.localIconSource)
  }

  /** canonicalCandidateKey, given the normalized install root and icon source. */
  function KeyText(c: Candidate, root: string, icon: string): string {
    KeyHead(c, root) + (c.title + "|" + ExecutablesText(c.executables)) + KeyTail(c, icon)
  }

  /** betterCandidate */
  predicate Better(a: Candidate, b: Candidate) {
    var qa, qb := StalenessQuality(a.staleness), StalenessQuality(b.staleness);
    if qa != qb then qa > qb
    else
      var sa, sb := StrongIdentity(a).Some?, StrongIdentity(b).Some?;
      if sa != sb then sa
      else
        var oa, ob := OriginQuality(a.origin), OriginQuality(b.origin);
        if oa != ob then oa > ob else Less(a.canonicalKey, b.canonicalKey)
  }

  lemma BetterIsStrictOrder(a: Candidate, b: Candidate, c: Candidate)
    ensures !(Better(a, b) && Better(b, a)) && !Better(a, a)
    ensures Better(a, b) && Better(b, c) ==> Better(a, c)
    ensures !Better(a, b) && !Better(b, a) ==> a.canonicalKey == b.canonicalKey
  {
    LessTrichotomy(a.canonicalKey, b.canonicalKey);
    if Less(a.canonicalKey, b.canonicalKey) && Less(b.canonicalKey, c.canonicalKey) {
      LessTransitive(a.canonicalKey, b.canonicalKey, c.canonicalKey);
    }
  }

  lemma NotBetterTransitive(a: Candidate, b: Candidate, c: Candidate)
    requires !Better(b, a) && !Better(c, b)
    ensures !Better(c, a)
  {
    LessTrichotomy(a.canonicalKey, b.canonicalKey);
    LessTrichotomy(b.canonicalKey, c.canonicalKey);
    LessTrichotomy(a.canonicalKey, c.canonicalKey);
    if Less(a.canonicalKey, b.canonicalKey) && Less(b.canonicalKey, c.canonicalKey) {
      LessTransitive(a.canonicalKey, b.canonicalKey, c.canonicalKey);
    }
  }

  // ---------------------------------------------------------------- belonging together

  datatype Key = Strong(identity: string) | Path(key: string)

  function Keys(c: Candidate): set<Key> {
    (if StrongIdentity(c).Some? then {Strong(StrongIdentity(c).value)} else {})
    + (set e | e in c.executables :: Path(e.key))
  }

  /** The candidates share a strong identity or an executable key. */
  predicate Linked(a: Candidate, b: Candidate) {
    Keys(a) * Keys(b) != {}
  }

  /** Two neighbours in a chain are linked. */
  predicate LinkedAt(chain: seq<Candidate>, i: int)
    requires 0 <= i < |chain| - 1
  {
    Linked(chain[i], chain[i + 1])
  }

  ghost predicate IsChain(pool: multiset<Candidate>, chain: seq<Candidate>) {
    && (forall i :: 0 <= i < |chain| ==> chain[i] in pool)
    && (forall i :: 0 <= i < |chain| - 1 ==> LinkedAt(chain, i))
  }

  /** A chain of linked candidates of the pool leads from a to b. */
  ghost predicate Connected(pool: multiset<Candidate>, a: Candidate, b: Candidate) {
    exists chain :: |chain| > 0 && IsChain(pool, chain) && chain[0] == a && chain[|chain| - 1] == b
  }

  lemma ConnectedSelf(pool: multiset<Candidate>, a: Candidate)
    requires a in pool
    ensures Connected(pool, a, a)
  {
    assert IsChain(pool, [a]);
  }

  lemma LinkedConnected(pool: multiset<Candidate>, a: Candidate, b: Candidate)
    requires a in pool && b in pool && Linked(a, b)
    ensures Connected(pool, a, b) && Connected(pool, b, a)
  {
    assert IsChain(pool, [a, b]);
    assert Linked(b, a);
    assert IsChain(pool, [b, a]);
  }

  lemma ConnectedTransitive(pool: multiset<Candidate>, a: Candidate, b: Candidate, c: Candidate)
    requires Connected(pool, a, b) && Connected(pool, b, c)
    ensures Connected(pool, a, c)
  {
    var x :| |x| > 0 && IsChain(pool, x) && x[0] == a && x[|x| - 1] == b;
    var y :| |y| > 0 && IsChain(pool, y) && y[0] == b && y[|y| - 1] == c;
    var z := x + y[1..];
    forall i | 0 <= i < |z| - 1 ensures LinkedAt(z, i) {
      if i < |x| - 1 {
        assert LinkedAt(x, i);
      } else {
        assert z[i] == y[i - |x| + 1] && z[i + 1] == y[i - |x| + 2];
        assert LinkedAt(y, i - |x| + 1);
      }
    }
    assert IsChain(pool, z);
  }

  lemma {:induction false} ReversedChain(pool: multiset<Candidate>, chain: seq<Candidate>) returns (back: seq<Candidate>)
    requires |chain| > 0 && IsChain(pool, chain)
    ensures |back| == |chain| && IsChain(pool, back)
    ensures back[0] == chain[|chain| - 1] && back[|back| - 1] == chain[0]
  {
    if |chain| == 1 {
      back := chain;
    } else {
      var rest := chain[1..];
      forall i | 0 <= i < |rest| - 1 ensures LinkedAt(rest, i) {
        assert LinkedAt(chain, i + 1);
      }
      var tail := ReversedChain(pool, rest);
      back := tail + [chain[0]];
      forall i | 0 <= i < |back| - 1 ensures LinkedAt(back, i) {
        if i < |tail| - 1 {
          assert LinkedAt(tail, i);
        } else {
          assert LinkedAt(chain, 0);
        }
      }
    }
  }

  lemma ConnectedSymmetric(pool: multiset<Candidate>, a: Candidate, b: Candidate)
    requires Connected(pool, a, b)
    ensures Connected(pool, b, a)
  {
    var x :| |x| > 0 && IsChain(pool, x) && x[0] == a && x[|x| - 1] == b;
    var back := ReversedChain(pool, x);
  }
}
