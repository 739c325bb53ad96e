/** Union-find with path compression and union by rank, over parent and rank arrays. */
module DisjointSets {
  import opened Words

  /** Parents are in range, ranks strictly rise along parents, and no rank reaches the number of elements. */
  ghost predicate Forest(p: seq<nat>, k: seq<nat>) {
    && |p| == |k|
    && forall i :: 0 <= i < |p| ==> p[i] < |p| && k[i] < |p| && (p[i] != i ==> k[i] < k[p[i]])
  }

  /** The root above x. Following parents ends because ranks rise and are bounded. */
  ghost function Root(p: seq<nat>, k: seq<nat>, x: nat): (r: nat)
    requires Forest(p, k) && x < |p|
    ensures r < |p| && p[r] == r && (p[x] != x ==> k[x] < k[r])
    decreases |p| - k[x]
  {
    if p[x] == x then x else Root(p, k, p[x])
  }

  ghost function Component(p: seq<nat>, k: seq<nat>, r: nat): set<nat>
    requires Forest(p, k)
  {
    set i | 0 <= i < |p| && Root(p, k, i) == r
  }

  /** A root of rank k stands over at least 2^k elements, so paths are logarithmically short. */
  ghost predicate Balanced(p: seq<nat>, k: seq<nat>)
    requires Forest(p, k)
  {
    forall r :: 0 <= r < |p| && p[r] == r ==> Power2(k[r]) <= |Component(p, k, r)|
  }

  /** Re-parenting x to its root moves no element to another root. */
  lemma {:induction false} CompressKeepsRoots(p: seq<nat>, k: seq<nat>, x: nat, y: nat)
    requires Forest(p, k) && x < |p| && p[x] != x && y < |p|
    ensures var q := p[x := Root(p, k, x)];
      Forest(q, k) && Root(q, k, y) == Root(p, k, y)
    decreases |p| - k[y]
  {
    var q := p[x := Root(p, k, x)];
    if y != x && p[y] != y {
      CompressKeepsRoots(p, k, x, p[y]);
    }
  }

  /** Hanging root b under root a (whose rank allows it) sends b's elements to a and no others anywhere. */
  lemma {:induction false} LinkMovesRoots(p: seq<nat>, k: seq<nat>, a: nat, b: nat, q: seq<nat>, m: seq<nat>, y: nat)
    requires Forest(p, k) && a < |p| && b < |p| && a != b && p[a] == a && p[b] == b && y < |p|
    requires q == p[b := a] && Forest(q, m)
    ensures Root(q, m, y) == if Root(p, k, y) == b then a else Root(p, k, y)
    decreases |p| - k[y]
  {
    if p[y] != y {
      LinkMovesRoots(p, k, a, b, q, m, p[y]);
    } else if y == b {
      assert Root(q, m, a) == a;
    }
  }

  lemma {:induction false} RankBelowPower(n: nat)
    ensures n < Power2(n)
  {
    if n > 0 { RankBelowPower(n - 1); }
  }

  /** The ranks after hanging b under a. */
  function Promoted(k: seq<nat>, a: nat, b: nat): seq<nat>
    requires a < |k| && b < |k|
  {
    if k[a] == k[b] then k[a := k[a] + 1] else k
  }

  /** The two components have room for the promoted rank. */
  lemma LinkKeepsForest(p: seq<nat>, k: seq<nat>, a: nat, b: nat)
    requires Forest(p, k) && Balanced(p, k)
    requires a < |p| && b < |p| && a != b && p[a] == a && p[b] == b && k[b] <= k[a]
    ensures Forest(p[b := a], Promoted(k, a, b))
  {
    hide Component;
    ComponentsFit(p, k, a, b);
    RankBelowPower(k[a] + 1);
    assert Power2(k[a]) <= |Component(p, k, a)| && Power2(k[b]) <= |Component(p, k, b)|;
  }

  lemma ComponentsFit(p: seq<nat>, k: seq<nat>, a: nat, b: nat)
    requires Forest(p, k) && a != b
    ensures Component(p, k, a) !! Component(p, k, b)
    ensures |Component(p, k, a)| + |Component(p, k, b)| <= |p|
  {
    var left, right := Component(p, k, a), Component(p, k, b);
    assert |left + right| == |left| + |right|;
    RangeSize(left + right, |p|);
  }

  lemma {:induction false} RangeSize(s: set<nat>, n: nat)
    requires forall i :: i in s ==> i < n
    ensures |s| <= n
  {
    if n > 0 {
      RangeSize(s - {n - 1}, n - 1);
    } else {
      assert s == {};
    }
  }

  lemma LinkMovesAll(p: seq<nat>, k: seq<nat>, a: nat, b: nat, q: seq<nat>, m: seq<nat>)
    requires Forest(p, k) && a < |p| && b < |p| && a != b && p[a] == a && p[b] == b
    requires q == p[b := a] && Forest(q, m)
    ensures forall y :: 0 <= y < |p| ==> Root(q, m, y) == if Root(p, k, y) == b then a else Root(p, k, y)
    ensures Component(q, m, a) == Component(p, k, a) + Component(p, k, b)
    ensures forall r :: 0 <= r < |p| && r != a && r != b ==> Component(q, m, r) == Component(p, k, r)
  {
    forall y | 0 <= y < |p| ensures Root(q, m, y) == if Root(p, k, y) == b then a else Root(p, k, y) {
      LinkMovesRoots(p, k, a, b, q, m, y);
    }
  }

  lemma LinkBalances(p: seq<nat>, k: seq<nat>, a: nat, b: nat)
    requires Forest(p, k) && Balanced(p, k)
    requires a < |p| && b < |p| && a != b && p[a] == a && p[b] == b && k[b] <= k[a]
    requires Forest(p[b := a], Promoted(k, a, b))
    ensures Balanced(p[b := a], Promoted(k, a, b))
  {
    hide Root, Component;
    var q, m := p[b := a], Promoted(k, a, b);
    LinkMovesAll(p, k, a, b, q, m);
    ComponentsFit(p, k, a, b);
    assert Power2(k[a]) <= |Component(p, k, a)| && Power2(k[b]) <= |Component(p, k, b)|;
    forall r | 0 <= r < |q| && q[r] == r ensures Power2(m[r]) <= |Component(q, m, r)| {
      if r == a {
        assert |Component(q, m, a)| == |Component(p, k, a)| + |Component(p, k, b)|;
      }
    }
  }

  /** Two forests with the same ranks and the same root above every element. */
  ghost predicate SameRoots(p: seq<nat>, q: seq<nat>, k: seq<nat>) {
    && Forest(p, k) && Forest(q, k)
    && forall y :: 0 <= y < |p| ==> Root(q, k, y) == Root(p, k, y) && (q[y] == y <==> p[y] == y)
  }

  lemma SameRootsTwice(p: seq<nat>, q: seq<nat>, r: seq<nat>, k: seq<nat>)
    requires SameRoots(p, q, k) && SameRoots(q, r, k)
    ensures SameRoots(p, r, k)
  {
  }

  lemma SameRootsBalanced(p: seq<nat>, q: seq<nat>, k: seq<nat>)
    requires SameRoots(p, q, k) && Balanced(p, k)
    ensures Balanced(q, k)
  {
    forall r | 0 <= r < |q| && q[r] == r ensures Power2(k[r]) <= |Component(q, k, r)| {
      assert Component(q, k, r) == Component(p, k, r);
    }
  }

  lemma CompressSameRoots(p: seq<nat>, k: seq<nat>, x: nat)
    requires Forest(p, k) && x < |p| && p[x] != x
    ensures SameRoots(p, p[x := Root(p, k, x)], k)
  {
    forall y | 0 <= y < |p| ensures var q := p[x := Root(p, k, x)]; Forest(q, k) && Root(q, k, y) == Root(p, k, y) {
      CompressKeepsRoots(p, k, x, y);
    }
  }

  /** The forest q joins the components that x and y have in p, and is otherwise the same partition. */
  ghost predicate Joins(p: seq<nat>, k: seq<nat>, q: seq<nat>, m: seq<nat>, x: nat, y: nat)
    requires Forest(p, k) && Forest(q, m) && x < |p| == |q| && y < |p|
  {
    forall i, j :: 0 <= i < |p| && 0 <= j < |p| ==>
      (Root(q, m, i) == Root(q, m, j) <==>
        || Root(p, k, i) == Root(p, k, j)
        || (Root(p, k, i) == Root(p, k, x) && Root(p, k, j) == Root(p, k, y))
        || (Root(p, k, i) == Root(p, k, y) && Root(p, k, j) == Root(p, k, x)))
  }

  lemma RootsAgree(p: seq<nat>, q: seq<nat>, k: seq<nat>, x: nat)
    requires SameRoots(p, q, k) && x < |p| && p[x] != x
    ensures q[x] != x && Root(q, k, x) == Root(p, k, p[x]) == Root(p, k, x)
  {
  }

  lemma NothingChanged(p: seq<nat>, k: seq<nat>)
    requires Forest(p, k)
    ensures SameRoots(p, p, k)
  {
  }

  lemma AlreadyJoined(p: seq<nat>, q: seq<nat>, k: seq<nat>, x: nat, y: nat)
    requires SameRoots(p, q, k) && x < |p| && y < |p| && Root(p, k, x) == Root(p, k, y)
    ensures Joins(p, k, q, k, x, y)
  {
  }

  lemma FindsRoots(p: seq<nat>, q: seq<nat>, k: seq<nat>, x: nat)
    requires SameRoots(p, q, k) && x < |p|
    ensures Root(p, k, x) < |q| && q[Root(p, k, x)] == Root(p, k, x) == Root(q, k, x)
  {
  }

  lemma MoveJoins(p: seq<nat>, k: seq<nat>, q: seq<nat>, m: seq<nat>, x: nat, y: nat, a: nat, b: nat)
    requires Forest(p, k) && Forest(q, m) && x < |p| == |q| && y < |p| && a != b
    requires (a == Root(p, k, x) && b == Root(p, k, y)) || (a == Root(p, k, y) && b == Root(p, k, x))
    requires forall i :: 0 <= i < |p| ==> Root(q, m, i) == if Root(p, k, i) == b then a else Root(p, k, i)
    ensures Joins(p, k, q, m, x, y)
  {
    hide Root, Forest;
  }

  lemma LinkJoins(p: seq<nat>, q: seq<nat>, k: seq<nat>, x: nat, y: nat, a: nat, b: nat)
    requires SameRoots(p, q, k) && x < |p| && y < |p| && a < |p| && b < |p| && a != b
    requires (a == Root(p, k, x) && b == Root(p, k, y)) || (a == Root(p, k, y) && b == Root(p, k, x))
    requires Forest(p, k) && Forest(q, k) && |p| == |q| == |k| && Forest(q[b := a], Promoted(k, a, b))
    ensures Joins(p, k, q[b := a], Promoted(k, a, b), x, y)
  {
    hide Root, Promoted, Joins, Component, Forest, SameRoots;
    FindsRoots(p, q, k, x);
    FindsRoots(p, q, k, y);
    var u, m := q[b := a], Promoted(k, a, b);
    LinkMovesAll(q, k, a, b, u, m);
    forall i | 0 <= i < |p| ensures Root(u, m, i) == if Root(p, k, i) == b then a else Root(p, k, i) {
      FindsRoots(p, q, k, i);
    }
    MoveJoins(p, k, u, m, x, y, a, b);
  }

  class DisjointSet {
    const parent: array<nat>
    const rank: array<nat>

    ghost predicate Valid()
      reads parent, rank
    {
      parent != rank && Forest(parent[..], rank[..]) && Balanced(parent[..], rank[..])
    }

    constructor (count: nat)
      ensures Valid() && fresh(parent) && fresh(rank) && parent.Length == count
      ensures forall x :: 0 <= x < count ==> Root(parent[..], rank[..], x) == x
    {
      parent := new nat[count](i => i);
      rank := new nat[count](i => 0);
      new;
      forall r | 0 <= r < count ensures Component(parent[..], rank[..], r) == {r} {}
    }

    /** find: returns the root, and re-parents every element on the way to it. */
    method Find(x: nat) returns (r: nat)
      requires Valid() && x < parent.Length
      modifies parent
      ensures Valid() && r == Root(old(parent[..]), rank[..], x)
      ensures SameRoots(old(parent[..]), parent[..], rank[..])
      ensures parent[x] == r
      decreases parent.Length - rank[x]
    {
      hide Balanced, SameRoots;
      ghost var p, k := parent[..], rank[..];
      if parent[x] != x {
        var above := Find(parent[x]);
        ghost var q := parent[..];
        RootsAgree(p, q, k, x);
        parent[x] := above;
        assert parent[..] == q[x := above];
        CompressSameRoots(q, k, x);
        SameRootsTwice(p, q, parent[..], k);
        SameRootsBalanced(p, parent[..], k);
      } else {
        NothingChanged(p, k);
      }
      r := parent[x];
    }

    /** unite: joins the two components and changes no other. */
    method Unite(left: nat, right: nat)
      requires Valid() && left < parent.Length && right < parent.Length
      modifies parent, rank
      ensures Valid() && Joins(old(parent[..]), old(rank[..]), parent[..], rank[..], left, right)
    {
      hide Balanced, Joins, Root, Promoted;
      ghost var p, k := parent[..], rank[..];
      var a := Find(left);
      ghost var q := parent[..];
      var b := Find(right);
      SameRootsTwice(p, q, parent[..], k);
      q := parent[..];
      FindsRoots(p, q, k, left);
      FindsRoots(p, q, k, right);
      if a == b {
        AlreadyJoined(p, q, k, left, right);
        return;
      }
      if rank[a] < rank[b] {
        Link(b, a);
        LinkJoins(p, q, k, left, right, b, a);
      } else {
        Link(a, b);
        LinkJoins(p, q, k, left, right, a, b);
      }
    }

    /** Hangs root b under root a. */
    method Link(a: nat, b: nat)
      requires Valid() && a < parent.Length && b < parent.Length && a != b
      requires parent[a] == a && parent[b] == b && rank[b] <= rank[a]
      modifies parent, rank
      ensures Valid()
      ensures parent[..] == old(parent[..])[b := a] && rank[..] == Promoted(old(rank[..]), a, b)
    {
      hide Balanced, Root;
      ghost var q, k := parent[..], rank[..];
      parent[b] := a;
      if rank[a] == rank[b] { rank[a] := rank[a] + 1; }
      assert parent[..] == q[b := a];
      assert rank[..] == Promoted(k, a, b);
      LinkKeepsForest(q, k, a, b);
      LinkBalances(q, k, a, b);
    }
  }
}
