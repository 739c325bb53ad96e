/** Machine words of the modelled program and the optional value its interfaces return. */
module Words {
  type U8 = n: int | 0 <= n < 0x100
  type U16 = n: int | 0 <= n < 0x1_0000
  type U32 = n: int | 0 <= n < 0x1_0000_0000
  type U64 = n: int | 0 <= n < 0x1_0000_0000_0000_0000

  const TWO_TO_64: int := 0x1_0000_0000_0000_0000

  type Bytes = seq<U8>

  datatype Option<+T> = None | Some(value: T)

  function Power2(n: nat): nat {
    if n == 0 then 1 else 2 * Power2(n - 1)
  }

  predicate AllZero(s: Bytes) {
    forall i :: 0 <= i < |s| ==> s[i] == 0
  }

  ghost predicate NoDuplicates<T(!new)>(s: seq<T>) {
    forall i, j :: 0 <= i < j < |s| ==> s[i] != s[j]
  }

  /** A sequence without repetitions drawn from `pool` is no longer than `pool` is large. */
  lemma {:induction false} NoDuplicatesBound<T(!new)>(s: seq<T>, pool: set<T>)
    requires NoDuplicates(s)
    requires forall x :: x in s ==> x in pool
    ensures |s| <= |pool|
  {
    if |s| > 0 {
      var last := s[|s| - 1];
      NoDuplicatesBound(s[..|s| - 1], pool - {last});
    }
  }

  function Elements<T(==)>(s: seq<T>): set<T> {
    set x | x in s
  }

  lemma {:induction false} DistinctCount<T(!new)>(s: seq<T>)
    requires NoDuplicates(s)
    ensures |Elements(s)| == |s|
  {
    if |s| > 0 {
      var init, last := s[..|s| - 1], s[|s| - 1];
      DistinctCount(init);
      assert last !in Elements(init);
      assert Elements(s) == Elements(init) + {last};
    }
  }
}
