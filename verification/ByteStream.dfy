/** Little-endian words, and the writer and reader that move them in and out of byte buffers. */
module ByteStream {
  import opened Words

  /** The `width` low bytes of n, least significant first. */
  function Le(n: nat, width: nat): (bytes: Bytes)
    ensures |bytes| == width
  {
    if width == 0 then [] else [n % 0x100] + Le(n / 0x100, width - 1)
  }

  function LeValue(bytes: Bytes): nat {
    if |bytes| == 0 then 0 else bytes[0] + 0x100 * LeValue(bytes[1..])
  }

  function Power256(n: nat): nat {
    if n == 0 then 1 else 0x100 * Power256(n - 1)
  }

  lemma Widths()
    ensures Power256(1) == 0x100 && Power256(2) == 0x1_0000 && Power256(4) == 0x1_0000_0000
            && Power256(8) == 0x1_0000_0000_0000_0000
  {
    assert Power256(3) == 0x100_0000;
    assert Power256(6) == 0x1_0000_0000_0000;
  }

  lemma {:induction false} LeRoundTrip(n: nat, width: nat)
    requires n < Power256(width)
    ensures LeValue(Le(n, width)) == n
  {
    if width > 0 {
      LeRoundTrip(n / 0x100, width - 1);
      assert Le(n, width)[1..] == Le(n / 0x100, width - 1);
    }
  }

  lemma {:induction false} LeOfValue(bytes: Bytes)
    ensures Le(LeValue(bytes), |bytes|) == bytes
    ensures LeValue(bytes) < Power256(|bytes|)
  {
    if |bytes| > 0 {
      LeOfValue(bytes[1..]);
    }
  }

  lemma {:induction false} LeValuePush(bytes: Bytes, top: U8)
    ensures LeValue(bytes + [top]) == LeValue(bytes) + Power256(|bytes|) * top
  {
    if |bytes| > 0 {
      LeValuePush(bytes[1..], top);
      assert (bytes + [top])[1..] == bytes[1..] + [top];
      Scaled(LeValue(bytes[1..]), Power256(|bytes| - 1), top);
    }
  }

  lemma Scaled(v: nat, p: nat, top: nat)
    ensures 0x100 * (v + p * top) == 0x100 * v + (0x100 * p) * top
  {
  }

  /** Concatenation of consecutive pieces. */
  function Join(pieces: seq<Bytes>): Bytes {
    if |pieces| == 0 then [] else Join(pieces[..|pieces| - 1]) + pieces[|pieces| - 1]
  }

  lemma JoinPush(pieces: seq<Bytes>, piece: Bytes)
    ensures Join(pieces + [piece]) == Join(pieces) + piece
  {
    assert (pieces + [piece])[..|pieces|] == pieces;
  }

  lemma {:induction false} JoinConcat(p: seq<Bytes>, q: seq<Bytes>)
    ensures Join(p + q) == Join(p) + Join(q)
  {
    if |q| == 0 {
      assert p + q == p;
    } else {
      JoinConcat(p, q[..|q| - 1]);
      assert (p + q)[..|p + q| - 1] == p + q[..|q| - 1];
    }
  }

  ghost predicate SameWidths(p: seq<Bytes>, q: seq<Bytes>) {
    |p| == |q| && forall i :: 0 <= i < |p| ==> |p[i]| == |q[i]|
  }

  /** Pieces of known widths can be cut in only one way. */
  lemma {:induction false} JoinInjective(p: seq<Bytes>, q: seq<Bytes>)
    requires SameWidths(p, q) && Join(p) == Join(q)
    ensures p == q
  {
    if |p| > 0 {
      var n := |p| - 1;
      var cut := |Join(p)| - |p[n]|;
      assert Join(p[..n]) == Join(p)[..cut] && p[n] == Join(p)[cut..];
      assert Join(q[..n]) == Join(q)[..cut] && q[n] == Join(q)[cut..];
      JoinInjective(p[..n], q[..n]);
      assert p == p[..n] + [p[n]] && q == q[..n] + [q[n]];
    }
  }

  lemma FiveSlices(data: Bytes, a: nat, b: nat, c: nat, d: nat, e: nat, f: nat)
    requires a <= b <= c <= d <= e <= f <= |data|
    ensures data[a..f] == data[a..b] + data[b..c] + data[c..d] + data[d..e] + data[e..f]
  {
    assert data[a..c] == data[a..b] + data[b..c];
    assert data[a..d] == data[a..c] + data[c..d];
    assert data[a..e] == data[a..d] + data[d..e];
    assert data[a..f] == data[a..e] + data[e..f];
  }

  lemma JoinOfThree(a: Bytes, b: Bytes, c: Bytes)
    ensures Join([a, b, c]) == a + b + c
  {
    assert Join([a]) == a by { JoinPush([], a); assert [] + [a] == [a]; }
    JoinPush([a], b);
    JoinPush([a, b], c);
    assert [a] + [b] == [a, b] && [a, b] + [c] == [a, b, c];
  }

  lemma JoinOfFive(a: Bytes, b: Bytes, c: Bytes, d: Bytes, e: Bytes)
    ensures Join([a, b, c, d, e]) == a + b + c + d + e
  {
    JoinOfThree(a, b, c);
    JoinPush([a, b, c], d);
    JoinPush([a, b, c, d], e);
    assert [a, b, c] + [d] == [a, b, c, d] && [a, b, c, d] + [e] == [a, b, c, d, e];
  }

  lemma AppendThree(o: Bytes, a: Bytes, b: Bytes, c: Bytes)
    ensures o + a + b + c == o + Join([a, b, c])
  {
    JoinOfThree(a, b, c);
    Associates(o, a, b);
    Associates(o, a + b, c);
  }

  lemma AppendFive(o: Bytes, a: Bytes, b: Bytes, c: Bytes, d: Bytes, e: Bytes)
    ensures o + a + b + c + d + e == o + Join([a, b, c, d, e])
  {
    JoinOfFive(a, b, c, d, e);
    Associates(o, a, b);
    Associates(o, a + b, c);
    Associates(o, a + b + c, d);
    Associates(o, a + b + c + d, e);
  }

  lemma Associates(x: Bytes, y: Bytes, z: Bytes)
    ensures (x + y) + z == x + (y + z)
  {
  }

  /** Appends to a growing buffer. */
  class ByteWriter {
    var bytes: Bytes

    constructor ()
      ensures bytes == []
    {
      bytes := [];
    }

    /** u16, u32 and u64 are this loop at widths 2, 4 and 8. */
    method PutWord(value: nat, width: nat)
      modifies this
      ensures bytes == old(bytes) + Le(value, width)
    {
      ghost var start := bytes;
      var rest, k := value, 0;
      while k < width
        invariant 0 <= k <= width
        invariant bytes + Le(rest, width - k) == start + Le(value, width)
      {
        bytes := bytes + [rest % 0x100];
        rest, k := rest / 0x100, k + 1;
      }
      assert bytes == start + Le(value, width);
    }

    method PutBytes(value: Bytes)
      modifies this
      ensures bytes == old(bytes) + value
    {
      ghost var start := bytes;
      var k := 0;
      while k < |value|
        invariant 0 <= k <= |value|
        invariant bytes == start + value[..k]
      {
        bytes := bytes + [value[k]];
        k := k + 1;
      }
      assert value[..k] == value;
    }
  }

  /** Takes values off the front of a byte string; a read past the end fails. */
  class ByteReader {
    const data: Bytes
    var offset: nat

    constructor (data: Bytes)
      ensures this.data == data && offset == 0
    {
      this.data := data;
      offset := 0;
    }

    method GetU8() returns (ok: bool, value: U8)
      requires offset <= |data|
      modifies this
      ensures ok == (old(offset) < |data|)
      ensures ok ==> offset == old(offset) + 1 && value == data[old(offset)]
      ensures !ok ==> offset == old(offset)
    {
      if offset >= |data| { return false, 0; }
      value := data[offset];
      offset := offset + 1;
      return true, value;
    }

    method GetBytes(width: nat) returns (ok: bool, value: Bytes)
      requires offset <= |data|
      modifies this
      ensures offset <= |data|
      ensures ok == (old(offset) + width <= |data|)
      ensures ok ==> |value| == width && offset == old(offset) + width && value == data[old(offset)..offset]
    {
      ghost var start := offset;
      value := [];
      var k := 0;
      while k < width
        invariant 0 <= k <= width && offset == start + k <= |data|
        invariant value == data[start..offset]
      {
        var got, byte := GetU8();
        if !got { return false, value; }
        value := value + [byte];
        k := k + 1;
      }
      return true, value;
    }

    /** u16, u32 and u64 are this at widths 2, 4 and 8: each byte lands above the ones before it. */
    method GetWord(width: nat) returns (ok: bool, value: nat)
      requires offset <= |data|
      modifies this
      ensures offset <= |data|
      ensures ok == (old(offset) + width <= |data|)
      ensures ok ==> offset == old(offset) + width && Le(value, width) == data[old(offset)..offset]
      ensures ok ==> value < Power256(width)
    {
      ghost var start := offset;
      value := 0;
      var scale: nat, k: nat := 1, 0;
      while k < width
        invariant 0 <= k <= width && offset == start + k <= |data|
        invariant scale == Power256(k) && value == LeValue(data[start..offset])
      {
        var got, byte := GetU8();
        if !got { return false, value; }
        LeValuePush(data[start..offset - 1], byte);
        assert data[start..offset] == data[start..offset - 1] + [byte];
        value := value + scale * byte;
        scale, k := 0x100 * scale, k + 1;
      }
      LeOfValue(data[start..offset]);
      return true, value;
    }

    predicate Empty()
      reads this
    {
      offset == |data|
    }
  }
}
