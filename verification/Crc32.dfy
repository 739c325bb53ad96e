/**
 * crc32: the bit-by-bit checksum, and why it tells apart payloads that differ within four consecutive bytes.
 * The 32-bit register is its sequence of bits, least significant first, so a right shift drops bit 0.
 */
module Crc32 {
  import opened Words

  type Bits = seq<bool>
  type Register = s: Bits | |s| == 32 witness seq(32, i => false)

  /** The register with all 32 bits set. */
  function Ones(): Register {
    seq(32, i requires 0 <= i < 32 => true)
  }

  /** The bits set in 0xedb88320. */
  predicate PolynomialBit(i: nat) {
    i in {5, 8, 9, 15, 19, 20, 21, 23, 24, 26, 27, 29, 30, 31}
  }

  function BitsOf(n: nat, width: nat): (bits: Bits)
    ensures |bits| == width
  {
    if width == 0 then [] else [n % 2 == 1] + BitsOf(n / 2, width - 1)
  }

  function ValueOf(bits: Bits): nat {
    if |bits| == 0 then 0 else (if bits[0] then 1 else 0) + 2 * ValueOf(bits[1..])
  }

  /** Xor of `bits` into the register from position `at` upwards. */
  function XorAt(r: Register, bits: Bits, at: nat): Register
    requires at + |bits| <= 32
  {
    seq(32, i requires 0 <= i < 32 => if at <= i < at + |bits| then r[i] != bits[i - at] else r[i])
  }

  /** One turn of the inner loop: shift out bit 0, folding the polynomial in when it was set. */
  function BitStep(r: Register): Register {
    seq(32, i requires 0 <= i < 32 => (i < 31 && r[i + 1]) != (r[0] && PolynomialBit(i)))
  }

  function BitSteps(r: Register, n: nat): Register {
    if n == 0 then r else BitStep(BitSteps(r, n - 1))
  }

  function ByteStep(r: Register, b: U8): Register {
    BitSteps(XorAt(r, BitsOf(b, 8), 0), 8)
  }

  /** The register after the bytes, started from `r`. */
  function Feed(r: Register, bytes: Bytes): Register {
    if |bytes| == 0 then r else ByteStep(Feed(r, bytes[..|bytes| - 1]), bytes[|bytes| - 1])
  }

  function Checksum(bytes: Bytes): U32 {
    Unsigned(Complement(Feed(Ones(), bytes)))
  }

  function Unsigned(r: Register): U32 {
    ValueBound(r);
    Power2Of32();
    ValueOf(r)
  }

  function Complement(r: Register): Register {
    seq(32, i requires 0 <= i < 32 => !r[i])
  }

  /** The source's two nested loops. */
  method ComputeChecksum(bytes: Bytes) returns (sum: U32)
    ensures sum == Checksum(bytes)
  {
    var crc := Ones();
    var i := 0;
    while i < |bytes|
      invariant 0 <= i <= |bytes|
      invariant crc == Feed(Ones(), bytes[..i])
    {
      assert bytes[..i + 1][..i] == bytes[..i];
      crc := XorAt(crc, BitsOf(bytes[i], 8), 0);
      crc := EightSteps(crc);
      i := i + 1;
    }
    assert bytes[..i] == bytes;
    sum := Unsigned(Complement(crc));
  }

  /** The inner loop: a mask of all ones or all zeros selects the polynomial. */
  method EightSteps(start: Register) returns (crc: Register)
    ensures crc == BitSteps(start, 8)
  {
    crc := start;
    var bit := 0;
    while bit < 8
      invariant 0 <= bit <= 8
      invariant crc == BitSteps(start, bit)
    {
      var mask := crc[0];
      var shifted := crc[1..] + [false];
      var next: Register := seq(32, k requires 0 <= k < 32 && |shifted| == 32 => shifted[k] != (PolynomialBit(k) && mask));
      assert next == BitStep(crc);
      crc := next;
      bit := bit + 1;
    }
  }

  // ---------------------------------------------------------------- bits and values

  lemma {:induction false} ValueBound(bits: Bits)
    ensures ValueOf(bits) < Power2(|bits|)
  {
    if |bits| > 0 { ValueBound(bits[1..]); }
  }

  lemma Power2Of32()
    ensures Power2(32) == 0x1_0000_0000
  {
    assert Power2(8) == 0x100;
    assert Power2(16) == 0x1_0000;
    assert Power2(24) == 0x100_0000;
  }

  lemma {:induction false} ValueInjective(a: Bits, b: Bits)
    requires |a| == |b| && ValueOf(a) == ValueOf(b)
    ensures a == b
  {
    if |a| > 0 {
      ValueInjective(a[1..], b[1..]);
      assert a == [a[0]] + a[1..] && b == [b[0]] + b[1..];
    }
  }

  lemma {:induction false} BitsRoundTrip(n: nat, width: nat)
    requires n < Power2(width)
    ensures ValueOf(BitsOf(n, width)) == n
  {
    if width > 0 {
      BitsRoundTrip(n / 2, width - 1);
      assert BitsOf(n, width)[1..] == BitsOf(n / 2, width - 1);
    }
  }

  lemma ByteBitsInjective(a: U8, b: U8)
    requires BitsOf(a, 8) == BitsOf(b, 8)
    ensures a == b
  {
    assert Power2(8) == 0x100;
    BitsRoundTrip(a, 8);
    BitsRoundTrip(b, 8);
  }

  // ---------------------------------------------------------------- the step forgets nothing

  /** The polynomial's top bit records which way a step went, so no two registers step to the same one. */
  lemma BitStepInjective(x: Register, y: Register)
    requires BitStep(x) == BitStep(y)
    ensures x == y
  {
    assert BitStep(x)[31] == x[0] && BitStep(y)[31] == y[0];
    forall i | 0 < i < 32 ensures x[i] == y[i] {
      assert BitStep(x)[i - 1] == BitStep(y)[i - 1];
    }
  }

  lemma {:induction false} BitStepsInjective(x: Register, y: Register, n: nat)
    requires BitSteps(x, n) == BitSteps(y, n)
    ensures x == y
  {
    if n > 0 {
      BitStepInjective(BitSteps(x, n - 1), BitSteps(y, n - 1));
      BitStepsInjective(x, y, n - 1);
    }
  }

  lemma {:induction false} BitStepsCompose(r: Register, a: nat, b: nat)
    ensures BitSteps(BitSteps(r, a), b) == BitSteps(r, a + b)
  {
    if b > 0 { BitStepsCompose(r, a, b - 1); }
  }

  /** Mixing bits in after one step is mixing them in one position higher before it. */
  lemma MixStep(r: Register, bits: Bits, at: nat)
    requires at + 1 + |bits| <= 32
    ensures XorAt(BitStep(r), bits, at) == BitStep(XorAt(r, bits, at + 1))
  {
  }

  /** Mixing bits in at the low end after n steps is mixing them in n positions higher before those steps. */
  lemma {:induction false} MixEarlier(r: Register, bits: Bits, at: nat, n: nat)
    requires at + n + |bits| <= 32
    ensures XorAt(BitSteps(r, n), bits, at) == BitSteps(XorAt(r, bits, at + n), n)
    decreases n
  {
    hide BitStep, XorAt;
    if n == 0 {
    } else {
      MixStep(BitSteps(r, n - 1), bits, at);
      MixEarlier(r, bits, at + 1, n - 1);
    }
  }

  /** Four bytes mixed into the register at once. */
  function Mixed(r: Register, bytes: Bytes): Register
    requires |bytes| == 4
  {
    XorAt(XorAt(XorAt(XorAt(r, BitsOf(bytes[0], 8), 0), BitsOf(bytes[1], 8), 8), BitsOf(bytes[2], 8), 16),
          BitsOf(bytes[3], 8), 24)
  }

  /** Feeding four bytes is mixing them in as one word and then taking 32 steps. */
  lemma FeedWord(r: Register, bytes: Bytes)
    requires |bytes| == 4
    ensures Feed(r, bytes) == BitSteps(Mixed(r, bytes), 32)
  {
    assert bytes[..3][..2] == bytes[..2] && bytes[..2][..1] == bytes[..1] && bytes[..1][..0] == [];
    var m0 := XorAt(r, BitsOf(bytes[0], 8), 0);
    var m1 := XorAt(m0, BitsOf(bytes[1], 8), 8);
    var m2 := XorAt(m1, BitsOf(bytes[2], 8), 16);
    var m3 := XorAt(m2, BitsOf(bytes[3], 8), 24);
    assert Feed(r, bytes[..1]) == BitSteps(m0, 8);
    MixEarlier(m0, BitsOf(bytes[1], 8), 0, 8);
    BitStepsCompose(m1, 8, 8);
    assert Feed(r, bytes[..2]) == BitSteps(m1, 16);
    MixEarlier(m1, BitsOf(bytes[2], 8), 0, 16);
    BitStepsCompose(m2, 16, 8);
    assert Feed(r, bytes[..3]) == BitSteps(m2, 24);
    MixEarlier(m2, BitsOf(bytes[3], 8), 0, 24);
    BitStepsCompose(m3, 24, 8);
  }

  lemma XorAtBack(x: Register, y: Register, p: Bits, q: Bits, at: nat)
    requires |p| == |q| && at + |p| <= 32 && x[at..] == y[at..] && XorAt(x, p, at) == XorAt(y, q, at)
    ensures x == y && p == q
  {
    var s, t := XorAt(x, p, at), XorAt(y, q, at);
    forall i | 0 <= i < 32 ensures x[i] == y[i] {
      if i < at {
        assert s[i] == x[i] && t[i] == y[i];
      } else {
        assert x[i] == x[at..][i - at] && y[i] == y[at..][i - at];
      }
    }
    forall i | 0 <= i < |p| ensures p[i] == q[i] {
      assert s[at + i] == (x[at + i] != p[i]) && t[at + i] == (y[at + i] != q[i]);
    }
  }

  /** Mixing in another byte leaves the bits of the bytes below it alone, so each byte can be read back. */
  lemma XorAtInjective(x: Register, y: Register, a: U8, b: U8, at: nat)
    requires at + 8 <= 32 && x[at..] == y[at..]
    requires XorAt(x, BitsOf(a, 8), at) == XorAt(y, BitsOf(b, 8), at)
    ensures x == y && a == b
  {
    hide BitsOf, XorAt;
    XorAtBack(x, y, BitsOf(a, 8), BitsOf(b, 8), at);
    ByteBitsInjective(a, b);
  }

  lemma XorAtKeepsHigh(x: Register, y: Register, a: U8, b: U8, at: nat)
    requires at + 8 <= 32 && x[at + 8..] == y[at + 8..]
    ensures XorAt(x, BitsOf(a, 8), at)[at + 8..] == XorAt(y, BitsOf(b, 8), at)[at + 8..]
  {
    forall i | at + 8 <= i < 32 ensures x[i] == y[i] {
      assert x[i] == x[at + 8..][i - at - 8] && y[i] == y[at + 8..][i - at - 8];
    }
  }

  lemma MixedInjective(r: Register, a: Bytes, b: Bytes)
    requires |a| == |b| == 4 && Mixed(r, a) == Mixed(r, b)
    ensures a == b
  {
    var x0, y0 := XorAt(r, BitsOf(a[0], 8), 0), XorAt(r, BitsOf(b[0], 8), 0);
    var x1, y1 := XorAt(x0, BitsOf(a[1], 8), 8), XorAt(y0, BitsOf(b[1], 8), 8);
    var x2, y2 := XorAt(x1, BitsOf(a[2], 8), 16), XorAt(y1, BitsOf(b[2], 8), 16);
    XorAtKeepsHigh(r, r, a[0], b[0], 0);
    XorAtKeepsHigh(x0, y0, a[1], b[1], 8);
    XorAtKeepsHigh(x1, y1, a[2], b[2], 16);
    XorAtInjective(x2, y2, a[3], b[3], 24);
    XorAtInjective(x1, y1, a[2], b[2], 16);
    XorAtInjective(x0, y0, a[1], b[1], 8);
    XorAtInjective(r, r, a[0], b[0], 0);
  }

  lemma {:induction false} FeedConcat(r: Register, a: Bytes, b: Bytes)
    ensures Feed(r, a + b) == Feed(Feed(r, a), b)
  {
    if |b| == 0 {
      assert a + b == a;
    } else {
      FeedConcat(r, a, b[..|b| - 1]);
      assert (a + b)[..|a + b| - 1] == a + b[..|b| - 1];
    }
  }

  /** From one register, different strings of one length up to four lead to different registers. */
  lemma FeedWordInjective(r: Register, a: Bytes, b: Bytes)
    requires |a| == |b| <= 4 && Feed(r, a) == Feed(r, b)
    ensures a == b
  {
    var padding := seq(4 - |a|, _ => 0);
    FeedConcat(r, a, padding);
    FeedConcat(r, b, padding);
    var x, y := a + padding, b + padding;
    FeedWord(r, x);
    FeedWord(r, y);
    BitStepsInjective(Mixed(r, x), Mixed(r, y), 32);
    MixedInjective(r, x, y);
    assert a == x[..|a|] && b == y[..|b|];
  }

  // ---------------------------------------------------------------- detection

  /** Feeding the same bytes never merges two registers. */
  lemma {:induction false} FeedInjective(x: Register, y: Register, bytes: Bytes)
    requires Feed(x, bytes) == Feed(y, bytes)
    ensures x == y
  {
    if |bytes| > 0 {
      var init, last := bytes[..|bytes| - 1], BitsOf(bytes[|bytes| - 1], 8);
      BitStepsInjective(XorAt(Feed(x, init), last, 0), XorAt(Feed(y, init), last, 0), 8);
      XorCancels(Feed(x, init), Feed(y, init), last);
      FeedInjective(x, y, init);
    }
  }

  lemma XorCancels(x: Register, y: Register, bits: Bits)
    requires |bits| <= 32 && XorAt(x, bits, 0) == XorAt(y, bits, 0)
    ensures x == y
  {
    forall i | 0 <= i < 32 ensures x[i] == y[i] {
      assert XorAt(x, bits, 0)[i] == XorAt(y, bits, 0)[i];
    }
  }

  lemma ComplementInjective(x: Register, y: Register)
    requires Complement(x) == Complement(y)
    ensures x == y
  {
    forall i | 0 <= i < 32 ensures x[i] == y[i] {
      assert Complement(x)[i] == Complement(y)[i];
    }
  }

  /** Two byte strings of one length that agree outside the `width` positions from lo. */
  ghost predicate DifferOnlyWithin(a: Bytes, b: Bytes, lo: nat, width: nat) {
    && lo + width <= |a| == |b|
    && a[..lo] == b[..lo] && a[lo + width..] == b[lo + width..]
  }

  /** No two different payloads that agree outside at most four consecutive bytes have the same checksum. */
  lemma BurstDetected(a: Bytes, b: Bytes, lo: nat, width: nat)
    requires width <= 4 && DifferOnlyWithin(a, b, lo, width)
    ensures Checksum(a) == Checksum(b) ==> a == b
  {
    assert a == a[..lo] + (a[lo..lo + width] + a[lo + width..]);
    assert b == b[..lo] + (b[lo..lo + width] + b[lo + width..]);
    if Checksum(a) == Checksum(b) {
      ValueInjective(Complement(Feed(Ones(), a)), Complement(Feed(Ones(), b)));
      ComplementInjective(Feed(Ones(), a), Feed(Ones(), b));
      WindowDetermined(Ones(), a[..lo], a[lo..lo + width], b[lo..lo + width], a[lo + width..]);
    }
  }

  lemma WindowDetermined(r: Register, before: Bytes, x: Bytes, y: Bytes, after: Bytes)
    requires |x| == |y| <= 4
    requires Feed(r, before + (x + after)) == Feed(r, before + (y + after))
    ensures x == y
  {
    FeedConcat(r, before, x + after);
    FeedConcat(r, before, y + after);
    var middle := Feed(r, before);
    FeedConcat(middle, x, after);
    FeedConcat(middle, y, after);
    FeedInjective(Feed(middle, x), Feed(middle, y), after);
    FeedWordInjective(middle, x, y);
  }
}
