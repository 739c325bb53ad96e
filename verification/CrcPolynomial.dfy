/**
 * The checksum as polynomial division over two elements. A polynomial is the set of its exponents, so addition is
 * symmetric difference; of each byte the least significant bit has the highest exponent.
 */
module CrcPolynomial {
  import opened Words
  import opened Crc32

  type Poly = set<nat>

  /** x^32 + x^26 + x^23 + x^22 + x^16 + x^12 + x^11 + x^10 + x^8 + x^7 + x^5 + x^4 + x^2 + x + 1 */
  function Divisor(): Poly {
    {32, 26, 23, 22, 16, 12, 11, 10, 8, 7, 5, 4, 2, 1, 0}
  }

  function Plus(a: Poly, b: Poly): (c: Poly)
    ensures forall k :: k in c <==> ((k in a) != (k in b))
  {
    (a - b) + (b - a)
  }

  /** Multiplication by x^n. */
  function Shift(a: Poly, n: nat): (c: Poly)
    ensures forall k :: k in c <==> k >= n && k - n in a
  {
    var c := set k | k in a :: k + n;
    Shifted(a, n, c);
    c
  }

  lemma Shifted(a: Poly, n: nat, c: Poly)
    requires c == set k | k in a :: k + n
    ensures forall k :: k in c <==> k >= n && k - n in a
  {
    forall k ensures k in c <==> k >= n && k - n in a {
      if k >= n && k - n in a {
        var j := k - n;
        assert j + n in c;
      }
    }
  }

  function AllBelow(n: nat): (p: Poly)
    ensures forall k :: k in p <==> 0 <= k < n
  {
    if n == 0 then {} else AllBelow(n - 1) + {n - 1}
  }

  /** Multiplication of the divisor by a polynomial given as its coefficients, the highest first. */
  function Multiple(quotient: seq<bool>): Poly {
    if quotient == [] then {}
    else
      var n := |quotient| - 1;
      Plus(Shift(Multiple(quotient[..n]), 1), if quotient[n] then Divisor() else {})
  }

  ghost predicate IsRemainder(p: Poly, r: Poly) {
    && (forall k :: k in r ==> k < 32)
    && exists quotient :: p == Plus(Multiple(quotient), r)
  }

  // ---------------------------------------------------------------- what is divided

  predicate Bit(value: nat, i: nat) {
    if i == 0 then value % 2 == 1 else Bit(value / 2, i - 1)
  }

  /** A byte as a polynomial of degree at most 7. */
  function OfByte(b: U8): Poly {
    set k | k in AllBelow(8) && Bit(b, 7 - k)
  }

  function Message(bytes: Bytes): Poly {
    if bytes == [] then {}
    else Plus(Shift(Message(bytes[..|bytes| - 1]), 8), OfByte(bytes[|bytes| - 1]))
  }

  /** The message times x^32, its first 32 bits complemented. */
  function Dividend(bytes: Bytes): Poly {
    Plus(Shift(Message(bytes), 32), Shift(AllBelow(32), 8 * |bytes|))
  }

  /** Bit i of the value is the complement of the coefficient of x^(31 - i). */
  ghost predicate Complements(sum: U32, r: Poly) {
    forall i: nat :: i < 32 ==> (Bit(sum, i) <==> 31 - i !in r)
  }

  // ---------------------------------------------------------------- arithmetic

  lemma PlusAssociates(a: Poly, b: Poly, c: Poly)
    ensures Plus(Plus(a, b), c) == Plus(a, Plus(b, c))
  {
  }

  lemma ShiftPlus(a: Poly, b: Poly, n: nat)
    ensures Shift(Plus(a, b), n) == Plus(Shift(a, n), Shift(b, n))
  {
  }

  lemma ShiftShift(a: Poly, m: nat, n: nat)
    ensures Shift(Shift(a, m), n) == Shift(a, m + n)
  {
  }

  lemma ShiftNone(a: Poly)
    ensures Shift(a, 0) == a
  {
  }

  lemma {:induction false} MultipleAppend(a: seq<bool>, b: seq<bool>)
    ensures Multiple(a + b) == Plus(Shift(Multiple(a), |b|), Multiple(b))
    decreases |b|
  {
    hide Shift, Plus, Divisor;
    if b == [] {
      assert a + b == a;
      ShiftNone(Multiple(a));
      PlusNone(Multiple(a));
    } else {
      var n := |b| - 1;
      var init, last := b[..n], if b[n] then Divisor() else {};
      assert (a + b)[..|a + b| - 1] == a + init;
      MultipleAppend(a, init);
      ShiftPlus(Shift(Multiple(a), n), Multiple(init), 1);
      ShiftShift(Multiple(a), n, 1);
      PlusAssociates(Shift(Multiple(a), n + 1), Shift(Multiple(init), 1), last);
    }
  }

  lemma PlusNone(a: Poly)
    ensures Plus(a, {}) == a && Plus({}, a) == a
  {
  }

  // ---------------------------------------------------------------- the register is a remainder

  /** Bit i of the register is the coefficient of x^(31 - i). */
  function OfRegister(r: Register): (p: Poly)
    ensures forall k: nat :: k in p <==> k < 32 && r[31 - k]
  {
    set k | k in AllBelow(32) && r[31 - k]
  }

  /** One step multiplies by x and subtracts the divisor if x^32 appears. */
  lemma StepDivides(r: Register)
    ensures Shift(OfRegister(r), 1) == Plus(if r[0] then Divisor() else {}, OfRegister(BitStep(r)))
  {
    hide Divisor, PolynomialBit, BitStep;
    DivisorBits();
    var left, right := Shift(OfRegister(r), 1), Plus(if r[0] then Divisor() else {}, OfRegister(BitStep(r)));
    forall k ensures k in left <==> k in right {
      if 0 <= k < 32 {
        StepBit(r, 31 - k);
      } else if k == 32 {
        assert k - 1 in OfRegister(r) <==> r[0];
      }
    }
  }

  lemma StepBit(r: Register, i: nat)
    requires i < 32
    ensures BitStep(r)[i] == ((i < 31 && r[i + 1]) != (r[0] && PolynomialBit(i)))
  {
  }

  lemma DivisorBits()
    ensures forall k :: 0 <= k < 32 ==> (k in Divisor() <==> PolynomialBit(31 - k))
    ensures 32 in Divisor() && forall k :: k in Divisor() ==> 0 <= k <= 32
  {
  }

  lemma {:induction false} StepsDivide(r: Register, n: nat) returns (quotient: seq<bool>)
    ensures |quotient| == n && Shift(OfRegister(r), n) == Plus(Multiple(quotient), OfRegister(BitSteps(r, n)))
  {
    hide Shift, Plus, OfRegister, BitStep;
    if n == 0 {
      quotient := [];
      ShiftNone(OfRegister(r));
      PlusNone(OfRegister(r));
    } else {
      var init := StepsDivide(r, n - 1);
      var before := BitSteps(r, n - 1);
      quotient := init + [before[0]];
      var last := if before[0] then Divisor() else {};
      StepDivides(before);
      ShiftShift(OfRegister(r), n - 1, 1);
      ShiftPlus(Multiple(init), OfRegister(before), 1);
      PlusAssociates(Shift(Multiple(init), 1), last, OfRegister(BitStep(before)));
      assert quotient[..n - 1] == init;
    }
  }

  lemma {:induction false} BitsOfBit(n: nat, width: nat, i: nat)
    requires i < width
    ensures BitsOf(n, width)[i] <==> Bit(n, i)
  {
    if i > 0 { BitsOfBit(n / 2, width - 1, i - 1); }
  }

  lemma {:induction false} ValueBit(bits: Bits, i: nat)
    requires i < |bits|
    ensures Bit(ValueOf(bits), i) <==> bits[i]
  {
    var rest := ValueOf(bits[1..]);
    assert ValueOf(bits) == (if bits[0] then 1 else 0) + 2 * rest;
    hide ValueOf;
    assert ValueOf(bits) / 2 == rest && (ValueOf(bits) % 2 == 1 <==> bits[0]);
    if i > 0 { ValueBit(bits[1..], i - 1); }
  }

  /** Mixing a byte into the register adds it at the top. */
  lemma MixAdds(r: Register, b: U8)
    ensures OfRegister(XorAt(r, BitsOf(b, 8), 0)) == Plus(OfRegister(r), Shift(OfByte(b), 24))
  {
    hide Bit, BitsOf;
    var bits := BitsOf(b, 8);
    var mixed := XorAt(r, bits, 0);
    forall i: nat | i < 8 ensures bits[i] <==> Bit(b, i) { BitsOfBit(b, 8, i); }
    forall k: nat ensures k in OfRegister(mixed) <==> k in Plus(OfRegister(r), Shift(OfByte(b), 24)) {
      if k < 32 {
        assert mixed[31 - k] == if 31 - k < 8 then r[31 - k] != bits[31 - k] else r[31 - k];
        if k >= 24 { assert k - 24 in OfByte(b) <==> Bit(b, 7 - (k - 24)); }
      }
    }
  }

  lemma DividendNext(bytes: Bytes, b: U8)
    ensures Dividend(bytes + [b]) == Plus(Shift(Dividend(bytes), 8), Shift(OfByte(b), 32))
  {
    hide Shift, Plus, OfByte;
    var m, ones := Message(bytes), AllBelow(32);
    assert (bytes + [b])[..|bytes|] == bytes;
    ShiftPlus(Shift(m, 8), OfByte(b), 32);
    ShiftShift(m, 8, 32);
    ShiftShift(m, 32, 8);
    ShiftShift(ones, 8 * |bytes|, 8);
    ShiftPlus(Shift(m, 32), Shift(ones, 8 * |bytes|), 8);
    PlusSwap(Shift(m, 40), Shift(OfByte(b), 32), Shift(ones, 8 * |bytes| + 8));
  }

  lemma PlusSwap(a: Poly, b: Poly, c: Poly)
    ensures Plus(Plus(a, b), c) == Plus(Plus(a, c), b)
  {
  }

  /** Feeding the bytes divides the dividend; what is left in the register is the remainder. */
  lemma {:induction false} FeedDivides(bytes: Bytes) returns (quotient: seq<bool>)
    ensures Dividend(bytes) == Plus(Multiple(quotient), OfRegister(Feed(Ones(), bytes)))
    decreases |bytes|
  {
    hide Shift, Plus, OfRegister, BitSteps, XorAt, BitsOf, Dividend, Multiple, OfByte;
    if bytes == [] {
      quotient := [];
      NothingFed();
    } else {
      var n := |bytes| - 1;
      var init, b := bytes[..n], bytes[n];
      assert bytes == init + [b];
      var before := Feed(Ones(), init);
      var mixed := XorAt(before, BitsOf(b, 8), 0);
      var high := FeedDivides(init);
      var low := StepsDivide(mixed, 8);
      quotient := high + low;
      MixAdds(before, b);
      DividendNext(init, b);
      MultipleAppend(high, low);
      NextDivision(Multiple(high), OfRegister(before), OfByte(b), Multiple(low), OfRegister(BitSteps(mixed, 8)));
    }
  }

  lemma NothingFed()
    ensures Dividend([]) == Plus(Multiple([]), OfRegister(Feed(Ones(), [])))
  {
  }

  /** Long division by eight more places. */
  lemma NextDivision(high: Poly, r: Poly, b: Poly, low: Poly, rest: Poly)
    requires Shift(Plus(r, Shift(b, 24)), 8) == Plus(low, rest)
    ensures Plus(Shift(Plus(high, r), 8), Shift(b, 32)) == Plus(Plus(Shift(high, 8), low), rest)
  {
    hide Shift, Plus;
    ShiftPlus(high, r, 8);
    ShiftPlus(r, Shift(b, 24), 8);
    ShiftShift(b, 24, 8);
    PlusAssociates(Shift(high, 8), Shift(r, 8), Shift(b, 32));
    PlusAssociates(Shift(high, 8), low, rest);
  }

  // ---------------------------------------------------------------- a polynomial has one remainder

  function Zeros(n: nat): seq<bool> {
    seq(n, i => false)
  }

  function Sum(a: seq<bool>, b: seq<bool>): seq<bool>
    requires |a| == |b|
  {
    seq(|a|, i requires 0 <= i < |a| => a[i] != b[i])
  }

  lemma {:induction false} MultipleSum(a: seq<bool>, b: seq<bool>)
    requires |a| == |b|
    ensures Plus(Multiple(a), Multiple(b)) == Multiple(Sum(a, b))
    decreases |a|
  {
    hide Shift, Plus;
    if a == [] {
      PlusNone({});
    } else {
      var n := |a| - 1;
      MultipleSum(a[..n], b[..n]);
      assert Sum(a, b)[..n] == Sum(a[..n], b[..n]);
      ShiftPlus(Multiple(a[..n]), Multiple(b[..n]), 1);
      PlusCrosswise(Shift(Multiple(a[..n]), 1), if a[n] then Divisor() else {}, Shift(Multiple(b[..n]), 1),
                    if b[n] then Divisor() else {});
      PlusSelf(Divisor());
    }
  }

  lemma PlusCrosswise(a: Poly, b: Poly, c: Poly, d: Poly)
    ensures Plus(Plus(a, b), Plus(c, d)) == Plus(Plus(a, c), Plus(b, d))
  {
  }

  lemma PlusSelf(a: Poly)
    ensures Plus(a, a) == {} && Plus(a, {}) == a && Plus({}, a) == a && Plus({}, {}) == {}
  {
  }

  lemma {:induction false} MultipleOfZeros(n: nat)
    ensures Multiple(Zeros(n)) == {}
  {
    if n > 0 {
      MultipleOfZeros(n - 1);
      assert Zeros(n)[..n - 1] == Zeros(n - 1);
    }
  }

  lemma MultiplePadded(q: seq<bool>, n: nat)
    ensures Multiple(Zeros(n) + q) == Multiple(q)
  {
    MultipleAppend(Zeros(n), q);
    MultipleOfZeros(n);
  }

  ghost predicate Tops(p: Poly, k: nat) {
    k in p && forall j :: j in p ==> j <= k
  }

  /** The highest exponent of a multiple of the divisor is 32 or more, if there is any. */
  lemma {:induction false} MultipleIsHigh(q: seq<bool>)
    ensures Multiple(q) == {} || exists k :: Tops(Multiple(q), k) && k >= 32
    decreases |q|
  {
    hide Tops, Divisor, Plus, Shift;
    if q != [] {
      var init, last := Multiple(q[..|q| - 1]), if q[|q| - 1] then Divisor() else {};
      MultipleIsHigh(q[..|q| - 1]);
      if init == {} {
        LowTop(last);
        PlusNone(last);
      } else {
        var k :| Tops(init, k) && k >= 32;
        HighTop(init, k, last);
      }
    }
  }

  lemma LowTop(last: Poly)
    requires last == Divisor() || last == {}
    ensures Shift({}, 1) == {}
    ensures last == {} || Tops(last, 32)
  {
    hide Divisor;
    DivisorBits();
  }

  lemma HighTop(init: Poly, k: nat, last: Poly)
    requires Tops(init, k) && k >= 32 && (last == Divisor() || last == {})
    ensures Tops(Plus(Shift(init, 1), last), k + 1)
  {
    hide Divisor;
    DivisorBits();
    forall j | j in Plus(Shift(init, 1), last) ensures j <= k + 1 {
      if j in Shift(init, 1) { assert j - 1 in init; }
    }
  }

  lemma RemainderUnique(p: Poly, r: Poly, other: Poly)
    requires IsRemainder(p, r) && IsRemainder(p, other)
    ensures r == other
  {
    hide Shift, Plus;
    var a :| p == Plus(Multiple(a), r);
    var b :| p == Plus(Multiple(b), other);
    MultiplePadded(a, |b|);
    MultiplePadded(b, |a|);
    var x, y := Zeros(|b|) + a, Zeros(|a|) + b;
    MultipleSum(x, y);
    Difference(Multiple(x), r, Multiple(y), other);
    MultipleIsHigh(Sum(x, y));
    LowDifference(r, other);
  }

  lemma Difference(m: Poly, r: Poly, n: Poly, s: Poly)
    requires Plus(m, r) == Plus(n, s)
    ensures Plus(m, n) == Plus(r, s)
  {
    forall k ensures k in Plus(m, n) <==> k in Plus(r, s) {
      assert k in Plus(m, r) <==> k in Plus(n, s);
    }
  }

  lemma LowDifference(r: Poly, s: Poly)
    ensures Plus(r, s) == {} ==> r == s
    ensures forall k :: k in Plus(r, s) ==> k in r || k in s
  {
    if Plus(r, s) == {} {
      forall k ensures k in r <==> k in s { assert k !in Plus(r, s); }
    }
  }

  // ---------------------------------------------------------------- the checksum

  lemma {:induction false} BitsDetermine(a: nat, b: nat, n: nat)
    requires a < Power2(n) && b < Power2(n) && forall i: nat :: i < n ==> (Bit(a, i) <==> Bit(b, i))
    ensures a == b
  {
    if n > 0 {
      assert Bit(a, 0) <==> Bit(b, 0);
      forall i: nat | i < n - 1 ensures Bit(a / 2, i) <==> Bit(b / 2, i) { assert Bit(a, i + 1) <==> Bit(b, i + 1); }
      BitsDetermine(a / 2, b / 2, n - 1);
    }
  }

  /** The checksum is the complement of the remainder, and nothing else is. */
  lemma ChecksumExactly(bytes: Bytes, sum: U32)
    ensures sum == Checksum(bytes) <==> exists r :: IsRemainder(Dividend(bytes), r) && Complements(sum, r)
  {
    hide Dividend, Multiple, Plus, Feed, Bit;
    var register := Feed(Ones(), bytes);
    var quotient := FeedDivides(bytes);
    assert IsRemainder(Dividend(bytes), OfRegister(register));
    RegisterComplements(bytes);
    if exists r :: IsRemainder(Dividend(bytes), r) && Complements(sum, r) {
      var r :| IsRemainder(Dividend(bytes), r) && Complements(sum, r);
      RemainderUnique(Dividend(bytes), r, OfRegister(register));
      Power2Of32();
      BitsDetermine(sum, Checksum(bytes), 32);
    }
  }

  lemma RegisterComplements(bytes: Bytes)
    ensures Complements(Checksum(bytes), OfRegister(Feed(Ones(), bytes)))
  {
    hide Feed, Bit;
    var register := Feed(Ones(), bytes);
    forall i: nat | i < 32 ensures Bit(Checksum(bytes), i) <==> 31 - i !in OfRegister(register) {
      ValueBit(Complement(register), i);
    }
  }
}
