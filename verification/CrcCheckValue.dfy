/** The published check value of the checksum: that of the nine digits. The register is a machine word here. */
module CrcCheckValue {
  import opened Words
  import opened Crc32

  predicate BitAt(w: bv32, i: nat)
    requires i < 32
  {
    (w >> i) & 1 == 1
  }

  function RegisterOf(w: bv32): Register {
    seq(32, i requires 0 <= i < 32 => BitAt(w, i))
  }

  /** One turn of the loop on a machine word. */
  function WordStep(w: bv32): bv32 {
    (w >> 1) ^ (if w & 1 == 1 then 0xedb8_8320 else 0)
  }

  function WordSteps(w: bv32): bv32 {
    WordStep(WordStep(WordStep(WordStep(WordStep(WordStep(WordStep(WordStep(w))))))))
  }

  predicate StepAgrees(w: bv32, i: nat)
    requires i < 32
  {
    BitAt(WordStep(w), i) == ((i < 31 && BitAt(w, i + 1)) != (BitAt(w, 0) && PolynomialBit(i)))
  }

  lemma StepBits0(w: bv32)
    ensures StepAgrees(w, 0) && StepAgrees(w, 1) && StepAgrees(w, 2) && StepAgrees(w, 3)
    ensures StepAgrees(w, 4) && StepAgrees(w, 5) && StepAgrees(w, 6) && StepAgrees(w, 7)
  {
  }

  lemma StepBits8(w: bv32)
    ensures StepAgrees(w, 8) && StepAgrees(w, 9) && StepAgrees(w, 10) && StepAgrees(w, 11)
    ensures StepAgrees(w, 12) && StepAgrees(w, 13) && StepAgrees(w, 14) && StepAgrees(w, 15)
  {
  }

  lemma StepBits16(w: bv32)
    ensures StepAgrees(w, 16) && StepAgrees(w, 17) && StepAgrees(w, 18) && StepAgrees(w, 19)
    ensures StepAgrees(w, 20) && StepAgrees(w, 21) && StepAgrees(w, 22) && StepAgrees(w, 23)
  {
  }

  lemma StepBits24(w: bv32)
    ensures StepAgrees(w, 24) && StepAgrees(w, 25) && StepAgrees(w, 26) && StepAgrees(w, 27)
    ensures StepAgrees(w, 28) && StepAgrees(w, 29) && StepAgrees(w, 30) && StepAgrees(w, 31)
  {
  }

  lemma WordStepBits(w: bv32)
    ensures forall i: nat :: i < 32 ==> StepAgrees(w, i)
  {
    hide StepAgrees;
    StepBits0(w);
    StepBits8(w);
    StepBits16(w);
    StepBits24(w);
  }

  lemma StepOnWord(w: bv32)
    ensures BitStep(RegisterOf(w)) == RegisterOf(WordStep(w))
  {
    hide WordStep, PolynomialBit, BitAt;
    WordStepBits(w);
    forall i: nat | i < 32 ensures BitStep(RegisterOf(w))[i] == RegisterOf(WordStep(w))[i] {
      assert StepAgrees(w, i);
    }
  }

  lemma StepsOnWord(w: bv32)
    ensures BitSteps(RegisterOf(w), 8) == RegisterOf(WordSteps(w))
  {
    hide WordStep, RegisterOf, BitStep;
    var w1 := WordStep(w);
    var w2 := WordStep(w1);
    var w3 := WordStep(w2);
    var w4 := WordStep(w3);
    var w5 := WordStep(w4);
    var w6 := WordStep(w5);
    var w7 := WordStep(w6);
    StepOnWord(w);
    StepOnWord(w1);
    StepOnWord(w2);
    StepOnWord(w3);
    StepOnWord(w4);
    StepOnWord(w5);
    StepOnWord(w6);
    StepOnWord(w7);
    var r := RegisterOf(w);
    assert BitSteps(r, 1) == RegisterOf(w1);
    assert BitSteps(r, 2) == RegisterOf(w2);
    assert BitSteps(r, 3) == RegisterOf(w3);
    assert BitSteps(r, 4) == RegisterOf(w4);
    assert BitSteps(r, 5) == RegisterOf(w5);
    assert BitSteps(r, 6) == RegisterOf(w6);
    assert BitSteps(r, 7) == RegisterOf(w7);
  }

  predicate XorAgrees(v: bv32, w: bv32, i: nat)
    requires i < 32
  {
    BitAt(v ^ w, i) == (BitAt(v, i) != BitAt(w, i))
  }

  lemma XorBits0(v: bv32, w: bv32)
    ensures XorAgrees(v, w, 0) && XorAgrees(v, w, 1) && XorAgrees(v, w, 2) && XorAgrees(v, w, 3)
    ensures XorAgrees(v, w, 4) && XorAgrees(v, w, 5) && XorAgrees(v, w, 6) && XorAgrees(v, w, 7)
    ensures XorAgrees(v, w, 8) && XorAgrees(v, w, 9) && XorAgrees(v, w, 10) && XorAgrees(v, w, 11)
    ensures XorAgrees(v, w, 12) && XorAgrees(v, w, 13) && XorAgrees(v, w, 14) && XorAgrees(v, w, 15)
  {
  }

  lemma XorBits16(v: bv32, w: bv32)
    ensures XorAgrees(v, w, 16) && XorAgrees(v, w, 17) && XorAgrees(v, w, 18) && XorAgrees(v, w, 19)
    ensures XorAgrees(v, w, 20) && XorAgrees(v, w, 21) && XorAgrees(v, w, 22) && XorAgrees(v, w, 23)
    ensures XorAgrees(v, w, 24) && XorAgrees(v, w, 25) && XorAgrees(v, w, 26) && XorAgrees(v, w, 27)
    ensures XorAgrees(v, w, 28) && XorAgrees(v, w, 29) && XorAgrees(v, w, 30) && XorAgrees(v, w, 31)
  {
  }

  lemma XorBits(v: bv32, w: bv32)
    ensures forall i: nat :: i < 32 ==> XorAgrees(v, w, i)
  {
    hide XorAgrees;
    XorBits0(v, w);
    XorBits16(v, w);
  }

  function LowBits(w: bv32): Bits {
    [BitAt(w, 0), BitAt(w, 1), BitAt(w, 2), BitAt(w, 3), BitAt(w, 4), BitAt(w, 5), BitAt(w, 6), BitAt(w, 7)]
  }

  /** The byte is the low end of the word. */
  predicate IsByte(b: U8, w: bv32) {
    w < 256 && BitsOf(b, 8) == LowBits(w)
  }

  function Unit(x: bool): nat {
    if x then 1 else 0
  }

  lemma NextBit(x: bool, n: nat, width: nat)
    ensures BitsOf(Unit(x) + 2 * n, width + 1) == [x] + BitsOf(n, width)
  {
  }

  lemma FourBits(x: seq<bool>, n: nat, width: nat)
    requires |x| == 4
    ensures var v := Unit(x[0]) + 2 * (Unit(x[1]) + 2 * (Unit(x[2]) + 2 * (Unit(x[3]) + 2 * n)));
      BitsOf(v, width + 4) == x + BitsOf(n, width)
  {
    hide BitsOf, Unit;
    var v3 := Unit(x[3]) + 2 * n;
    var v2 := Unit(x[2]) + 2 * v3;
    var v1 := Unit(x[1]) + 2 * v2;
    NextBit(x[3], n, width);
    NextBit(x[2], v3, width + 1);
    NextBit(x[1], v2, width + 2);
    NextBit(x[0], v1, width + 3);
    assert x == [x[0]] + ([x[1]] + ([x[2]] + [x[3]]));
  }

  /** A byte and its bits, the least significant first. */
  lemma EightBits(b: U8, low: seq<bool>, high: seq<bool>)
    requires |low| == |high| == 4
    requires b == Nibble(low) + 16 * Nibble(high)
    ensures BitsOf(b, 8) == low + high
  {
    hide BitsOf, Unit;
    FourBits(low, Nibble(high), 4);
    FourBits(high, 0, 0);
    assert BitsOf(0, 0) == [] by { NoBits(0); }
  }

  function Nibble(x: seq<bool>): nat
    requires |x| == 4
  {
    Unit(x[0]) + 2 * Unit(x[1]) + 4 * Unit(x[2]) + 8 * Unit(x[3])
  }

  lemma NoBits(n: nat)
    ensures BitsOf(n, 0) == []
  {
  }

  lemma HighBits(w: bv32, i: nat)
    requires w < 256 && 8 <= i < 32
    ensures !BitAt(w, i)
  {
  }

  lemma LowBit(w: bv32, i: nat)
    requires i < 8
    ensures LowBits(w)[i] == BitAt(w, i)
  {
    hide BitAt;
  }

  lemma MixedBit(v: bv32, w: bv32, i: nat)
    requires w < 256 && i < 32
    ensures XorAt(RegisterOf(v), LowBits(w), 0)[i] == BitAt(v ^ w, i)
  {
    var low := LowBits(w);
    assert |low| == 8;
    hide BitAt, LowBits;
    XorBits(v, w);
    assert XorAgrees(v, w, i);
    if i >= 8 { HighBits(w, i); } else { LowBit(w, i); }
  }

  lemma MixOnWord(v: bv32, w: bv32)
    requires w < 256
    ensures XorAt(RegisterOf(v), LowBits(w), 0) == RegisterOf(v ^ w)
  {
    var low, sum := LowBits(w), v ^ w;
    assert |low| == 8;
    hide BitAt, LowBits, XorAt;
    forall i: nat | i < 32 ensures XorAt(RegisterOf(v), low, 0)[i] == BitAt(sum, i) { MixedBit(v, w, i); }
    assert XorAt(RegisterOf(v), low, 0) == RegisterOf(sum);
  }

  lemma ByteOnWord(v: bv32, w: bv32, b: U8)
    requires IsByte(b, w)
    ensures ByteStep(RegisterOf(v), b) == RegisterOf(WordSteps(v ^ w))
  {
    hide BitAt, WordSteps, BitSteps, BitsOf, XorAt, RegisterOf;
    MixOnWord(v, w);
    StepsOnWord(v ^ w);
  }

  lemma FeedWordOn(bytes: Bytes, b: U8, v: bv32, w: bv32, next: bv32)
    requires Feed(Ones(), bytes) == RegisterOf(v) && IsByte(b, w) && WordSteps(v ^ w) == next
    ensures Feed(Ones(), bytes + [b]) == RegisterOf(next)
  {
    hide RegisterOf, WordSteps, IsByte, ByteStep;
    ByteOnWord(v, w, b);
    assert (bytes + [b])[..|bytes|] == bytes;
  }

  /** The register, as a word, before and after each digit. */
  lemma DigitWords()
    ensures WordSteps(0xffff_ffff ^ 49) == 0x7c23_1048
    ensures WordSteps(0x7c23_1048 ^ 50) == 0xb0ac_bb32
    ensures WordSteps(0xb0ac_bb32 ^ 51) == 0x77b7_9c2d
    ensures WordSteps(0x77b7_9c2d ^ 52) == 0x641c_1f5c
    ensures WordSteps(0x641c_1f5c ^ 53) == 0x340a_c5e3
    ensures WordSteps(0x340a_c5e3 ^ 54) == 0xf68d_2c9e
    ensures WordSteps(0xf68d_2c9e ^ 55) == 0xaffc_9660
    ensures WordSteps(0xaffc_9660 ^ 56) == 0x651f_2550
    ensures WordSteps(0x651f_2550 ^ 57) == 0x340b_c6d9
  {
  }

  lemma DigitBytes()
    ensures IsByte(49, 49) && IsByte(50, 50) && IsByte(51, 51) && IsByte(52, 52) && IsByte(53, 53)
    ensures IsByte(54, 54) && IsByte(55, 55) && IsByte(56, 56) && IsByte(57, 57)
  {
    hide BitsOf;
    EightBits(49, [true, false, false, false], [true, true, false, false]);
    EightBits(50, [false, true, false, false], [true, true, false, false]);
    EightBits(51, [true, true, false, false], [true, true, false, false]);
    EightBits(52, [false, false, true, false], [true, true, false, false]);
    EightBits(53, [true, false, true, false], [true, true, false, false]);
    EightBits(54, [false, true, true, false], [true, true, false, false]);
    EightBits(55, [true, true, true, false], [true, true, false, false]);
    EightBits(56, [false, false, false, true], [true, true, false, false]);
    EightBits(57, [true, false, false, true], [true, true, false, false]);
  }

  lemma OnesWord()
    ensures Feed(Ones(), []) == RegisterOf(0xffff_ffff)
  {
    hide BitAt;
    forall i: nat | i < 32 ensures BitAt(0xffff_ffff, i) { AllSet(i); }
  }

  lemma AllSet(i: nat)
    requires i < 32
    ensures BitAt(0xffff_ffff, i)
  {
  }

  const DIGITS: Bytes := [49, 50, 51, 52, 53, 54, 55, 56, 57]

  lemma DigitsFed()
    ensures Feed(Ones(), DIGITS) == RegisterOf(0x340b_c6d9)
  {
    hide IsByte, WordSteps, Feed, RegisterOf;
    OnesWord();
    DigitBytes();
    DigitWords();
    FeedWordOn([], 49, 0xffff_ffff, 49, 0x7c23_1048);
    assert [] + [49] == [49];
    FeedWordOn([49], 50, 0x7c23_1048, 50, 0xb0ac_bb32);
    assert [49] + [50] == [49, 50];
    FeedWordOn([49, 50], 51, 0xb0ac_bb32, 51, 0x77b7_9c2d);
    assert [49, 50] + [51] == [49, 50, 51];
    FeedWordOn([49, 50, 51], 52, 0x77b7_9c2d, 52, 0x641c_1f5c);
    assert [49, 50, 51] + [52] == [49, 50, 51, 52];
    FeedWordOn([49, 50, 51, 52], 53, 0x641c_1f5c, 53, 0x340a_c5e3);
    assert [49, 50, 51, 52] + [53] == [49, 50, 51, 52, 53];
    FeedWordOn([49, 50, 51, 52, 53], 54, 0x340a_c5e3, 54, 0xf68d_2c9e);
    assert [49, 50, 51, 52, 53] + [54] == [49, 50, 51, 52, 53, 54];
    FeedWordOn([49, 50, 51, 52, 53, 54], 55, 0xf68d_2c9e, 55, 0xaffc_9660);
    assert [49, 50, 51, 52, 53, 54] + [55] == [49, 50, 51, 52, 53, 54, 55];
    FeedWordOn([49, 50, 51, 52, 53, 54, 55], 56, 0xaffc_9660, 56, 0x651f_2550);
    assert [49, 50, 51, 52, 53, 54, 55] + [56] == [49, 50, 51, 52, 53, 54, 55, 56];
    FeedWordOn([49, 50, 51, 52, 53, 54, 55, 56], 57, 0x651f_2550, 57, 0x340b_c6d9);
    assert [49, 50, 51, 52, 53, 54, 55, 56] + [57] == [49, 50, 51, 52, 53, 54, 55, 56, 57];
  }

  lemma {:induction false} ValueOfJoined(a: Bits, b: Bits)
    ensures ValueOf(a + b) == ValueOf(a) + Power2(|a|) * ValueOf(b)
  {
    if a == [] {
      assert a + b == b;
    } else {
      var rest, p, v := a[1..], Power2(|a| - 1), ValueOf(b);
      assert (a + b)[1..] == rest + b;
      ValueOfJoined(rest, b);
      var tail := ValueOf(rest + b);
      hide ValueOf;
      Doubled(p, v);
    }
  }

  lemma Doubled(p: nat, v: nat)
    ensures 2 * (p * v) == (2 * p) * v
  {
  }

  /** The value of a register written as four bytes, the lowest first. */
  lemma FourBytes(b0: U8, b1: U8, b2: U8, b3: U8)
    ensures var bits := BitsOf(b0, 8) + (BitsOf(b1, 8) + (BitsOf(b2, 8) + BitsOf(b3, 8)));
      |bits| == 32 && ValueOf(bits) == b0 + 0x100 * (b1 + 0x100 * (b2 + 0x100 * b3))
  {
    hide ValueOf, BitsOf;
    assert Power2(8) == 0x100;
    BitsRoundTrip(b0, 8);
    BitsRoundTrip(b1, 8);
    BitsRoundTrip(b2, 8);
    BitsRoundTrip(b3, 8);
    ValueOfJoined(BitsOf(b2, 8), BitsOf(b3, 8));
    ValueOfJoined(BitsOf(b1, 8), BitsOf(b2, 8) + BitsOf(b3, 8));
    ValueOfJoined(BitsOf(b0, 8), BitsOf(b1, 8) + (BitsOf(b2, 8) + BitsOf(b3, 8)));
  }

  /** Bits 8 * n up to 8 * n + 7 of the complement. */
  predicate Completes(w: bv32, n: nat, bits: Bits)
    requires n < 4 && |bits| == 8
  {
    && bits[0] == !BitAt(w, 8 * n) && bits[1] == !BitAt(w, 8 * n + 1) && bits[2] == !BitAt(w, 8 * n + 2)
    && bits[3] == !BitAt(w, 8 * n + 3) && bits[4] == !BitAt(w, 8 * n + 4) && bits[5] == !BitAt(w, 8 * n + 5)
    && bits[6] == !BitAt(w, 8 * n + 6) && bits[7] == !BitAt(w, 8 * n + 7)
  }

  lemma LastByte0()
    ensures Completes(0x340b_c6d9, 0, BitsOf(0x26, 8))
  {
    hide BitsOf;
    EightBits(0x26, [false, true, true, false], [false, true, false, false]);
  }

  lemma LastByte1()
    ensures Completes(0x340b_c6d9, 1, BitsOf(0x39, 8))
  {
    hide BitsOf;
    EightBits(0x39, [true, false, false, true], [true, true, false, false]);
  }

  lemma LastByte2()
    ensures Completes(0x340b_c6d9, 2, BitsOf(0xf4, 8))
  {
    hide BitsOf;
    EightBits(0xf4, [false, false, true, false], [true, true, true, true]);
  }

  lemma LastByte3()
    ensures Completes(0x340b_c6d9, 3, BitsOf(0xcb, 8))
  {
    hide BitsOf;
    EightBits(0xcb, [true, true, false, true], [false, false, true, true]);
  }

  lemma ComplementByte(w: bv32, n: nat, bits: Bits)
    requires n < 4 && |bits| == 8 && Completes(w, n, bits)
    ensures Complement(RegisterOf(w))[8 * n..8 * n + 8] == bits
  {
    hide BitAt;
  }

  lemma ComplementOf(w: bv32, b0: Bits, b1: Bits, b2: Bits, b3: Bits)
    requires |b0| == |b1| == |b2| == |b3| == 8
    requires Completes(w, 0, b0) && Completes(w, 1, b1) && Completes(w, 2, b2) && Completes(w, 3, b3)
    ensures Complement(RegisterOf(w)) == b0 + (b1 + (b2 + b3))
  {
    hide Completes, RegisterOf, Complement;
    ComplementByte(w, 0, b0);
    ComplementByte(w, 1, b1);
    ComplementByte(w, 2, b2);
    ComplementByte(w, 3, b3);
    var c := Complement(RegisterOf(w));
    assert c == c[0..8] + (c[8..16] + (c[16..24] + c[24..32]));
  }

  /** The check value of the nine digits. */
  lemma CheckValue()
    ensures Checksum(DIGITS) == 0xcbf4_3926
  {
    hide Feed, RegisterOf, Complement, BitsOf, ValueOf, Completes;
    DigitsFed();
    LastByte0();
    LastByte1();
    LastByte2();
    LastByte3();
    FourBytes(0x26, 0x39, 0xf4, 0xcb);
    ComplementOf(0x340b_c6d9, BitsOf(0x26, 8), BitsOf(0x39, 8), BitsOf(0xf4, 8), BitsOf(0xcb, 8));
  }
}
