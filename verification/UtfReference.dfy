/** The encodings as their standards write them down, and that the converters' encodings are these. */
module UtfReference {
  import opened Words
  import opened Utf

  // ---------------------------------------------------------------- section 4 of RFC 3629

  predicate Tail(b: U8) { 0x80 <= b <= 0xBF }

  predicate Utf8Two(b: Bytes) { |b| == 2 && 0xC2 <= b[0] <= 0xDF && Tail(b[1]) }

  predicate Utf8Three(b: Bytes) {
    && |b| == 3 && Tail(b[2])
    && (|| (b[0] == 0xE0 && 0xA0 <= b[1] <= 0xBF)
        || (0xE1 <= b[0] <= 0xEC && Tail(b[1]))
        || (b[0] == 0xED && 0x80 <= b[1] <= 0x9F)
        || (0xEE <= b[0] <= 0xEF && Tail(b[1])))
  }

  predicate Utf8Four(b: Bytes) {
    && |b| == 4 && Tail(b[2]) && Tail(b[3])
    && (|| (b[0] == 0xF0 && 0x90 <= b[1] <= 0xBF)
        || (0xF1 <= b[0] <= 0xF3 && Tail(b[1]))
        || (b[0] == 0xF4 && 0x80 <= b[1] <= 0x8F))
  }

  /** What a byte carries above the fixed bits of its kind. */
  function Payload(b: int, fixed: int): int { b - fixed }

  /** The bytes are the UTF-8 of this code point: well formed, six bits to a continuation byte. */
  predicate IsUtf8(b: Bytes, c: int) {
    || (|b| == 1 && b[0] <= 0x7F && c == b[0])
    || (Utf8Two(b) && c == Payload(b[0], 0xC0) * 64 + Payload(b[1], 0x80))
    || (Utf8Three(b) && c == Payload(b[0], 0xE0) * 4096 + Payload(b[1], 0x80) * 64 + Payload(b[2], 0x80))
    || (Utf8Four(b) && c == Payload(b[0], 0xF0) * 262144 + Payload(b[1], 0x80) * 4096 + Payload(b[2], 0x80) * 64 + Payload(b[3], 0x80))
  }

  lemma Utf8Encodes(c: Scalar)
    ensures IsUtf8(Bytes8(c), c)
  {
    if 0x7FF < c <= 0xFFFF {
      assert c == c / 0x1000 * 4096 + c / 0x40 % 0x40 * 64 + c % 0x40 by { Places(c); }
    } else if 0xFFFF < c {
      assert c == c / 0x40000 * 262144 + c / 0x1000 % 0x40 * 4096 + c / 0x40 % 0x40 * 64 + c % 0x40 by { Places(c); }
    }
  }

  lemma Places(c: nat)
    ensures c == c / 0x1000 * 4096 + c / 0x40 % 0x40 * 64 + c % 0x40
    ensures c == c / 0x40000 * 262144 + c / 0x1000 % 0x40 * 4096 + c / 0x40 % 0x40 * 64 + c % 0x40
  {
    var d, e, f := c / 0x40, c / 0x1000, c / 0x40000;
    assert e == d / 0x40 && f == e / 0x40 by { Halves(c); }
  }

  /** A code point has one well-formed form, and it is the one written; surrogates have none. */
  lemma Utf8Exactly(c: int, b: Bytes)
    ensures IsUtf8(b, c) <==> (0 <= c < 0xD800 || 0xE000 <= c <= 0x10FFFF) && b == Bytes8(c)
  {
    if IsUtf8(b, c) {
      if Utf8Two(b) {
        Digits(Payload(b[0], 0xC0), Payload(b[1], 0x80));
      } else if Utf8Three(b) {
        Utf8ThreeOnly(c, b);
      } else if Utf8Four(b) {
        Utf8FourOnly(c, b);
      }
    } else if 0 <= c < 0xD800 || 0xE000 <= c <= 0x10FFFF {
      Utf8Encodes(c);
    }
  }

  lemma ThreePlaces(x: nat, y: nat, z: nat)
    requires y < 64 && z < 64
    ensures var c := x * 4096 + y * 64 + z; c / 0x1000 == x && c / 0x40 % 0x40 == y && c % 0x40 == z
  {
    Digits(x * 0x40 + y, z);
    Digits(x, y);
    Halves(x * 4096 + y * 64 + z);
  }

  lemma FourPlaces(w: nat, x: nat, y: nat, z: nat)
    requires x < 64 && y < 64 && z < 64
    ensures var c := w * 262144 + x * 4096 + y * 64 + z;
      c / 0x40000 == w && c / 0x1000 % 0x40 == x && c / 0x40 % 0x40 == y && c % 0x40 == z
  {
    Digits((w * 0x40 + x) * 0x40 + y, z);
    Digits(w * 0x40 + x, y);
    Digits(w, x);
    Halves(w * 262144 + x * 4096 + y * 64 + z);
  }

  lemma Utf8ThreeOnly(c: int, b: Bytes)
    requires Utf8Three(b) && c == Payload(b[0], 0xE0) * 4096 + Payload(b[1], 0x80) * 64 + Payload(b[2], 0x80)
    ensures (0x800 <= c < 0xD800 || 0xE000 <= c <= 0xFFFF) && b == Bytes8(c)
  {
    ThreePlaces(Payload(b[0], 0xE0), Payload(b[1], 0x80), Payload(b[2], 0x80));
    assert b == [b[0], b[1], b[2]];
  }

  lemma Utf8FourOnly(c: int, b: Bytes)
    requires Utf8Four(b)
    requires c == Payload(b[0], 0xF0) * 262144 + Payload(b[1], 0x80) * 4096 + Payload(b[2], 0x80) * 64 + Payload(b[3], 0x80)
    ensures 0x10000 <= c <= 0x10FFFF && b == Bytes8(c)
  {
    FourPlaces(Payload(b[0], 0xF0), Payload(b[1], 0x80), Payload(b[2], 0x80), Payload(b[3], 0x80));
    assert b == [b[0], b[1], b[2], b[3]];
  }

  // ---------------------------------------------------------------- section 2 of RFC 2781

  /** One unit, not a surrogate; or a high and a low surrogate, ten bits each, above 0x10000. */
  predicate IsUtf16(w: Units, c: int) {
    || (|w| == 1 && c == w[0] && !(0xD800 <= w[0] <= 0xDFFF))
    || (&& |w| == 2 && 0xD800 <= w[0] <= 0xDBFF && 0xDC00 <= w[1] <= 0xDFFF
        && c == Payload(w[0], 0xD800) * 1024 + Payload(w[1], 0xDC00) + 0x10000)
  }

  lemma Utf16Exactly(c: int, w: Units)
    ensures IsUtf16(w, c) <==> (0 <= c < 0xD800 || 0xE000 <= c <= 0x10FFFF) && w == Units16(c)
  {
  }

  // ---------------------------------------------------------------- whole texts

  /** The bytes are the pieces, each the UTF-8 of the code point in its place. */
  ghost predicate EncodesUtf8(text: seq<Scalar>, pieces: seq<Bytes>, b: Bytes) {
    && |pieces| == |text| && (forall i :: 0 <= i < |text| ==> IsUtf8(pieces[i], text[i]))
    && b == Flat(pieces)
  }

  ghost predicate EncodesUtf16(text: seq<Scalar>, pieces: seq<Units>, w: Units) {
    && |pieces| == |text| && (forall i :: 0 <= i < |text| ==> IsUtf16(pieces[i], text[i]))
    && w == Flat(pieces)
  }

  function Flat<T>(pieces: seq<seq<T>>): seq<T> {
    if pieces == [] then [] else pieces[0] + Flat(pieces[1..])
  }

  lemma {:induction false} TextExactly(text: seq<Scalar>, b: Bytes, w: Units)
    ensures b == Utf8(text) <==> exists pieces :: EncodesUtf8(text, pieces, b)
    ensures w == Utf16(text) <==> exists pieces :: EncodesUtf16(text, pieces, w)
  {
    var bytes, units := Pieces8(text), Pieces16(text);
    Pieced(text);
    forall i | 0 <= i < |text| ensures IsUtf8(bytes[i], text[i]) && IsUtf16(units[i], text[i]) {
      Utf8Exactly(text[i], bytes[i]);
      Utf16Exactly(text[i], units[i]);
    }
    assert EncodesUtf8(text, bytes, Utf8(text)) && EncodesUtf16(text, units, Utf16(text));
    forall pieces | EncodesUtf8(text, pieces, b) ensures pieces == bytes {
      forall i | 0 <= i < |text| ensures pieces[i] == bytes[i] { Utf8Exactly(text[i], pieces[i]); }
    }
    forall pieces | EncodesUtf16(text, pieces, w) ensures pieces == units {
      forall i | 0 <= i < |text| ensures pieces[i] == units[i] { Utf16Exactly(text[i], pieces[i]); }
    }
  }

  function Pieces8(text: seq<Scalar>): seq<Bytes> {
    seq(|text|, i requires 0 <= i < |text| => Bytes8(text[i]))
  }

  function Pieces16(text: seq<Scalar>): seq<Units> {
    seq(|text|, i requires 0 <= i < |text| => Units16(text[i]))
  }

  lemma {:induction false} Pieced(text: seq<Scalar>)
    ensures Flat(Pieces8(text)) == Utf8(text) && Flat(Pieces16(text)) == Utf16(text)
  {
    if text != [] {
      Pieced(text[1..]);
      assert Pieces8(text)[1..] == Pieces8(text[1..]) && Pieces16(text)[1..] == Pieces16(text[1..]);
    }
  }

  // ---------------------------------------------------------------- the controls

  /** No unit is a C0 control or DEL. */
  predicate NoControls(w: Units) {
    forall i :: 0 <= i < |w| ==> w[i] >= 32 && w[i] != 127
  }

  lemma ControlsJoin(a: Units, b: Units)
    ensures NoControls(a + b) <==> NoControls(a) && NoControls(b)
  {
    assert forall i :: 0 <= i < |a| ==> (a + b)[i] == a[i];
    assert forall i :: 0 <= i < |b| ==> (a + b)[|a| + i] == b[i];
  }

  /** What the decoder refuses shows in the units: a control is one unit, and no other unit looks like one. */
  lemma {:induction false} ControlUnits(text: seq<Scalar>)
    ensures Printable(text) <==> NoControls(Utf16(text))
  {
    if text != [] {
      ControlUnits(text[1..]);
      ControlsJoin(Units16(text[0]), Utf16(text[1..]));
      PrintableSplit(text);
      OneControl(text[0]);
    }
  }

  lemma OneControl(c: Scalar)
    ensures NoControls(Units16(c)) <==> !Control(c)
  {
    if c <= 0xFFFF { assert Units16(c)[0] == c; }
  }

  lemma PrintableSplit(text: seq<Scalar>)
    requires text != []
    ensures Printable(text) <==> !Control(text[0]) && Printable(text[1..])
  {
    if !Control(text[0]) && Printable(text[1..]) {
      forall i | 0 <= i < |text| ensures !Control(text[i]) {
        if i > 0 { assert text[i] == text[1..][i - 1]; }
      }
    }
    if Printable(text) {
      forall i | 0 <= i < |text[1..]| ensures !Control(text[1..][i]) { assert text[1..][i] == text[i + 1]; }
    }
  }

  /** Wide text that the encoder accepts comes back unchanged exactly if none of its units is a control. */
  method RoundTripExactly(w: Units) returns (back: Option<Units>)
    requires ReadWide(w).Some?
    ensures if NoControls(w) then back == Some(w) else back == None
  {
    ReadWideOnly(w);
    ControlUnits(ReadWide(w).value);
    back := WideRoundTrip(w);
  }
}
