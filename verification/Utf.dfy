/** The local store's UTF-16/UTF-8 pair (sections 3 and 4 of RFC 3629, section 2 of RFC 2781). */
module Utf {
  import opened Words

  /** A code point that is not a surrogate. */
  type Scalar = c: int | 0 <= c < 0xD800 || 0xE000 <= c <= 0x10FFFF

  type Units = seq<U16>

  // ---------------------------------------------------------------- the two encodings

  function Units16(c: Scalar): Units {
    if c <= 0xFFFF then [c] else [0xD800 + (c - 0x10000) / 0x400, 0xDC00 + (c - 0x10000) % 0x400]
  }

  function Bytes8(c: Scalar): Bytes {
    if c <= 0x7F then [c]
    else if c <= 0x7FF then [0xC0 + c / 0x40, 0x80 + c % 0x40]
    else if c <= 0xFFFF then [0xE0 + c / 0x1000, 0x80 + c / 0x40 % 0x40, 0x80 + c % 0x40]
    else [0xF0 + c / 0x40000, 0x80 + c / 0x1000 % 0x40, 0x80 + c / 0x40 % 0x40, 0x80 + c % 0x40]
  }

  function Utf16(text: seq<Scalar>): Units {
    if text == [] then [] else Units16(text[0]) + Utf16(text[1..])
  }

  function Utf8(text: seq<Scalar>): Bytes {
    if text == [] then [] else Bytes8(text[0]) + Utf8(text[1..])
  }

  lemma {:induction false} Utf8Push(text: seq<Scalar>, c: Scalar)
    ensures Utf8(text + [c]) == Utf8(text) + Bytes8(c)
  {
    if text == [] {
      assert [] + [c] == [c];
    } else {
      assert (text + [c])[1..] == text[1..] + [c];
      Utf8Push(text[1..], c);
    }
  }

  lemma {:induction false} Utf16Push(text: seq<Scalar>, c: Scalar)
    ensures Utf16(text + [c]) == Utf16(text) + Units16(c)
  {
    if text == [] {
      assert [] + [c] == [c];
    } else {
      assert (text + [c])[1..] == text[1..] + [c];
      Utf16Push(text[1..], c);
    }
  }

  /** The decoder refuses C0 controls and DEL. */
  predicate Control(c: Scalar) { c < 0x20 || c == 0x7F }

  predicate Printable(text: seq<Scalar>) {
    forall i :: 0 <= i < |text| ==> !Control(text[i])
  }

  // ---------------------------------------------------------------- reading one code point

  /** A code point and the number of units it took. */
  datatype Head = Bad | Good(code: Scalar, size: nat)

  function Pair(high: int, low: int): int { 0x10000 + (high - 0xD800) * 0x400 + (low - 0xDC00) }

  function WideHead(w: Units): (h: Head)
    requires w != []
    ensures h.Good? ==> 0 < h.size <= |w|
  {
    if w[0] < 0xD800 || w[0] > 0xDFFF then Good(w[0], 1)
    else if w[0] > 0xDBFF || |w| < 2 || w[1] < 0xDC00 || w[1] > 0xDFFF then Bad
    else Good(Pair(w[0], w[1]), 2)
  }

  lemma WideHeadReads(w: Units)
    requires w != [] && WideHead(w).Good?
    ensures w[..WideHead(w).size] == Units16(WideHead(w).code)
  {
  }

  lemma WideHeadFinds(c: Scalar, rest: Units)
    ensures WideHead(Units16(c) + rest) == Good(c, |Units16(c)|)
  {
  }

  predicate IsContinuation(b: U8) { b / 0x40 == 2 }

  /** The values carried by a lead byte of each length and its continuation bytes. */
  function Two(lead: nat, a: nat): nat { lead % 0x20 * 0x40 + a % 0x40 }

  function Three(lead: nat, a: nat, b: nat): nat { (lead % 0x10 * 0x40 + a % 0x40) * 0x40 + b % 0x40 }

  function Four(lead: nat, a: nat, b: nat, c: nat): nat {
    ((lead % 8 * 0x40 + a % 0x40) * 0x40 + b % 0x40) * 0x40 + c % 0x40
  }

  function ByteHead(b: Bytes): (h: Head)
    requires b != []
    ensures h.Good? ==> 0 < h.size <= |b|
  {
    var lead := b[0];
    if lead <= 0x7F then (if lead < 0x20 || lead == 0x7F then Bad else Good(lead, 1))
    else if lead / 0x20 == 6 then
      if lead % 0x20 < 2 || |b| < 2 || !IsContinuation(b[1]) then Bad
      else Checked(Two(lead, b[1]), 2, 0x80)
    else if lead / 0x10 == 14 then
      if |b| < 3 || !IsContinuation(b[1]) || !IsContinuation(b[2]) then Bad
      else Checked(Three(lead, b[1], b[2]), 3, 0x800)
    else if lead / 8 == 30 then
      if lead % 8 > 4 || |b| < 4 || !IsContinuation(b[1]) || !IsContinuation(b[2]) || !IsContinuation(b[3]) then Bad
      else Checked(Four(lead, b[1], b[2], b[3]), 4, 0x10000)
    else Bad
  }

  function Checked(c: nat, size: nat, least: nat): (h: Head)
    ensures h.Good? ==> h.size == size && h.code == c >= least
  {
    if c < least || c > 0x10FFFF || 0xD800 <= c <= 0xDFFF then Bad else Good(c, size)
  }

  // ---------------------------------------------------------------- six bits at a time

  lemma Digits(x: nat, y: nat)
    requires y < 0x40
    ensures (x * 0x40 + y) / 0x40 == x && (x * 0x40 + y) % 0x40 == y
  {
  }

  lemma TwoReads(lead: U8, a: U8)
    requires lead / 0x20 == 6 && IsContinuation(a)
    ensures var c := Two(lead, a); c <= 0x7FF && lead == 0xC0 + c / 0x40 && a == 0x80 + c % 0x40
    ensures lead % 0x20 >= 2 <==> Two(lead, a) >= 0x80
  {
    Digits(lead % 0x20, a % 0x40);
  }

  lemma ThreeReads(lead: U8, a: U8, b: U8)
    requires lead / 0x10 == 14 && IsContinuation(a) && IsContinuation(b)
    ensures var c := Three(lead, a, b);
      c <= 0xFFFF && lead == 0xE0 + c / 0x1000 && a == 0x80 + c / 0x40 % 0x40 && b == 0x80 + c % 0x40
  {
    var x, y := lead % 0x10, a % 0x40;
    Digits(x, y);
    Digits(x * 0x40 + y, b % 0x40);
    Halves(Three(lead, a, b));
  }

  lemma FourReads(lead: U8, a: U8, b: U8, d: U8)
    requires lead / 8 == 30 && IsContinuation(a) && IsContinuation(b) && IsContinuation(d)
    ensures var c := Four(lead, a, b, d);
      lead == 0xF0 + c / 0x40000 && a == 0x80 + c / 0x1000 % 0x40 && b == 0x80 + c / 0x40 % 0x40 && d == 0x80 + c % 0x40
  {
    var x, y, z := lead % 8, a % 0x40, b % 0x40;
    Digits(x, y);
    Digits(x * 0x40 + y, z);
    Digits((x * 0x40 + y) * 0x40 + z, d % 0x40);
    Halves(Four(lead, a, b, d));
  }

  lemma Halves(c: nat)
    ensures c / 0x1000 == c / 0x40 / 0x40 && c / 0x40000 == c / 0x40 / 0x40 / 0x40
  {
  }

  lemma ByteHeadReads(b: Bytes)
    requires b != [] && ByteHead(b).Good?
    ensures b[..ByteHead(b).size] == Bytes8(ByteHead(b).code) && !Control(ByteHead(b).code)
  {
    hide Two, Three, Four;
    if b[0] > 0x7F {
      if b[0] / 0x20 == 6 {
        TwoReads(b[0], b[1]);
      } else if b[0] / 0x10 == 14 {
        ThreeReads(b[0], b[1], b[2]);
      } else {
        FourReads(b[0], b[1], b[2], b[3]);
      }
    }
  }

  lemma TwoWrites(c: nat)
    requires 0x80 <= c <= 0x7FF
    ensures var lead, a := 0xC0 + c / 0x40, 0x80 + c % 0x40;
      lead / 0x20 == 6 && lead % 0x20 >= 2 && a / 0x40 == 2 && Two(lead, a) == c
  {
  }

  lemma ThreeWrites(c: nat)
    requires c <= 0xFFFF
    ensures var lead, a, b := 0xE0 + c / 0x1000, 0x80 + c / 0x40 % 0x40, 0x80 + c % 0x40;
      lead / 0x10 == 14 && a / 0x40 == 2 && b / 0x40 == 2 && Three(lead, a, b) == c
  {
    Halves(c);
  }

  lemma FourWrites(c: nat)
    requires c <= 0x10FFFF
    ensures var lead, a, b, d := 0xF0 + c / 0x40000, 0x80 + c / 0x1000 % 0x40, 0x80 + c / 0x40 % 0x40, 0x80 + c % 0x40;
      lead / 8 == 30 && lead % 8 <= 4 && a / 0x40 == 2 && b / 0x40 == 2 && d / 0x40 == 2 && Four(lead, a, b, d) == c
  {
    Halves(c);
  }

  lemma ByteHeadFinds(c: Scalar, rest: Bytes)
    requires !Control(c)
    ensures ByteHead(Bytes8(c) + rest) == Good(c, |Bytes8(c)|)
  {
    hide Two, Three, Four;
    if 0x7F < c <= 0x7FF { TwoWrites(c); }
    if 0x7FF < c <= 0xFFFF { ThreeWrites(c); }
    if 0xFFFF < c { FourWrites(c); }
  }

  // ---------------------------------------------------------------- reading a whole text

  function ReadWide(w: Units): (text: Option<seq<Scalar>>)
    decreases |w|
  {
    if w == [] then Some([])
    else
      var head := WideHead(w);
      if head.Bad? then None
      else
        var rest := ReadWide(w[head.size..]);
        if rest.None? then None else Some([head.code] + rest.value)
  }

  function ReadBytes(b: Bytes): (text: Option<seq<Scalar>>)
    decreases |b|
  {
    if b == [] then Some([])
    else
      var head := ByteHead(b);
      if head.Bad? then None
      else
        var rest := ReadBytes(b[head.size..]);
        if rest.None? then None else Some([head.code] + rest.value)
  }

  /** ReadWide inverts Utf16, and accepts nothing else. */
  lemma {:induction false} ReadWideInverts(text: seq<Scalar>)
    ensures ReadWide(Utf16(text)) == Some(text)
  {
    if text != [] {
      var first, rest := Units16(text[0]), Utf16(text[1..]);
      WideHeadFinds(text[0], rest);
      assert (first + rest)[|first|..] == rest;
      ReadWideInverts(text[1..]);
      assert [text[0]] + text[1..] == text;
    }
  }

  lemma {:induction false} ReadWideOnly(w: Units)
    requires ReadWide(w).Some?
    ensures Utf16(ReadWide(w).value) == w
    decreases |w|
  {
    hide Units16, WideHead;
    if w != [] {
      var head := WideHead(w);
      WideHeadReads(w);
      ReadWideOnly(w[head.size..]);
      assert w == w[..head.size] + w[head.size..];
      var text := ReadWide(w).value;
      assert text[1..] == ReadWide(w[head.size..]).value;
    }
  }

  lemma {:induction false} ReadBytesInverts(text: seq<Scalar>)
    requires Printable(text)
    ensures ReadBytes(Utf8(text)) == Some(text)
  {
    hide ByteHead, Bytes8;
    if text != [] {
      var first, rest := Bytes8(text[0]), Utf8(text[1..]);
      ByteHeadFinds(text[0], rest);
      SomeBytes(text[0]);
      assert (first + rest)[|first|..] == rest;
      ReadBytesInverts(text[1..]);
      assert [text[0]] + text[1..] == text;
    }
  }

  lemma SomeBytes(c: Scalar)
    ensures Bytes8(c) != []
  {
  }

  lemma {:induction false} ReadBytesOnly(b: Bytes)
    requires ReadBytes(b).Some?
    ensures Utf8(ReadBytes(b).value) == b && Printable(ReadBytes(b).value)
    decreases |b|
  {
    hide ByteHead, Bytes8;
    if b != [] {
      var head := ByteHead(b);
      ByteHeadReads(b);
      ReadBytesOnly(b[head.size..]);
      assert b == b[..head.size] + b[head.size..];
      var text := ReadBytes(b).value;
      assert text[1..] == ReadBytes(b[head.size..]).value;
    }
  }

  // ---------------------------------------------------------------- the converters

  /** What is left to read after `done`. */
  function After(done: seq<Scalar>, rest: Option<seq<Scalar>>): Option<seq<Scalar>> {
    if rest.None? then None else Some(done + rest.value)
  }

  lemma ReadOneWide(w: Units, index: nat, done: seq<Scalar>)
    requires index < |w|
    ensures var head := WideHead(w[index..]);
      After(done, ReadWide(w[index..])) ==
      if head.Bad? then None else After(done + [head.code], ReadWide(w[index + head.size..]))
  {
    hide WideHead;
    var head := WideHead(w[index..]);
    if head.Good? {
      assert w[index..][head.size..] == w[index + head.size..];
      var rest := ReadWide(w[index + head.size..]);
      if rest.Some? { assert done + ([head.code] + rest.value) == done + [head.code] + rest.value; }
    }
  }

  lemma ReadOneByte(b: Bytes, index: nat, done: seq<Scalar>)
    requires index < |b|
    ensures var head := ByteHead(b[index..]);
      After(done, ReadBytes(b[index..])) ==
      if head.Bad? then None else After(done + [head.code], ReadBytes(b[index + head.size..]))
  {
    hide ByteHead;
    var head := ByteHead(b[index..]);
    if head.Good? {
      assert b[index..][head.size..] == b[index + head.size..];
      var rest := ReadBytes(b[index + head.size..]);
      if rest.Some? { assert done + ([head.code] + rest.value) == done + [head.code] + rest.value; }
    }
  }

  /** wideToUtf8: succeeds exactly on well-formed UTF-16, with the UTF-8 of the same text. */
  method WideToUtf8(input: Units) returns (output: Option<Bytes>)
    ensures output == var text := ReadWide(input); if text.None? then None else Some(Utf8(text.value))
  {
    hide ReadWide, Utf8;
    var converted: Bytes := [];
    ghost var done: seq<Scalar> := [];
    var index := 0;
    assert Utf8([]) == [] by { NothingEncoded(); }
    StartReading(input);
    while index < |input|
      invariant index <= |input| && converted == Utf8(done)
      invariant ReadWide(input) == After(done, ReadWide(input[index..]))
      decreases |input| - index
    {
      ReadOneWide(input, index, done);
      var code: int := input[index];
      if 0xD800 <= code <= 0xDBFF {
        if index + 1 >= |input| { return None; }
        index := index + 1;
        var low := input[index];
        if low < 0xDC00 || low > 0xDFFF { return None; }
        code := 0x10000 + (code - 0xD800) * 0x400 + (low - 0xDC00);
      } else if 0xDC00 <= code <= 0xDFFF {
        return None;
      }
      Utf8Push(done, code);
      done := done + [code];
      if code <= 0x7F {
        converted := converted + [code];
      } else if code <= 0x7FF {
        converted := converted + [0xC0 + code / 0x40, 0x80 + code % 0x40];
      } else if code <= 0xFFFF {
        converted := converted + [0xE0 + code / 0x1000, 0x80 + code / 0x40 % 0x40, 0x80 + code % 0x40];
      } else {
        converted := converted +
          [0xF0 + code / 0x40000, 0x80 + code / 0x1000 % 0x40, 0x80 + code / 0x40 % 0x40, 0x80 + code % 0x40];
      }
      index := index + 1;
    }
    FinishReading(input, index);
    assert done + [] == done;
    output := Some(converted);
  }

  lemma NothingEncoded()
    ensures Utf8([]) == [] && Utf16([]) == []
  {
  }

  lemma StartReading(w: Units)
    ensures ReadWide(w) == After([], ReadWide(w[0..]))
  {
    assert w[0..] == w;
    if ReadWide(w).Some? { assert [] + ReadWide(w).value == ReadWide(w).value; }
  }

  lemma FinishReading(w: Units, index: nat)
    requires index == |w|
    ensures ReadWide(w[index..]) == Some([])
  {
  }

  /** The value carried by a lead byte's low bits and the first n continuation bytes. */
  function Carried(low: nat, b: Bytes, n: nat): nat
    requires n < |b|
  {
    if n == 0 then low else Carried(low, b, n - 1) * 0x40 + b[n] % 0x40
  }

  lemma CarriedAll(b: Bytes)
    requires b != []
    ensures |b| > 1 ==> Carried(b[0] % 0x20, b, 1) == Two(b[0], b[1])
    ensures |b| > 2 ==> Carried(b[0] % 0x10, b, 2) == Three(b[0], b[1], b[2])
    ensures |b| > 3 ==> Carried(b[0] % 8, b, 3) == Four(b[0], b[1], b[2], b[3])
  {
    if |b| > 2 { CarriedTwice(b[0] % 0x10, b); }
    if |b| > 3 { CarriedTwice(b[0] % 8, b); }
  }

  lemma CarriedTwice(low: nat, b: Bytes)
    requires |b| > 2
    ensures Carried(low, b, 2) == (low * 0x40 + b[1] % 0x40) * 0x40 + b[2] % 0x40
  {
    assert Carried(low, b, 1) == low * 0x40 + b[1] % 0x40;
  }

  /** How many continuation bytes follow a lead byte, or none of them acceptable. */
  method ReadLead(lead: U8) returns (count: Option<nat>, code: nat)
    ensures count == if lead <= 0x7F then (if lead < 0x20 || lead == 0x7F then None else Some(0))
                     else if lead / 0x20 == 6 then (if lead % 0x20 < 2 then None else Some(1))
                     else if lead / 0x10 == 14 then Some(2)
                     else if lead / 8 == 30 && lead % 8 <= 4 then Some(3)
                     else None
    ensures code == if lead <= 0x7F then lead as nat
                    else if lead / 0x20 == 6 then lead % 0x20
                    else if lead / 0x10 == 14 then lead % 0x10
                    else lead % 8
  {
    if lead <= 0x7F {
      count, code := if lead < 0x20 || lead == 0x7F then None else Some(0), lead;
    } else if lead / 0x20 == 6 {
      code := lead % 0x20;
      count := if code < 2 then None else Some(1);
    } else if lead / 0x10 == 14 {
      count, code := Some(2), lead % 0x10;
    } else if lead / 8 == 30 {
      code := lead % 8;
      count := if code > 4 then None else Some(3);
    } else {
      count, code := None, lead % 8;
    }
  }

  /** One code point, from its lead byte on; None where the source gives up. */
  method ReadScalar(b: Bytes) returns (code: Option<Scalar>, size: nat)
    requires b != []
    ensures code == var h := ByteHead(b); if h.Bad? then None else Some(h.code)
    ensures code.Some? ==> size == ByteHead(b).size
  {
    hide Two, Three, Four, Carried;
    var lead := b[0];
    var count, c := ReadLead(lead);
    size := 1;
    if count.None? { return None, size; }
    if 1 + count.value > |b| { return None, size; }
    ghost var low := c;
    CarriedNone(low, b);
    while size <= count.value
      invariant 1 <= size <= count.value + 1
      invariant forall k :: 1 <= k < size ==> IsContinuation(b[k])
      invariant c == Carried(low, b, size - 1)
    {
      if b[size] / 0x40 != 2 { return None, size; }
      CarryOne(low, b, size);
      c := c * 0x40 + b[size] % 0x40;
      size := size + 1;
    }
    CarriedAll(b);
    if count.value == 1 { TwoReads(b[0], b[1]); }
    if (count.value == 2 && c < 0x800) || (count.value == 3 && c < 0x10000) || c > 0x10FFFF || 0xD800 <= c <= 0xDFFF {
      return None, size;
    }
    code := Some(c);
  }

  lemma CarriedNone(low: nat, b: Bytes)
    requires b != []
    ensures Carried(low, b, 0) == low
  {
  }

  lemma CarryOne(low: nat, b: Bytes, n: nat)
    requires 0 < n < |b|
    ensures Carried(low, b, n) == Carried(low, b, n - 1) * 0x40 + b[n] % 0x40
  {
  }

  /** utf8ToWide: succeeds exactly on the UTF-8 of a text without controls, with its UTF-16. */
  method Utf8ToWide(input: Bytes) returns (output: Option<Units>)
    ensures output == var text := ReadBytes(input); if text.None? then None else Some(Utf16(text.value))
  {
    hide ReadBytes, Utf16, ByteHead;
    var converted: Units := [];
    ghost var done: seq<Scalar> := [];
    var index := 0;
    NothingEncoded();
    assert input[0..] == input;
    StartBytes(input);
    while index < |input|
      invariant index <= |input| && converted == Utf16(done)
      invariant ReadBytes(input) == After(done, ReadBytes(input[index..]))
      decreases |input| - index
    {
      ReadOneByte(input, index, done);
      var code, size := ReadScalar(input[index..]);
      if code.None? { return None; }
      index := index + size;
      Utf16Push(done, code.value);
      done := done + [code.value];
      var c: int := code.value;
      if c <= 0xFFFF {
        converted := converted + [c];
      } else {
        c := c - 0x10000;
        converted := converted + [0xD800 + c / 0x400];
        converted := converted + [0xDC00 + c % 0x400];
      }
    }
    FinishBytes(input, index);
    assert done + [] == done;
    output := Some(converted);
  }

  lemma StartBytes(b: Bytes)
    ensures ReadBytes(b) == After([], ReadBytes(b))
  {
    if ReadBytes(b).Some? { assert [] + ReadBytes(b).value == ReadBytes(b).value; }
  }

  lemma FinishBytes(b: Bytes, index: nat)
    requires index == |b|
    ensures ReadBytes(b[index..]) == Some([])
  {
  }

  // ---------------------------------------------------------------- the pair

  /** wideToUtf8 succeeds exactly on the UTF-16 of some text. */
  lemma WideAccepted(w: Units)
    ensures ReadWide(w).Some? <==> exists text :: Utf16(text) == w
  {
    if ReadWide(w).Some? { ReadWideOnly(w); }
    forall text | Utf16(text) == w ensures ReadWide(w).Some? { ReadWideInverts(text); }
  }

  /** utf8ToWide succeeds exactly on the UTF-8 of some text without controls: no overlong form, no surrogate. */
  lemma BytesAccepted(b: Bytes)
    ensures ReadBytes(b).Some? <==> exists text :: Printable(text) && Utf8(text) == b
  {
    if ReadBytes(b).Some? { ReadBytesOnly(b); }
    forall text | Printable(text) && Utf8(text) == b ensures ReadBytes(b).Some? { ReadBytesInverts(text); }
  }

  /** Wide text that the encoder accepts comes back, unless it holds a control: then decoding fails. */
  method WideRoundTrip(w: Units) returns (back: Option<Units>)
    requires ReadWide(w).Some?
    ensures Printable(ReadWide(w).value) ==> back == Some(w)
    ensures !Printable(ReadWide(w).value) ==> back == None
  {
    var b := WideToUtf8(w);
    back := Utf8ToWide(b.value);
    var text := ReadWide(w).value;
    ReadWideOnly(w);
    if Printable(text) { ReadBytesInverts(text); } else { ControlsRefused(text); }
  }

  lemma {:induction false} ControlsRefused(text: seq<Scalar>)
    requires !Printable(text)
    ensures ReadBytes(Utf8(text)) == None
  {
    hide ByteHead, Bytes8;
    if ReadBytes(Utf8(text)).Some? {
      ReadBytesOnly(Utf8(text));
      Utf8Injective(text, ReadBytes(Utf8(text)).value);
    }
  }

  /** Bytes that the decoder accepts come back. */
  method BytesRoundTrip(b: Bytes) returns (back: Option<Bytes>)
    requires ReadBytes(b).Some?
    ensures back == Some(b)
  {
    var w := Utf8ToWide(b);
    back := WideToUtf8(w.value);
    ReadBytesOnly(b);
    ReadWideInverts(ReadBytes(b).value);
  }

  lemma {:induction false} Utf8Injective(a: seq<Scalar>, b: seq<Scalar>)
    requires Utf8(a) == Utf8(b)
    ensures a == b
  {
    hide Bytes8;
    if a == [] || b == [] {
      if a != [] { SomeBytes(a[0]); }
      if b != [] { SomeBytes(b[0]); }
    } else {
      FirstCode(a[0], Utf8(a[1..]), b[0], Utf8(b[1..]));
      Utf8Injective(a[1..], b[1..]);
      assert a == [a[0]] + a[1..] && b == [b[0]] + b[1..];
    }
  }

  /** UTF-8 is a prefix code, controls included. */
  lemma FirstCode(c: Scalar, x: Bytes, d: Scalar, y: Bytes)
    requires Bytes8(c) + x == Bytes8(d) + y
    ensures c == d && x == y
  {
    hide Bytes8;
    PlainHeadFinds(c, x);
    PlainHeadFinds(d, y);
    assert (Bytes8(c) + x)[|Bytes8(c)|..] == x;
    assert (Bytes8(d) + y)[|Bytes8(d)|..] == y;
  }

  /** The head reader that lets controls through. */
  function PlainHead(b: Bytes): Head
    requires b != []
  {
    if b[0] <= 0x7F then Good(b[0], 1) else ByteHead(b)
  }

  lemma PlainHeadFinds(c: Scalar, rest: Bytes)
    ensures Bytes8(c) != [] && PlainHead(Bytes8(c) + rest) == Good(c, |Bytes8(c)|)
  {
    hide ByteHead;
    if c > 0x7F { ByteHeadFinds(c, rest); }
    assert (Bytes8(c) + rest)[0] == Bytes8(c)[0];
  }
}
