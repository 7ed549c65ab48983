/**
 The base64 text of a data value (section 4 of RFC 4648). The decoder keeps its bits in a
 32-bit buffer that it shifts and never masks, so the high bits wrap away.
 */
module Base64 {
  import opened Words

  const PADDING: Byte := 0x3d

  /** The letter of a six-bit value. */
  function Letter(v: nat): Byte
    requires v < 64
  {
    if v < 26 then 0x41 + v else if v < 52 then 0x61 + (v - 26) else if v < 62 then 0x30 + (v - 52)
    else if v == 62 then 0x2b else 0x2f
  }

  /** The six-bit value of a letter, or -1. */
  function Value(c: Byte): (v: int)
    ensures -1 <= v < 64
  {
    if 0x41 <= c <= 0x5a then c - 0x41
    else if 0x61 <= c <= 0x7a then c - 0x61 + 26
    else if 0x30 <= c <= 0x39 then c - 0x30 + 52
    else if c == 0x2b then 62 else if c == 0x2f then 63 else -1
  }

  predicate IsSpace(c: Byte) {
    9 <= c <= 13 || c == 32
  }

  /** The four letters of three bytes. */
  function Letters(triple: nat): (s: Bytes)
    requires triple < 0x100_0000
    ensures |s| == 4
  {
    [Letter(triple / 0x4_0000), Letter(triple / 0x1000 % 64), Letter(triple / 64 % 64), Letter(triple % 64)]
  }

  function Triple(a: Byte, b: Byte, c: Byte): (t: nat)
    ensures t < 0x100_0000
  {
    0x1_0000 * (a as int) + 256 * (b as int) + c
  }

  function Encode(data: Bytes): Bytes {
    if data == [] then []
    else if |data| == 1 then Letters(Triple(data[0], 0, 0))[..2] + [PADDING, PADDING]
    else if |data| == 2 then Letters(Triple(data[0], data[1], 0))[..3] + [PADDING]
    else Letters(Triple(data[0], data[1], data[2])) + Encode(data[3..])
  }

  /** The buffer after one more letter, in 32 bits. */
  function Shifted(buffer: Word32, v: nat): Word32 {
    (buffer * 64 + v) % TWO_TO_THE_32
  }

  function Weight(bits: nat): (w: nat)
    requires bits <= 12
    ensures w > 0
  {
    if bits == 0 then 1 else 2 * Weight(bits - 1)
  }

  /** What the rest of a text decodes to, from a buffer of which `bits` bits are unused. */
  function DecodeFrom(text: Bytes, buffer: Word32, bits: nat): Result<Bytes>
    requires bits < 8
  {
    if text == [] || text[0] == PADDING then Ok([])
    else if IsSpace(text[0]) then DecodeFrom(text[1..], buffer, bits)
    else if Value(text[0]) < 0 then Err(Protocol)
    else
      var next := Shifted(buffer, Value(text[0]));
      if bits + 6 < 8 then DecodeFrom(text[1..], next, bits + 6)
      else
        After([next / Weight(bits - 2) % 256], DecodeFrom(text[1..], next, bits - 2))
  }

  function After(done: Bytes, rest: Result<Bytes>): Result<Bytes> {
    if rest.Ok? then Ok(done + rest.value) else rest
  }

  function Decoded(text: Bytes): Result<Bytes> {
    DecodeFrom(text, 0, 0)
  }

  /** The text without its white space. */
  function Compact(text: Bytes): Bytes {
    if text == [] then [] else (if IsSpace(text[0]) then [] else [text[0]]) + Compact(text[1..])
  }

  // ---------------------------------------------------------------------------
  // The codec
  // ---------------------------------------------------------------------------

  method ToBase64(data: Bytes) returns (text: Bytes)
    ensures text == Encode(data)
  {
    hide Letters, Triple;
    text := [];
    var i := 0;
    assert data[0..] == data;
    while i + 3 <= |data|
      invariant 0 <= i <= |data|
      invariant text + Encode(data[i..]) == Encode(data)
    {
      assert data[i..][3..] == data[i + 3..];
      text := text + Letters(Triple(data[i], data[i + 1], data[i + 2]));
      i := i + 3;
    }
    if i + 1 == |data| {
      text := text + (Letters(Triple(data[i], 0, 0))[..2] + [PADDING, PADDING]);
    } else if i + 2 == |data| {
      text := text + (Letters(Triple(data[i], data[i + 1], 0))[..3] + [PADDING]);
    }
  }

  method FromBase64(text: Bytes) returns (data: Result<Bytes>)
    ensures data == Decoded(text)
  {
    hide Shifted, Weight, Value;
    var out: Bytes := [];
    var buffer: Word32 := 0;
    var bits := 0;
    assert text[0..] == text;
    AfterNothing(Decoded(text));
    var i := 0;
    while i < |text|
      invariant 0 <= i <= |text| && 0 <= bits < 8
      invariant Decoded(text) == After(out, DecodeFrom(text[i..], buffer, bits))
    {
      var c := text[i];
      if c == PADDING {
        assert out + [] == out;
        return Ok(out);
      }
      assert text[i..][1..] == text[i + 1..];
      if !IsSpace(c) {
        if Value(c) < 0 {
          return Err(Protocol);
        }
        buffer := Shifted(buffer, Value(c));
        bits := bits + 6;
        if bits >= 8 {
          bits := bits - 8;
          AfterAfter(out, [buffer / Weight(bits) % 256], DecodeFrom(text[i + 1..], buffer, bits));
          out := out + [buffer / Weight(bits) % 256];
        }
      }
      i := i + 1;
    }
    assert out + [] == out;
    data := Ok(out);
  }

  lemma AfterAfter(a: Bytes, b: Bytes, rest: Result<Bytes>)
    ensures After(a, After(b, rest)) == After(a + b, rest)
  {
    assert rest.Ok? ==> a + (b + rest.value) == a + b + rest.value;
  }

  lemma AfterNothing(rest: Result<Bytes>)
    ensures After([], rest) == rest
  {
    assert rest.Ok? ==> [] + rest.value == rest.value;
  }

  // ---------------------------------------------------------------------------
  // The round trip
  // ---------------------------------------------------------------------------

  lemma LetterBack(v: nat)
    requires v < 64
    ensures Value(Letter(v)) == v && !IsSpace(Letter(v)) && Letter(v) != PADDING
  {
  }

  lemma {:induction false} WhiteSpaceIsIgnored(text: Bytes, buffer: Word32, bits: nat)
    requires bits < 8
    ensures DecodeFrom(text, buffer, bits) == DecodeFrom(Compact(text), buffer, bits)
    decreases |text|
  {
    hide Shifted, Weight, Value;
    if text != [] && text[0] != PADDING {
      var rest := text[1..];
      if IsSpace(text[0]) {
        assert Compact(text) == Compact(rest);
        WhiteSpaceIsIgnored(rest, buffer, bits);
      } else {
        assert Compact(text)[1..] == Compact(rest);
        if Value(text[0]) >= 0 {
          WhiteSpaceIsIgnored(rest, Shifted(buffer, Value(text[0])), if bits + 6 < 8 then bits + 6 else bits - 2);
        }
      }
    }
  }

  /** Two buffers agree on the bits that are still to be used. */
  predicate Agree(a: Word32, b: Word32, bits: nat)
    requires bits <= 12
  {
    a % Weight(bits) == b % Weight(bits)
  }

  /**
   Only the low `bits` bits of the buffer matter, although its high bits are never masked
   and wrap: two buffers that agree on them decode every text to the same bytes.
   */
  lemma {:induction false} LowBitsMatter(text: Bytes, a: Word32, b: Word32, bits: nat)
    requires bits in {0, 2, 4, 6} && Agree(a, b, bits)
    ensures DecodeFrom(text, a, bits) == DecodeFrom(text, b, bits)
    decreases |text|
  {
    hide Shifted, Weight, Agree;
    if text != [] && text[0] != PADDING {
      if IsSpace(text[0]) {
        LowBitsMatter(text[1..], a, b, bits);
      } else if Value(text[0]) >= 0 {
        var v := Value(text[0]);
        ShiftAgrees(a, b, v, bits);
        LowBitsMatter(text[1..], Shifted(a, v), Shifted(b, v), if bits == 0 then 6 else bits - 2);
      }
    }
  }

  lemma Weights()
    ensures Weight(0) == 1 && Weight(2) == 4 && Weight(4) == 16 && Weight(6) == 64
    ensures Weight(8) == 256 && Weight(10) == 1024 && Weight(12) == 4096
  {
    assert Weight(3) == 8 && Weight(5) == 32;
    assert Weight(7) == 128 && Weight(9) == 512 && Weight(11) == 2048;
  }

  /** Shifting keeps agreement: the byte taken out and the bits left over are the same. */
  lemma ShiftAgrees(a: Word32, b: Word32, v: nat, bits: nat)
    requires bits in {0, 2, 4, 6} && v < 64 && Agree(a, b, bits)
    ensures if bits == 0 then Agree(Shifted(a, v), Shifted(b, v), 6)
            else Shifted(a, v) / Weight(bits - 2) % 256 == Shifted(b, v) / Weight(bits - 2) % 256
                 && Agree(Shifted(a, v), Shifted(b, v), bits - 2)
  {
    Weights();
    hide Weight;
    var w := Weight(bits);
    SameAfterShift(a, b, v, w);
    var x, y := Shifted(a, v), Shifted(b, v);
    if bits == 0 {
      SameBelow(x, y, 64, 64);
    } else {
      ByteOf(x, y, Weight(bits - 2));
    }
  }

  lemma SameAfterShift(a: Word32, b: Word32, v: nat, w: nat)
    requires w in {1, 4, 16, 64} && v < 64 && a % w == b % w
    ensures Shifted(a, v) % (64 * w) == Shifted(b, v) % (64 * w)
  {
    var c := 64 * w;
    assert TWO_TO_THE_32 % c == 0;
    LowOfWrapped(a * 64 + v, c);
    LowOfWrapped(b * 64 + v, c);
    ShiftedLow(a, v, w);
    ShiftedLow(b, v, w);
  }

  lemma LowOfWrapped(n: nat, c: nat)
    requires c in {64, 256, 1024, 4096}
    ensures n % TWO_TO_THE_32 % c == n % c
  {
    var q, r := n / TWO_TO_THE_32, n % TWO_TO_THE_32;
    var k := TWO_TO_THE_32 / c;
    assert TWO_TO_THE_32 == c * k;
    assert n == c * (q * k + r / c) + r % c;
    QuotientIs(n, c, q * k + r / c, r % c);
  }

  lemma ShiftedLow(a: nat, v: nat, w: nat)
    requires w in {1, 4, 16, 64} && v < 64
    ensures (a * 64 + v) % (64 * w) == a % w * 64 + v
  {
    QuotientIs(a * 64 + v, 64 * w, a / w, a % w * 64 + v);
  }

  lemma SameBelow(x: nat, y: nat, c: nat, d: nat)
    requires c == d > 0 && x % c == y % c
    ensures x % d == y % d
  {
  }

  lemma ByteOf(x: nat, y: nat, u: nat)
    requires u in {1, 4, 16} && x % (256 * u) == y % (256 * u)
    ensures x / u % 256 == y / u % 256 && x % u == y % u
  {
    TopByte(x, u);
    TopByte(y, u);
  }

  lemma TopByte(x: nat, u: nat)
    requires u in {1, 4, 16}
    ensures x / u % 256 == x % (256 * u) / u && x % u == x % (256 * u) % u
  {
    var q, r := x / (256 * u), x % (256 * u);
    assert r / u < 256;
    QuotientIs(x, u, 256 * q + r / u, r % u);
    QuotientIs(x / u, 256, q, r / u);
  }

  lemma ShiftedSmall(buffer: nat, v: nat)
    requires buffer < 0x100_0000 && v < 64
    ensures Shifted(buffer, v) == buffer * 64 + v
  {
  }

  /** One letter of the alphabet, from a buffer that is small enough not to wrap. */
  lemma TakeLetter(v: nat, rest: Bytes, buffer: nat, bits: nat)
    requires v < 64 && bits in {0, 2, 4, 6} && buffer < 0x100_0000
    ensures DecodeFrom([Letter(v)] + rest, buffer, bits) ==
            if bits == 0 then DecodeFrom(rest, buffer * 64 + v, 6)
            else After([(buffer * 64 + v) / Weight(bits - 2) % 256], DecodeFrom(rest, buffer * 64 + v, bits - 2))
  {
    hide Weight, Value, Letter, IsSpace, After, Shifted;
    LetterBack(v);
    ShiftedSmall(buffer, v);
    assert ([Letter(v)] + rest)[1..] == rest;
  }

  /** Four letters give three bytes and leave a buffer of which nothing matters. */
  lemma TakeTriple(a: Byte, b: Byte, c: Byte, rest: Bytes)
    ensures DecodeFrom(Letters(Triple(a, b, c)) + rest, 0, 0) == After([a, b, c], DecodeFrom(rest, 0, 0))
  {
    hide DecodeFrom, Letter, Agree, Weight, Letters, After, Triple;
    var t := Triple(a, b, c);
    var v0, v1, v2, v3 := t / 0x4_0000, t / 0x1000 % 64, t / 64 % 64, t % 64;
    LettersAre(t, rest);
    TakeLetter(v0, [Letter(v1)] + ([Letter(v2)] + ([Letter(v3)] + rest)), 0, 0);
    TakeLetter(v1, [Letter(v2)] + ([Letter(v3)] + rest), v0, 6);
    TakeLetter(v2, [Letter(v3)] + rest, v0 * 64 + v1, 4);
    TakeLetter(v3, rest, v0 * 4096 + v1 * 64 + v2, 2);
    TripleBytes(a, b, c);
    Weights();
    NothingLeft(rest, t);
    AfterAfter([b], [c], DecodeFrom(rest, 0, 0));
    AfterAfter([a], [b] + [c], DecodeFrom(rest, 0, 0));
    assert [a] + ([b] + [c]) == [a, b, c];
  }

  lemma LettersAre(t: nat, rest: Bytes)
    requires t < 0x100_0000
    ensures Letters(t) + rest ==
            [Letter(t / 0x4_0000)] + ([Letter(t / 0x1000 % 64)] + ([Letter(t / 64 % 64)] + ([Letter(t % 64)] + rest)))
    ensures Letters(t)[..2] == [Letter(t / 0x4_0000)] + [Letter(t / 0x1000 % 64)]
    ensures Letters(t)[..3] == [Letter(t / 0x4_0000)] + [Letter(t / 0x1000 % 64)] + [Letter(t / 64 % 64)]
  {
    hide Letter;
  }

  lemma NothingLeft(rest: Bytes, t: Word32)
    ensures DecodeFrom(rest, t, 0) == DecodeFrom(rest, 0, 0)
  {
    hide DecodeFrom;
    Weights();
    LowBitsMatter(rest, t, 0, 0);
  }

  lemma TripleBytes(a: Byte, b: Byte, c: Byte)
    ensures var t := Triple(a, b, c);
            var v0, v1, v2, v3 := t / 0x4_0000, t / 0x1000 % 64, t / 64 % 64, t % 64;
            && v0 * 64 + v1 == t / 0x1000 && v0 * 4096 + v1 * 64 + v2 == t / 64
            && (v0 * 4096 + v1 * 64 + v2) * 64 + v3 == t
            && t / 0x1000 / 16 % 256 == a && t / 64 / 4 % 256 == b && t % 256 == c
  {
    var t := Triple(a, b, c);
    var a2, b4, c6 := (a as int) % 4, (b as int) % 16, (c as int) % 64;
    QuotientIs(t, 0x4_0000, (a as int) / 4, 0x1_0000 * a2 + 256 * (b as int) + c);
    QuotientIs(t, 0x1000, 16 * (a as int) + (b as int) / 16, 256 * b4 + c);
    QuotientIs(t, 64, 1024 * (a as int) + 4 * (b as int) + (c as int) / 64, c6);
    QuotientIs(t / 0x1000, 64, (a as int) / 4, 16 * a2 + (b as int) / 16);
    QuotientIs(t / 64, 64, 16 * (a as int) + (b as int) / 16, 4 * b4 + (c as int) / 64);
    QuotientIs(t / 0x1000, 16, a as int, (b as int) / 16);
    QuotientIs(t / 64, 4, 256 * (a as int) + b, (c as int) / 64);
    QuotientIs(256 * (a as int) + b, 256, a as int, b as int);
    QuotientIs(t, 256, 256 * (a as int) + b, c as int);
  }

  /** Padding ends the text, whatever is left in the buffer. */
  lemma TakePadding(rest: Bytes, buffer: Word32, bits: nat)
    requires bits < 8
    ensures DecodeFrom([PADDING] + rest, buffer, bits) == Ok([])
  {
  }

  lemma AfterEnd(done: Bytes)
    ensures After(done, Ok([])) == Ok(done)
  {
    assert done + [] == done;
  }

  lemma OneLeftBack(a: Byte)
    ensures DecodeFrom(Letters(Triple(a, 0, 0))[..2] + [PADDING, PADDING], 0, 0) == Ok([a])
  {
    hide DecodeFrom, Letter, Weight, Letters, After, Triple;
    var t := Triple(a, 0, 0);
    var v0, v1 := t / 0x4_0000, t / 0x1000 % 64;
    LettersAre(t, []);
    assert Letters(t)[..2] + [PADDING, PADDING] == [Letter(v0)] + ([Letter(v1)] + ([PADDING] + [PADDING]));
    TakeLetter(v0, [Letter(v1)] + ([PADDING] + [PADDING]), 0, 0);
    TakeLetter(v1, [PADDING] + [PADDING], v0, 6);
    TakePadding([PADDING], v0 * 64 + v1, 4);
    AfterEnd([a]);
    TripleBytes(a, 0, 0);
    Weights();
  }

  lemma TwoLeftBack(a: Byte, b: Byte)
    ensures DecodeFrom(Letters(Triple(a, b, 0))[..3] + [PADDING], 0, 0) == Ok([a, b])
  {
    hide DecodeFrom, Letter, Weight, Letters, After, Triple;
    var t := Triple(a, b, 0);
    var v0, v1, v2 := t / 0x4_0000, t / 0x1000 % 64, t / 64 % 64;
    LettersAre(t, []);
    assert Letters(t)[..3] + [PADDING] == [Letter(v0)] + ([Letter(v1)] + ([Letter(v2)] + ([PADDING] + [])));
    TakeLetter(v0, [Letter(v1)] + ([Letter(v2)] + ([PADDING] + [])), 0, 0);
    TakeLetter(v1, [Letter(v2)] + ([PADDING] + []), v0, 6);
    TakeLetter(v2, [PADDING] + [], v0 * 64 + v1, 4);
    TakePadding([], v0 * 4096 + v1 * 64 + v2, 2);
    AfterEnd([b]);
    AfterEnd([a, b]);
    AfterAfter([a], [b], Ok([]));
    assert [a] + [b] == [a, b];
    TripleBytes(a, b, 0);
    Weights();
  }

  lemma {:induction false} EncodingBack(data: Bytes)
    ensures Decoded(Encode(data)) == Ok(data)
  {
    hide DecodeFrom, Letters, Triple;
    if data == [] {
      assert DecodeFrom([], 0, 0) == Ok([]) by {
        NothingDecodes();
      }
    } else if |data| == 1 {
      OneLeftBack(data[0]);
      assert [data[0]] == data;
    } else if |data| == 2 {
      TwoLeftBack(data[0], data[1]);
      assert [data[0], data[1]] == data;
    } else {
      EncodingBack(data[3..]);
      TakeTriple(data[0], data[1], data[2], Encode(data[3..]));
      assert [data[0], data[1], data[2]] + data[3..] == data;
    }
  }

  lemma NothingDecodes()
    ensures DecodeFrom([], 0, 0) == Ok([])
  {
  }

  /** Every byte string comes back from its text, with white space inserted anywhere. */
  lemma Base64RoundTrip(data: Bytes, text: Bytes)
    requires Compact(text) == Encode(data)
    ensures Decoded(text) == Ok(data)
  {
    hide DecodeFrom, Encode, Compact;
    WhiteSpaceIsIgnored(text, 0, 0);
    EncodingBack(data);
  }
}
