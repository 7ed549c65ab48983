/**
 Base64 by its alphabet and its bits: what every byte string is written as, and what every
 text, padded or not, is read as.
 */
module Base64Exactly {
  import opened Words
  import opened Base64

  const UPPER: Bytes := [0x41, 0x42, 0x43, 0x44, 0x45, 0x46, 0x47, 0x48, 0x49, 0x4a, 0x4b, 0x4c, 0x4d,
                         0x4e, 0x4f, 0x50, 0x51, 0x52, 0x53, 0x54, 0x55, 0x56, 0x57, 0x58, 0x59, 0x5a]
  const LOWER: Bytes := [0x61, 0x62, 0x63, 0x64, 0x65, 0x66, 0x67, 0x68, 0x69, 0x6a, 0x6b, 0x6c, 0x6d,
                         0x6e, 0x6f, 0x70, 0x71, 0x72, 0x73, 0x74, 0x75, 0x76, 0x77, 0x78, 0x79, 0x7a]
  const OTHERS: Bytes := [0x30, 0x31, 0x32, 0x33, 0x34, 0x35, 0x36, 0x37, 0x38, 0x39, 0x2b, 0x2f]

  /** The letters in the order of their values: A to Z, a to z, 0 to 9, + and /. */
  const ALPHABET: Bytes := UPPER + LOWER + OTHERS

  lemma Runs()
    ensures forall i :: 0 <= i < 26 ==> UPPER[i] == 0x41 + i
    ensures forall i :: 0 <= i < 26 ==> LOWER[i] == 0x61 + i
    ensures forall i :: 0 <= i < 12 ==> OTHERS[i] == if i < 10 then 0x30 + i else if i == 10 then 0x2b else 0x2f
  {
  }

  /** Each value has its letter, and a byte that is no letter has no value. */
  lemma LettersAre(v: nat, c: Byte)
    requires v < 64
    ensures |ALPHABET| == 64 && Letter(v) == ALPHABET[v] && Value(ALPHABET[v]) == v
    ensures Value(c) < 0 <==> c !in ALPHABET
    ensures IsSpace(c) <==> c in {0x20, 0x09, 0x0a, 0x0b, 0x0c, 0x0d}
  {
    Runs();
    if Value(c) >= 0 {
      assert ALPHABET[Value(c)] == c;
    }
  }

  // ---------------------------------------------------------------------------
  // What is written
  // ---------------------------------------------------------------------------

  /** Three bytes are four letters of six bits each; fewer are filled up with `=`. */
  function TextOf(data: Bytes): Bytes {
    var n := |data|;
    if n == 0 then []
    else if n == 1 then [Code(data[0] / 4), Code(data[0] % 4 * 16), 0x3d, 0x3d]
    else if n == 2 then
      [Code(data[0] / 4), Code(data[0] % 4 * 16 + data[1] / 16), Code(data[1] % 16 * 4), 0x3d]
    else
      [Code(data[0] / 4), Code(data[0] % 4 * 16 + data[1] / 16), Code(data[1] % 16 * 4 + data[2] / 64),
       Code(data[2] % 64)] + TextOf(data[3..])
  }

  function Code(v: nat): Byte {
    if v < 64 then ALPHABET[v] else 0
  }

  lemma {:induction false} EncodingIs(data: Bytes)
    ensures Encode(data) == TextOf(data)
  {
    hide Letter, Letters, Triple, Code;
    if |data| == 1 {
      TripleIs(data[0], 0, 0);
    } else if |data| == 2 {
      TripleIs(data[0], data[1], 0);
    } else if |data| > 2 {
      TripleIs(data[0], data[1], data[2]);
      EncodingIs(data[3..]);
    }
  }

  lemma TripleIs(a: Byte, b: Byte, c: Byte)
    ensures Letters(Triple(a, b, c)) ==
            [Code(a / 4), Code(a % 4 * 16 + b / 16), Code(b % 16 * 4 + c / 64), Code(c % 64)]
  {
    hide Letter, Code;
    Sextets(a, b, c);
    CodeIs(a / 4);
    CodeIs(a % 4 * 16 + b / 16);
    CodeIs(b % 16 * 4 + c / 64);
    CodeIs(c % 64);
  }

  lemma CodeIs(v: nat)
    requires v < 64
    ensures Letter(v) == Code(v)
  {
    hide Letter;
    LettersAre(v, 0);
  }

  lemma Sextets(a: Byte, b: Byte, c: Byte)
    ensures var t := Triple(a, b, c);
            && t / 0x4_0000 == a / 4 < 64 && t / 0x1000 % 64 == a % 4 * 16 + b / 16 < 64
            && t / 64 % 64 == b % 16 * 4 + c / 64 < 64 && t % 64 == c % 64
  {
    TripleBytes(a, b, c);
    var t := Triple(a, b, c);
    var a2, b4, c6 := (a as int) % 4, (b as int) % 16, (c as int) % 64;
    QuotientIs(t, 0x4_0000, (a as int) / 4, 0x1_0000 * a2 + 256 * (b as int) + c);
    QuotientIs(t, 0x1000, 16 * (a as int) + (b as int) / 16, 256 * b4 + c);
    QuotientIs(t, 64, 1024 * (a as int) + 4 * (b as int) + (c as int) / 64, c6);
    QuotientIs(t / 0x1000, 64, (a as int) / 4, 16 * a2 + (b as int) / 16);
    QuotientIs(t / 64, 64, 16 * (a as int) + (b as int) / 16, 4 * b4 + (c as int) / 64);
  }

  // ---------------------------------------------------------------------------
  // What is read
  // ---------------------------------------------------------------------------

  /** The values of the letters up to the first `=`, white space left out; none if another byte is among them. */
  function Values(text: Bytes): (r: Option<seq<nat>>)
    ensures r.Some? ==> forall i :: 0 <= i < |r.value| ==> r.value[i] < 64
  {
    if text == [] || text[0] == 0x3d then Some([])
    else if text[0] in {0x20, 0x09, 0x0a, 0x0b, 0x0c, 0x0d} then Values(text[1..])
    else if text[0] !in ALPHABET then None
    else
      LettersAre(0, text[0]);
      var rest := Values(text[1..]);
      if rest.None? then None else Some([Value(text[0])] + rest.value)
  }

  /** Four values are three bytes; of three, two or one the bits that fill no byte are dropped. */
  function Octets(v: seq<nat>): Bytes {
    if |v| < 2 then []
    else if |v| == 2 then [(v[0] * 4 + v[1] / 16) % 256]
    else if |v| == 3 then [(v[0] * 4 + v[1] / 16) % 256, (v[1] % 16 * 16 + v[2] / 4) % 256]
    else
      [(v[0] * 4 + v[1] / 16) % 256, (v[1] % 16 * 16 + v[2] / 4) % 256, (v[2] % 4 * 64 + v[3]) % 256] + Octets(v[4..])
  }

  /** The bytes of values that follow the `bits` bits in `left`. */
  function From(v: seq<nat>, left: nat, bits: nat): Bytes
    requires bits in {0, 2, 4, 6}
  {
    if v == [] then []
    else if bits == 0 then From(v[1..], v[0], 6)
    else
      var unit := if bits == 6 then 16 else if bits == 4 then 4 else 1;
      [(left * 64 + v[0]) / unit % 256] + From(v[1..], (left * 64 + v[0]) % unit, bits - 2)
  }

  lemma {:induction false} FourAtATime(v: seq<nat>)
    requires forall i :: 0 <= i < |v| ==> v[i] < 64
    ensures From(v, 0, 0) == Octets(v)
    decreases |v|, 1
  {
    hide From;
    if |v| == 0 {
      NoValues(0, 0);
    } else if |v| == 1 {
      FromOne(v[0]);
      assert v == [v[0]];
    } else {
      FromPair(v[0], v[1], v[2..]);
      assert v == [v[0], v[1]] + v[2..];
      if |v| == 2 {
        NoValues(v[1] % 16, 4);
        assert v[2..] == [];
      } else {
        FromThird(v[1] % 16, v[2], v[3..]);
        assert v[2..] == [v[2]] + v[3..];
        FromRest(v);
      }
    }
  }

  lemma {:induction false} FromRest(v: seq<nat>)
    requires |v| >= 3 && (forall i :: 0 <= i < |v| ==> v[i] < 64)
    requires From(v, 0, 0) ==
             [(v[0] * 4 + v[1] / 16) % 256] + ([(v[1] % 16 * 16 + v[2] / 4) % 256] + From(v[3..], v[2] % 4, 2))
    ensures From(v, 0, 0) == Octets(v)
    decreases |v|, 0
  {
    hide From;
    if |v| == 3 {
      NoValues(v[2] % 4, 2);
      assert v[3..] == [];
    } else {
      FromFourth(v[2] % 4, v[3], v[4..]);
      assert v[3..] == [v[3]] + v[4..];
      FourAtATime(v[4..]);
    }
  }

  lemma FromOne(a: nat)
    ensures From([a], 0, 0) == []
  {
    assert [a][1..] == [];
  }

  lemma FromPair(a: nat, b: nat, rest: seq<nat>)
    requires a < 64 && b < 64
    ensures From([a, b] + rest, 0, 0) == [(a * 4 + b / 16) % 256] + From(rest, b % 16, 4)
  {
    var v := [a, b] + rest;
    assert v[1..] == [b] + rest && ([b] + rest)[1..] == rest;
    QuotientIs(a * 64 + b, 16, a * 4 + b / 16, b % 16);
    assert From(v, 0, 0) == From([b] + rest, a, 6);
  }

  lemma FromThird(left: nat, c: nat, rest: seq<nat>)
    requires left < 16 && c < 64
    ensures From([c] + rest, left, 4) == [(left * 16 + c / 4) % 256] + From(rest, c % 4, 2)
  {
    assert ([c] + rest)[1..] == rest;
    QuotientIs(left * 64 + c, 4, left * 16 + c / 4, c % 4);
  }

  lemma FromFourth(left: nat, d: nat, rest: seq<nat>)
    requires left < 4 && d < 64
    ensures From([d] + rest, left, 2) == [(left * 64 + d) % 256] + From(rest, 0, 0)
  {
    assert ([d] + rest)[1..] == rest;
  }

  /** The outcome of reading: `None` is a protocol error. */
  function Outcome(values: Option<seq<nat>>, left: nat, bits: nat): Result<Bytes>
    requires bits in {0, 2, 4, 6}
  {
    if values.None? then Err(Protocol) else Ok(From(values.value, left, bits))
  }

  lemma {:induction false} ReadsFrom(text: Bytes, left: nat, bits: nat)
    requires bits in {0, 2, 4, 6} && left < Weight(bits)
    ensures DecodeFrom(text, left, bits) == Outcome(Values(text), left, bits)
    decreases |text|
  {
    hide Shifted, Value, From, Weight;
    Weights();
    if text == [] || text[0] == 0x3d {
      NoValues(left, bits);
    } else {
      LettersAre(0, text[0]);
      if text[0] in {0x20, 0x09, 0x0a, 0x0b, 0x0c, 0x0d} {
        ReadsFrom(text[1..], left, bits);
      } else if text[0] in ALPHABET {
        LetterReads(text, left, bits);
      }
    }
  }

  lemma NoValues(left: nat, bits: nat)
    requires bits in {0, 2, 4, 6}
    ensures From([], left, bits) == []
  {
  }

  lemma {:induction false} LetterReads(text: Bytes, left: nat, bits: nat)
    requires bits in {0, 2, 4, 6} && left < Weight(bits)
    requires text != [] && text[0] != 0x3d && text[0] in ALPHABET && !IsSpace(text[0]) && Value(text[0]) >= 0
    requires Values(text) == if Values(text[1..]).None? then None else Some([Value(text[0])] + Values(text[1..]).value)
    ensures DecodeFrom(text, left, bits) == Outcome(Values(text), left, bits)
    decreases |text|, 0
  {
    hide Value, Values, From, Weight, IsSpace;
    Weights();
    var v, rest := Value(text[0]), text[1..];
    var next := left * 64 + v;
    ShiftedSmall(left, v);
    var more := if bits == 0 then 6 else bits - 2;
    var kept := if bits == 0 then v else next % Weight(bits - 2);
    Kept(rest, next, kept, more);
    ReadsFrom(rest, kept, more);
    if Values(rest).Some? {
      FromStep(v, Values(rest).value, left, bits);
    }
  }

  lemma Kept(rest: Bytes, next: Word32, kept: Word32, bits: nat)
    requires bits in {0, 2, 4, 6} && (kept == next % Weight(bits) || kept == next)
    ensures DecodeFrom(rest, next, bits) == DecodeFrom(rest, kept, bits)
  {
    hide DecodeFrom;
    Weights();
    LowBitsMatter(rest, next, kept, bits);
  }

  lemma FromStep(v: nat, rest: seq<nat>, left: nat, bits: nat)
    requires bits in {0, 2, 4, 6}
    ensures From([v] + rest, left, bits) ==
            if bits == 0 then From(rest, v, 6)
            else [(left * 64 + v) / Weight(bits - 2) % 256] + From(rest, (left * 64 + v) % Weight(bits - 2), bits - 2)
  {
    Weights();
    assert ([v] + rest)[1..] == rest;
  }

  /** The decoder by the bits of its letters, whatever the padding and wherever the white space. */
  lemma DecodesExactly(text: Bytes)
    ensures Decoded(text) == if Values(text).None? then Err(Protocol) else Ok(Octets(Values(text).value))
  {
    hide DecodeFrom, Values, From, Octets, Weight;
    Weights();
    ReadsFrom(text, 0, 0);
    if Values(text).Some? {
      FourAtATime(Values(text).value);
    }
  }
}
