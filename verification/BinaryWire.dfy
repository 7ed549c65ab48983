/**
 The bytes of a binary plist, written out: which object every byte string is, which bytes
 every object is written as, and where the header, the offsets and the trailer stand.
 Nothing here names a marker, so the writer and the reader are held to the format itself
 and not only to each other.
 */
module BinaryWire {
  import opened Words
  import opened Dictionaries
  import opened Plists
  import opened BinaryFormat
  import opened BinaryTable
  import opened BinaryWriter
  import opened BinaryReader
  import opened BinaryDecoder
  import opened BinaryRoundTrip

  /** The big-endian number in `n` bytes from `i` on, as a 64-bit word. */
  function Big(s: Bytes, i: nat, n: nat): nat
    requires i + n <= |s|
  {
    FromBigEndian(s[i..i + n]) % 0x1_0000_0000_0000_0000
  }

  function PowerOfTwo(e: nat): nat {
    if e == 0 then 1 else 2 * PowerOfTwo(e - 1)
  }

  // ---------------------------------------------------------------------------
  // What a byte string shows
  // ---------------------------------------------------------------------------

  /** The count of a run or container is in its first byte, or in an integer object after it. */
  predicate Counts(s: Bytes) {
    s != [] && (s[0] % 16 == 15 ==> |s| >= 2 && |s| >= 2 + PowerOfTwo(s[1] % 16))
  }

  function CountIn(s: Bytes): nat
    requires Counts(s)
  {
    if s[0] % 16 < 15 then s[0] % 16 else Big(s, 2, PowerOfTwo(s[1] % 16))
  }

  /** Where the bytes or references start. */
  function BodyIn(s: Bytes): (i: nat)
    requires Counts(s)
    ensures i <= |s|
  {
    if s[0] % 16 < 15 then 1 else 2 + PowerOfTwo(s[1] % 16)
  }

  /** The number of the `n` bytes after the first, in two's complement when they are fewer than 8. */
  function SignedField(s: Bytes, n: nat): int
    requires 1 + n <= |s|
  {
    var raw := Big(s, 1, n);
    if n == 1 then (if raw < 0x80 then raw else raw - 0x100)
    else if n == 2 then (if raw < 0x8000 then raw else raw - 0x1_0000)
    else if n == 4 then (if raw < 0x8000_0000 then raw else raw - 0x1_0000_0000)
    else if raw < 0x8000_0000_0000_0000 then raw else raw - 0x1_0000_0000_0000_0000
  }

  /** A field of as many bytes as the low half of the first byte says is there. */
  predicate Sized(s: Bytes) {
    s != [] && 1 + PowerOfTwo(s[0] % 16) <= |s|
  }

  /** `s` starts with an object that holds no reference and has the value `v`. */
  predicate ShowsLeaf(s: Bytes, v: Plist, doubles: Doubles) {
    s != [] &&
    match v
    case Null => s[0] < 0x10 && s[0] != 0x08 && s[0] != 0x09
    case Boolean(flag) => s[0] == if flag then 0x09 else 0x08
    case Integer(n) => 0x10 <= s[0] <= 0x1f && Sized(s) && n == SignedField(s, PowerOfTwo(s[0] % 16))
    case Real(bits) =>
      && 0x20 <= s[0] <= 0x2f && Sized(s)
      && (if s[0] == 0x23 then |s| >= 9 && bits == Big(s, 1, 8)
          else if s[0] == 0x22 then |s| >= 5 && bits == doubles.widen(Big(s, 1, 4) % 0x1_0000_0000)
          else bits == 0)
    case Date(seconds) => 0x30 <= s[0] <= 0x3f && |s| >= 9 && seconds == doubles.toSeconds(Big(s, 1, 8))
    case Data(data) =>
      0x40 <= s[0] <= 0x4f && Counts(s) && CountIn(s) == |data| && ShowsRun(s[BodyIn(s)..], data)
    case String(text) =>
      || (0x50 <= s[0] <= 0x5f && Counts(s) && CountIn(s) == |text| && ShowsRun(s[BodyIn(s)..], text))
      || (0x60 <= s[0] <= 0x6f && Counts(s) && CountIn(s) == |text| && ShowsPairs(s[BodyIn(s)..], text))
    case Uid(index) => 0x80 <= s[0] <= 0x8f && Sized(s) && index == Big(s, 1, PowerOfTwo(s[0] % 16))
    case Array(_) => false
    case Dictionary(_) => false
  }

  predicate ShowsRun(s: Bytes, run: Bytes) {
    |run| <= |s| && s[..|run|] == run
  }

  /** The second byte of every pair. */
  predicate ShowsPairs(s: Bytes, text: Bytes) {
    2 * |text| <= |s| && forall i :: 0 <= i < |text| ==> s[2 * i + 1] == text[i]
  }

  /** References of `size` bytes each, one after the other. */
  predicate ShowsRefs(s: Bytes, refs: seq<nat>, size: nat) {
    if refs == [] then true
    else size <= |s| && refs[0] == Big(s, 0, size) && ShowsRefs(s[size..], refs[1..], size)
  }

  /** `s` starts with an object of this shape. */
  predicate Shows(s: Bytes, shape: Shape, refSize: nat, doubles: Doubles) {
    match shape
    case Leaf(v) => ShowsLeaf(s, v, doubles)
    case ArrayOf(refs) =>
      s != [] && 0xa0 <= s[0] <= 0xaf && Counts(s) && CountIn(s) == |refs| && ShowsRefs(s[BodyIn(s)..], refs, refSize)
    case DictionaryOf(keys, values) =>
      && s != [] && 0xd0 <= s[0] <= 0xdf && Counts(s) && CountIn(s) == |keys| == |values|
      && ShowsRefs(s[BodyIn(s)..], keys + values, refSize)
  }

  lemma {:induction false} SameWidth(e: nat)
    ensures Width(e) == PowerOfTwo(e) > 0
  {
    if e > 0 {
      SameWidth(e - 1);
    }
  }

  lemma Powers()
    ensures PowerOfTwo(0) == 1 && PowerOfTwo(1) == 2 && PowerOfTwo(2) == 4 && PowerOfTwo(3) == 8
  {
    assert PowerOfTwo(2) == 2 * PowerOfTwo(1);
  }

  lemma {:induction false} PowersApart(e: nat)
    ensures e > 3 ==> PowerOfTwo(e) > 8
    ensures PowerOfTwo(e) == 8 ==> e == 3
    ensures PowerOfTwo(e) == 4 ==> e == 2
    ensures PowerOfTwo(e) < 8 ==> PowerOfTwo(e) in {1, 2, 4}
  {
    Powers();
    if e > 4 {
      PowersApart(e - 1);
    }
  }

  lemma FieldIs(s: Bytes, n: nat)
    requires s != [] && 1 + n <= |s|
    ensures Field(s[1..], n) == Big(s, 1, n)
  {
    assert s[1..][..n] == s[1..1 + n];
  }

  lemma FieldBound(s: Bytes, n: nat)
    requires s != [] && 1 + n <= |s|
    ensures n < 8 ==> Big(s, 1, n) < Pow256(n)
  {
    FromBigEndianBound(s[1..1 + n]);
    Pow256Values();
    if n < 8 {
      Pow256Monotone(n, 8);
    }
  }

  lemma SignedIs(s: Bytes, e: nat)
    requires s != [] && 1 + PowerOfTwo(e) <= |s|
    ensures SignExtend(Field(s[1..], PowerOfTwo(e)), PowerOfTwo(e)) == SignedField(s, PowerOfTwo(e))
  {
    hide Big, Field;
    var n := PowerOfTwo(e);
    FieldIs(s, n);
    FieldBound(s, n);
    PowersApart(e);
    Pow256Values();
  }

  lemma Halves(b: Byte)
    ensures b / 16 * 16 + b % 16 == b && b % 16 < 16
  {
  }

  lemma FixedExactly(s: Bytes, v: Plist, doubles: Doubles)
    requires s != [] && s[0] / 16 * 16 in {0x10, 0x20, 0x80}
    ensures ReadFixed(s[0] / 16 * 16, s[1..], Width(s[0] % 16), doubles) == Ok(v) <==> ShowsLeaf(s, v, doubles)
  {
    hide Field, Big, SignExtend, SignedField, Width, PowerOfTwo, Counts, ShowsRun, ShowsPairs;
    var e := s[0] % 16;
    Halves(s[0]);
    SameWidth(e);
    PowersApart(e);
    Powers();
    if 1 + PowerOfTwo(e) <= |s| {
      FieldIs(s, PowerOfTwo(e));
      SignedIs(s, e);
    }
  }

  lemma DateExactly(s: Bytes, v: Plist, doubles: Doubles)
    requires s != [] && s[0] / 16 * 16 == 0x30
    ensures ReadFixed(0x30, s[1..], 8, doubles) == Ok(v) <==> ShowsLeaf(s, v, doubles)
  {
    hide Field, Big, SignExtend, SignedField, PowerOfTwo, Counts, ShowsRun, ShowsPairs;
    if |s| >= 9 {
      FieldIs(s, 8);
    }
  }

  lemma CountExactly(s: Bytes)
    requires s != []
    ensures HasCount(s[1..], s[0] % 16) <==> Counts(s)
    ensures Counts(s) ==> CountOf(s[1..], s[0] % 16) == CountIn(s) && AfterCount(s[1..], s[0] % 16) == s[BodyIn(s)..]
  {
    hide Width, PowerOfTwo;
    if s[0] % 16 == 15 && |s| >= 2 {
      var n := PowerOfTwo(s[1] % 16);
      SameWidth(s[1] % 16);
      if 2 + n <= |s| {
        assert s[1..][1..][..n] == s[2..2 + n];
        assert s[1..][1 + n..] == s[2 + n..];
      }
    }
  }

  lemma {:induction false} LowBytesAre(s: Bytes, count: nat)
    requires 2 * count <= |s|
    ensures |LowBytes(s[..2 * count])| == count && ShowsPairs(s, LowBytes(s[..2 * count]))
  {
    if count > 0 {
      LowBytesAre(s[2..], count - 1);
      assert s[..2 * count][2..] == s[2..][..2 * (count - 1)];
      assert forall i :: 0 <= i < count - 1 ==> s[2..][2 * i + 1] == s[2 * (i + 1) + 1];
      var low := LowBytes(s[2..][..2 * (count - 1)]);
      assert forall i :: 0 < i < count ==> ([s[1]] + low)[i] == low[i - 1] == s[2..][2 * (i - 1) + 1];
    }
  }

  lemma PairsDetermine(s: Bytes, a: Bytes, b: Bytes)
    requires ShowsPairs(s, a) && ShowsPairs(s, b) && |a| == |b|
    ensures a == b
  {
    assert forall i :: 0 <= i < |a| ==> a[i] == s[2 * i + 1] == b[i];
  }

  lemma RunExactly(s: Bytes, v: Plist, doubles: Doubles)
    requires s != [] && s[0] / 16 * 16 in {0x40, 0x50, 0x60} && Counts(s)
    ensures ReadRun(s[0] / 16 * 16, s[BodyIn(s)..], CountIn(s)) == Ok(v) <==> ShowsLeaf(s, v, doubles)
  {
    hide Counts, CountIn, BodyIn, Big, SignedField, PowerOfTwo, ShowsPairs, LowBytes;
    var count, body := CountIn(s), s[BodyIn(s)..];
    Halves(s[0]);
    if s[0] / 16 * 16 == 0x60 {
      TooFewPairs(body, v);
      if 2 * count <= |body| {
        LowBytesAre(body, count);
        if v.String? && |v.text| == count && ShowsPairs(body, v.text) {
          PairsDetermine(body, v.text, LowBytes(body[..2 * count]));
        }
      }
    }
  }

  lemma TooFewPairs(s: Bytes, v: Plist)
    ensures v.String? && ShowsPairs(s, v.text) ==> 2 * |v.text| <= |s|
  {
  }

  lemma {:induction false} RefsShown(s: Bytes, refs: seq<nat>, count: nat, size: nat)
    requires size > 0
    ensures Refs(s, count, size) == refs && |refs| == count <==> ShowsRefs(s, refs, size) && |refs| == count
    decreases count
  {
    if count > 0 && |s| >= size && refs != [] {
      assert s[..size] == s[0..size];
      RefsShown(s[size..], refs[1..], count - 1, size);
      assert refs == [refs[0]] + refs[1..];
    }
  }

  lemma {:induction false} ShownLength(s: Bytes, refs: seq<nat>, size: nat)
    requires ShowsRefs(s, refs, size)
    ensures |refs| * size <= |s|
  {
    if refs != [] {
      ShownLength(s[size..], refs[1..], size);
      assert |refs| * size == (|refs| - 1) * size + size;
    }
  }

  lemma ArrayExactly(s: Bytes, shape: Shape, refSize: nat, doubles: Doubles)
    requires s != [] && 0xa0 <= s[0] <= 0xaf && Counts(s) && refSize > 0
    ensures ReadArray(s[BodyIn(s)..], CountIn(s), refSize) == Ok(shape) <==> Shows(s, shape, refSize, doubles)
  {
    hide Refs, ShowsRefs, Counts, CountIn, BodyIn, Big, SignedField, PowerOfTwo;
    var body, count := s[BodyIn(s)..], CountIn(s);
    RefsShown(body, Refs(body, count, refSize), count, refSize);
    if shape.ArrayOf? && |shape.refs| == count && ShowsRefs(body, shape.refs, refSize) {
      RefsShown(body, shape.refs, count, refSize);
      ShownLength(body, shape.refs, refSize);
      GuardAccepts(count, |body|, refSize);
    }
  }

  lemma {:induction false} RefsApart(s: Bytes, keys: seq<nat>, values: seq<nat>, size: nat)
    requires size > 0
    ensures ShowsRefs(s, keys + values, size) <==>
            ShowsRefs(s, keys, size) && ShowsRefs(AfterRefs(s, |keys|, size), values, size)
    decreases |keys|
  {
    if keys == [] {
      assert keys + values == values;
    } else if size <= |s| {
      assert (keys + values)[1..] == keys[1..] + values;
      RefsApart(s[size..], keys[1..], values, size);
    }
  }

  lemma DictionaryExactly(s: Bytes, shape: Shape, refSize: nat, doubles: Doubles)
    requires s != [] && 0xd0 <= s[0] <= 0xdf && Counts(s) && refSize > 0
    ensures ReadDictionary(s[BodyIn(s)..], CountIn(s), refSize) == Ok(shape) <==> Shows(s, shape, refSize, doubles)
  {
    hide Refs, AfterRefs, ShowsRefs, Counts, CountIn, BodyIn, Big, SignedField, PowerOfTwo;
    var body, count := s[BodyIn(s)..], CountIn(s);
    var rest := AfterRefs(body, count, refSize);
    var keys, values := Refs(body, count, refSize), Refs(rest, count, refSize);
    RefsShown(body, keys, count, refSize);
    RefsShown(rest, values, count, refSize);
    if |keys| == |values| == count {
      RefsApart(body, keys, values, refSize);
    }
    if shape.DictionaryOf? && |shape.keys| == |shape.values| == count {
      RefsApart(body, shape.keys, shape.values, refSize);
      RefsShown(body, shape.keys, count, refSize);
      RefsShown(rest, shape.values, count, refSize);
      if ShowsRefs(body, shape.keys + shape.values, refSize) {
        ShownLength(body, shape.keys + shape.values, refSize);
        assert 2 * count * refSize == count * (2 * refSize);
        GuardAccepts(count, |body|, 2 * refSize);
      }
    }
  }

  /** What the reader makes of any bytes, malformed ones included: the object that they show, or nothing. */
  lemma ShapeExactly(s: Bytes, shape: Shape, refSize: nat, doubles: Doubles)
    requires refSize > 0
    ensures ReadShape(s, refSize, doubles) == Ok(shape) <==> Shows(s, shape, refSize, doubles)
  {
    hide ReadFixed, ReadRun, ReadArray, ReadDictionary, Counts, CountIn, BodyIn, HasCount, CountOf, AfterCount, Sized,
         SignedField, Big, PowerOfTwo, Width, ShowsRun, ShowsPairs, ShowsRefs;
    if s != [] {
      Halves(s[0]);
      CountExactly(s);
      if s[0] / 16 * 16 in {0x10, 0x20, 0x80} && shape.Leaf? {
        FixedExactly(s, shape.value, doubles);
      } else if s[0] / 16 * 16 == 0x30 && shape.Leaf? {
        DateExactly(s, shape.value, doubles);
      } else if s[0] / 16 * 16 in {0x40, 0x50, 0x60} && shape.Leaf? && Counts(s) {
        RunExactly(s, shape.value, doubles);
      } else if s[0] / 16 * 16 == 0xa0 && Counts(s) {
        ArrayExactly(s, shape, refSize, doubles);
      } else if s[0] / 16 * 16 == 0xd0 && Counts(s) {
        DictionaryExactly(s, shape, refSize, doubles);
      }
    }
  }

  // ---------------------------------------------------------------------------
  // What an object is written as
  // ---------------------------------------------------------------------------

  /** An integer in the least unsigned width, or the least signed one when it is negative. */
  function IntegerBytes(n: Int64): Bytes {
    if 0 <= n <= 0xff then [0x10, n]
    else if 0 <= n <= 0xffff then [0x11] + BigEndian(n, 2)
    else if 0 <= n <= 0xffff_ffff then [0x12] + BigEndian(n, 4)
    else if 0 <= n then [0x13] + BigEndian(n, 8)
    else if -0x80 <= n then [0x10, n + 0x100]
    else if -0x8000 <= n then [0x11] + BigEndian(n + 0x1_0000, 2)
    else if -0x8000_0000 <= n then [0x12] + BigEndian(n + 0x1_0000_0000, 4)
    else [0x13] + BigEndian(n + 0x1_0000_0000_0000_0000, 8)
  }

  /** A count below 15 in the first byte, any other after it. */
  function HeadBytes(first: Byte, count: nat): Bytes
    requires first % 16 == 0 && count < 0x8000_0000_0000_0000
  {
    if count < 15 then [first + count] else [first + 15] + IntegerBytes(count)
  }

  function UidBytes(index: Word64): Bytes {
    if index <= 0xff then [0x80, index]
    else if index <= 0xffff then [0x81] + BigEndian(index, 2)
    else if index <= 0xffff_ffff then [0x82] + BigEndian(index, 4)
    else [0x83] + BigEndian(index, 8)
  }

  function LeafBytes(v: Plist, doubles: Doubles): Bytes
    requires !v.Container() && Size(v) < 0x8000_0000_0000_0000
  {
    match v
    case Null => [0x00]
    case Boolean(flag) => [if flag then 0x09 else 0x08]
    case Integer(n) => IntegerBytes(n)
    case Real(bits) => [0x23] + BigEndian(bits, 8)
    case Date(seconds) => [0x33] + BigEndian(doubles.fromSeconds(seconds), 8)
    case Data(data) => HeadBytes(0x40, |data|) + data
    case String(text) => HeadBytes(0x50, |text|) + text
    case Uid(index) => UidBytes(index)
  }

  function RefBytes(refs: seq<nat>, size: nat): Bytes {
    if refs == [] then [] else BigEndian(refs[0], size) + RefBytes(refs[1..], size)
  }

  /** A container is its references: of an array its elements, of a dictionary all keys and then all values. */
  function ShapeBytes(shape: Shape, refSize: nat, doubles: Doubles): Bytes
    requires shape.Valid() && shape.Count() < 0x8000_0000_0000_0000
  {
    match shape
    case Leaf(v) => LeafBytes(v, doubles)
    case ArrayOf(refs) => HeadBytes(0xa0, |refs|) + RefBytes(refs, refSize)
    case DictionaryOf(keys, values) => HeadBytes(0xd0, |keys|) + RefBytes(keys + values, refSize)
  }

  lemma OneByte(n: nat)
    requires n < 256
    ensures BigEndian(n, 1) == [n]
  {
    assert BigEndian(n / 256, 0) == [];
  }

  lemma IntegerWritten(n: Int64)
    ensures EncodeInt(n) == IntegerBytes(n)
  {
    hide BigEndian, Pow256, Width;
    Widths();
    if 0 <= n <= 0xff {
      OneByte(n);
    } else if -128 <= n < 0 {
      OneByte(n + 0x100);
    }
  }

  lemma HeadWritten(first: Byte, count: nat)
    requires first % 16 == 0 && count < 0x8000_0000_0000_0000
    ensures EncodeCount(first, count) == HeadBytes(first, count)
  {
    hide EncodeInt, IntegerBytes;
    if count >= 15 {
      IntegerWritten(count);
    }
  }

  lemma UidWritten(index: Word64)
    ensures EncodeWidth(0x80, Exponent(index), index) == UidBytes(index)
  {
    hide BigEndian, Width;
    Widths();
    if index <= 0xff {
      OneByte(index);
    }
  }

  lemma LeafWritten(v: Plist, doubles: Doubles)
    requires !v.Container() && Size(v) < 0x8000_0000_0000_0000
    ensures EncodeLeaf(v, doubles) == LeafBytes(v, doubles)
  {
    hide BigEndian, Width, EncodeInt, IntegerBytes, EncodeCount, HeadBytes, UidBytes, Exponent;
    Widths();
    match v
    case Integer(n) => IntegerWritten(n);
    case Data(data) => HeadWritten(0x40, |data|);
    case String(text) => HeadWritten(0x50, |text|);
    case Uid(index) => UidWritten(index);
    case _ =>
  }

  lemma {:induction false} RefsWritten(refs: seq<nat>, more: seq<nat>, size: nat)
    ensures EncodeRefs(refs, size) + RefBytes(more, size) == RefBytes(refs + more, size)
  {
    hide BigEndian;
    if refs == [] {
      assert refs + more == more;
    } else {
      assert (refs + more)[1..] == refs[1..] + more;
      RefsWritten(refs[1..], more, size);
    }
  }

  lemma SameRefs(refs: seq<nat>, size: nat)
    ensures EncodeRefs(refs, size) == RefBytes(refs, size)
  {
    RefsWritten(refs, [], size);
    assert refs + [] == refs && RefBytes([], size) == [];
  }

  /** Every object is written as exactly these bytes. */
  lemma ShapeWritten(shape: Shape, refSize: nat, doubles: Doubles)
    requires shape.Valid() && shape.Count() < 0x8000_0000_0000_0000
    ensures EncodeShape(shape, refSize, doubles) == ShapeBytes(shape, refSize, doubles)
  {
    hide EncodeLeaf, LeafBytes, EncodeCount, HeadBytes, EncodeRefs, RefBytes;
    match shape
    case Leaf(v) => LeafWritten(v, doubles);
    case ArrayOf(refs) =>
      HeadWritten(0xa0, |refs|);
      SameRefs(refs, refSize);
    case DictionaryOf(keys, values) =>
      HeadWritten(0xd0, |keys|);
      SameRefs(values, refSize);
      RefsWritten(keys, values, refSize);
  }

  // ---------------------------------------------------------------------------
  // The header, the offsets and the trailer
  // ---------------------------------------------------------------------------

  /**
   The file starts with `bplist00`. Its last 32 bytes are 6 that mean nothing, the size of an
   offset, the size of a reference, and in 8 bytes each the number of objects, the top object
   and where the offsets start.
   */
  ghost predicate Framed(bytes: Bytes, f: File, top: nat) {
    var n := |bytes|;
    && n >= 40 && bytes[..8] == [0x62, 0x70, 0x6c, 0x69, 0x73, 0x74, 0x30, 0x30]
    && f.bytes == bytes && bytes[n - 26] > 0 && f.refSize == bytes[n - 25] as nat > 0
    && |f.offsets| == Big(bytes, n - 24, 8) > 0
    && top == Big(bytes, n - 16, 8)
    && (var at := Big(bytes, n - 8, 8); at <= n && ShowsRefs(bytes[at..], f.offsets, bytes[n - 26]))
  }

  lemma TrailerAt(bytes: Bytes, i: nat)
    requires |bytes| >= 40 && i <= 24
    ensures Field(bytes[|bytes| - 32..][i..], 8) == Big(bytes, |bytes| - 32 + i, 8)
  {
    assert bytes[|bytes| - 32..][i..][..8] == bytes[|bytes| - 32 + i..|bytes| - 32 + i + 8];
  }

  lemma OffsetsExactly(body: Bytes, offsets: seq<nat>, count: nat, size: nat)
    requires size > 0
    ensures count <= |body| / size && Refs(body, count, size) == offsets <==>
            |offsets| == count && ShowsRefs(body, offsets, size)
  {
    hide Refs, ShowsRefs;
    RefsShown(body, offsets, count, size);
    if count <= |body| / size {
      GuardBoundsProduct(count, |body|, size);
      GuardedRefsAreWhole(body, count, size);
    } else if |offsets| == count && ShowsRefs(body, offsets, size) {
      ShownLength(body, offsets, size);
      GuardAccepts(count, |body|, size);
    }
  }

  /** A file is taken apart if and only if it is framed so, and into those parts. */
  lemma LocateExactly(bytes: Bytes, f: File, top: nat, doubles: Doubles)
    ensures Locate(bytes, doubles) == Ok((f, top)) <==> Framed(bytes, f, top) && f.doubles == doubles
  {
    hide Field, Refs, ShowsRefs, Big;
    if |bytes| >= 40 {
      var n := |bytes|;
      var trailer := bytes[n - 32..];
      TrailerAt(bytes, 8);
      TrailerAt(bytes, 16);
      TrailerAt(bytes, 24);
      assert trailer[6] == bytes[n - 26] && trailer[7] == bytes[n - 25];
      var count, at, size := Big(bytes, n - 24, 8), Big(bytes, n - 8, 8), bytes[n - 26];
      if at <= n && size > 0 {
        OffsetsExactly(bytes[at..], f.offsets, count, size);
      }
    }
  }

  /** What any file means: its top object, unfolded, if it is framed and its objects show what they must. */
  lemma ParsesExactly(bytes: Bytes, value: Plist, doubles: Doubles)
    ensures Parsed(bytes, doubles) == Ok(value) <==>
            exists f: File, top: nat ::
              f.refSize > 0 && f.doubles == doubles && Framed(bytes, f, top) && Unfolds(f, top, value)
  {
    hide Locate, Unfold, Framed;
    if Parsed(bytes, doubles) == Ok(value) {
      var (f, top) := Locate(bytes, doubles).value;
      LocateExactly(bytes, f, top, doubles);
      UnfoldsWithinTable(f, top, value);
    }
    if f: File, top: nat :| f.refSize > 0 && f.doubles == doubles && Framed(bytes, f, top) && Unfolds(f, top, value) {
      LocateExactly(bytes, f, top, doubles);
      UnfoldsWithinTable(f, top, value);
    }
  }

  // ---------------------------------------------------------------------------
  // Whole files
  // ---------------------------------------------------------------------------

  predicate StandsAt(f: File, index: nat, body: Bytes) {
    index < |f.offsets| && f.offsets[index] < |f.bytes| && body <= f.bytes[f.offsets[index]..]
  }

  /** Object `index` of a file and all below it are written as the bytes of `value`. */
  ghost predicate Written(f: File, index: nat, value: Plist)
    decreases value
  {
    match value
    case Array(items) =>
      exists refs: seq<nat> :: WrittenArray(f, index, items, refs)
    case Dictionary(entries) =>
      exists keys: seq<nat>, refs: seq<nat> :: WrittenDictionary(f, index, entries, keys, refs)
    case _ => Size(value) < 0x8000_0000_0000_0000 && StandsAt(f, index, LeafBytes(value, f.doubles))
  }

  ghost predicate WrittenArray(f: File, index: nat, items: seq<Plist>, refs: seq<nat>)
    decreases items
  {
    && |refs| == |items| < 0x8000_0000_0000_0000
    && StandsAt(f, index, HeadBytes(0xa0, |refs|) + RefBytes(refs, f.refSize))
    && forall i :: 0 <= i < |items| ==> Written(f, refs[i], items[i])
  }

  ghost predicate WrittenDictionary(f: File, index: nat, entries: seq<Entry<Plist>>, keys: seq<nat>, refs: seq<nat>)
    decreases entries
  {
    && |keys| == |refs| == |entries| < 0x8000_0000_0000_0000
    && StandsAt(f, index, HeadBytes(0xd0, |keys|) + RefBytes(keys + refs, f.refSize))
    && (forall i :: 0 <= i < |entries| ==>
          |entries[i].key| < 0x8000_0000_0000_0000 &&
          StandsAt(f, keys[i], HeadBytes(0x50, |entries[i].key|) + entries[i].key))
    && forall i :: 0 <= i < |entries| ==> Written(f, refs[i], entries[i].value)
  }

  /** Every object of the table stands in the file where the offset table says. */
  ghost predicate Stands(f: File, t: Table) {
    && LinkedFrom(t, 0) && Dense(t) && |f.offsets| == |t.objects| && |f.bytes| < TWO_TO_THE_63 && f.refSize > 0
    && forall k | 0 <= k < |t.objects| ::
         StandsAt(f, k, EncodeShape(ShapeOf(t.objects[k], t), f.refSize, f.doubles))
  }

  lemma ImageStands(f: File, t: Table)
    requires LinkedFrom(t, 0) && Dense(t) && |f.bytes| < TWO_TO_THE_63 && f.refSize > 0
    requires f.offsets == Offsets(t, |t.objects|, f.refSize, f.doubles)
    requires HEADER + Bodies(t, |t.objects|, f.refSize, f.doubles) <= f.bytes
    ensures Stands(f, t)
  {
    hide EncodeShape, ShapeOf, Linked, Bodies, Dense;
    forall k | 0 <= k < |t.objects|
      ensures StandsAt(f, k, EncodeShape(ShapeOf(t.objects[k], t), f.refSize, f.doubles))
    {
      var rest := ObjectAtOffset(f.bytes, t, k, f.refSize, f.doubles);
    }
  }

  /** The object of slot `k` in its literal bytes; no file holds more of anything than it has bytes. */
  lemma StandsLiterally(f: File, t: Table, k: nat)
    requires Stands(f, t) && k < |t.objects|
    ensures var shape := ShapeOf(t.objects[k], t);
            shape.Count() < 0x8000_0000_0000_0000 && StandsAt(f, k, ShapeBytes(shape, f.refSize, f.doubles))
  {
    hide ShapeOf, EncodeShape, ShapeBytes, Dense;
    var shape := ShapeOf(t.objects[k], t);
    assert StandsAt(f, k, EncodeShape(shape, f.refSize, f.doubles));
    ObjectNotEmpty(shape, f.refSize, f.doubles);
    ShapeWritten(shape, f.refSize, f.doubles);
  }

  lemma KeyStands(f: File, t: Table, key: Bytes)
    requires Stands(f, t) && key in t.keySlots
    ensures |key| < 0x8000_0000_0000_0000 && StandsAt(f, t.keySlots[key], HeadBytes(0x50, |key|) + key)
  {
    hide EncodeShape, HeadBytes;
    StandsLiterally(f, t, t.keySlots[key]);
    assert ShapeOf(t.objects[t.keySlots[key]], t) == Leaf(String(key));
  }

  lemma {:induction false} PlacedIsWritten(f: File, t: Table, value: Plist, at: Address)
    requires Stands(f, t) && Placed(value, at, t)
    ensures Written(f, t.slots[at], value)
    decreases value
  {
    hide Dense, EncodeShape, LeafBytes, HeadBytes, RefBytes, StandsAt, Stands;
    var k := t.slots[at];
    var o := t.objects[k];
    StandsLiterally(f, t, k);
    PlacedIsLinked(f, t, k);
    if value.Container() {
      var refs := ElementRefs(o, t);
      forall i | 0 <= i < Arity(value)
        ensures Written(f, refs[i], Element(value, i))
      {
        assert Placed(Element(value, i), Child(at, i), t);
        PlacedIsWritten(f, t, Element(value, i), Child(at, i));
      }
      if value.Array? {
        ArrayIsWritten(f, k, value, refs);
      } else {
        var keys := KeyRefs(value.entries, t);
        forall i | 0 <= i < |keys|
          ensures |value.entries[i].key| < 0x8000_0000_0000_0000
          ensures StandsAt(f, keys[i], HeadBytes(0x50, |value.entries[i].key|) + value.entries[i].key)
        {
          KeyStands(f, t, value.entries[i].key);
        }
        DictionaryIsWritten(f, k, value, keys, refs);
      }
    }
  }

  lemma PlacedIsLinked(f: File, t: Table, k: nat)
    requires Stands(f, t) && k < |t.objects|
    ensures LinkedFrom(t, 0) && Linked(t.objects[k], t)
  {
  }

  lemma ArrayIsWritten(f: File, k: nat, value: Plist, refs: seq<nat>)
    requires value.Array? && |refs| == |value.items| < 0x8000_0000_0000_0000
    requires StandsAt(f, k, HeadBytes(0xa0, |refs|) + RefBytes(refs, f.refSize))
    requires forall i | 0 <= i < Arity(value) :: Written(f, refs[i], Element(value, i))
    ensures Written(f, k, value)
  {
    hide StandsAt, HeadBytes, RefBytes;
    assert forall i | 0 <= i < |value.items| :: value.items[i] == Element(value, i);
    assert WrittenArray(f, k, value.items, refs);
  }

  lemma DictionaryIsWritten(f: File, k: nat, value: Plist, keys: seq<nat>, refs: seq<nat>)
    requires value.Dictionary? && |keys| == |refs| == |value.entries| < 0x8000_0000_0000_0000
    requires StandsAt(f, k, HeadBytes(0xd0, |keys|) + RefBytes(keys + refs, f.refSize))
    requires forall i | 0 <= i < |keys| ::
               |value.entries[i].key| < 0x8000_0000_0000_0000 &&
               StandsAt(f, keys[i], HeadBytes(0x50, |value.entries[i].key|) + value.entries[i].key)
    requires forall i | 0 <= i < Arity(value) :: Written(f, refs[i], Element(value, i))
    ensures Written(f, k, value)
  {
    hide StandsAt, HeadBytes, RefBytes;
    assert forall i | 0 <= i < |value.entries| :: value.entries[i].value == Element(value, i);
    assert WrittenDictionary(f, k, value.entries, keys, refs);
  }

  /** Every file that is written is framed as the format says, and its top object is the tree in its literal bytes. */
  lemma ImageIsWritten(value: Plist, doubles: Doubles) returns (f: File, top: nat)
    requires |BinaryImage(value, doubles)| < TWO_TO_THE_63
    ensures f.doubles == doubles && Framed(BinaryImage(value, doubles), f, top) && Written(f, top, value)
  {
    hide Image, Locate, Flatten, LinkedFrom, Dense, Placed, Bodies, Stands, Framed, Written;
    var t := Flatten(value, ROOT, EMPTY);
    TableOf(value);
    RootPlaced(value, t);
    f := ImageLayout(t, doubles);
    top := t.slots[ROOT];
    LocateExactly(f.bytes, f, top, doubles);
    ImageStands(f, t);
    PlacedIsWritten(f, t, value, ROOT);
  }

  // ---------------------------------------------------------------------------
  // Reading any file that pictures a tree
  // ---------------------------------------------------------------------------

  predicate ShownAt(f: File, index: nat, shape: Shape) {
    && index < |f.offsets| && f.offsets[index] < |f.bytes|
    && Shows(f.bytes[f.offsets[index]..], shape, f.refSize, f.doubles)
  }

  /** Object `index` of a file and all below it show `value`, whoever wrote them and whatever they share. */
  ghost predicate Pictured(f: File, index: nat, value: Plist)
    decreases value
  {
    match value
    case Array(items) =>
      exists refs: seq<nat> :: PicturedArray(f, index, items, refs)
    case Dictionary(entries) =>
      exists keys: seq<nat>, refs: seq<nat> :: PicturedDictionary(f, index, entries, keys, refs)
    case _ => ShownAt(f, index, Leaf(value))
  }

  ghost predicate PicturedArray(f: File, index: nat, items: seq<Plist>, refs: seq<nat>)
    decreases items
  {
    && |refs| == |items| && ShownAt(f, index, ArrayOf(refs))
    && forall i :: 0 <= i < |items| ==> Pictured(f, refs[i], items[i])
  }

  ghost predicate PicturedDictionary(f: File, index: nat, entries: seq<Entry<Plist>>, keys: seq<nat>, refs: seq<nat>)
    decreases entries
  {
    && |keys| == |refs| == |entries| && ShownAt(f, index, DictionaryOf(keys, refs))
    && (forall i :: 0 <= i < |entries| ==> ShownAt(f, keys[i], Leaf(String(entries[i].key))))
    && forall i :: 0 <= i < |entries| ==> Pictured(f, refs[i], entries[i].value)
  }

  lemma ShownIsShape(f: File, index: nat, shape: Shape)
    requires f.refSize > 0 && ShownAt(f, index, shape)
    ensures ShapeAt(f, index) == Ok(shape)
  {
    hide ReadShape, Shows;
    ShapeExactly(f.bytes[f.offsets[index]..], shape, f.refSize, f.doubles);
  }

  lemma {:induction false} PicturedUnfolds(f: File, index: nat, value: Plist)
    requires f.refSize > 0 && Pictured(f, index, value) && value.WellFormed()
    ensures Unfolds(f, index, value)
    decreases value, 1
  {
    hide ShownAt, ShapeAt, Unfolds, FirstUnfoldTo, PairsUnfoldTo, Less;
    match value
    case Array(items) =>
      var refs: seq<nat> :| PicturedArray(f, index, items, refs);
      ShownIsShape(f, index, ArrayOf(refs));
      ItemsUnfold(f, index, items, refs, |items|);
      assert items[..|items|] == items;
      ArrayUnfolds(f, index, refs, items);
    case Dictionary(entries) =>
      var keys: seq<nat>, refs: seq<nat> :| PicturedDictionary(f, index, entries, keys, refs);
      ShownIsShape(f, index, DictionaryOf(keys, refs));
      PairsUnfoldInOrder(f, index, entries, keys, refs, |entries|);
      assert entries[..|entries|] == entries;
      DictionaryUnfolds(f, index, keys, refs, entries);
    case _ =>
      ShownIsShape(f, index, Leaf(value));
      LeafUnfolds(f, index, value);
  }

  lemma {:induction false} ItemsUnfold(f: File, index: nat, items: seq<Plist>, refs: seq<nat>, count: nat)
    requires f.refSize > 0 && PicturedArray(f, index, items, refs) && count <= |items|
    requires forall i | 0 <= i < |items| :: items[i].WellFormed()
    ensures FirstUnfoldTo(f, refs, count, items[..count])
    decreases items, 0, count
  {
    hide ShownAt, Unfolds, FirstUnfoldTo, PairsUnfoldTo, Pictured;
    if count == 0 {
      NoElementsYet(f, [], refs);
    } else {
      ItemsUnfold(f, index, items, refs, count - 1);
      PicturedUnfolds(f, refs[count - 1], items[count - 1]);
      FirstExtends(f, refs, count - 1, items[..count - 1], items[count - 1]);
      assert items[..count] == items[..count - 1] + [items[count - 1]];
    }
  }

  lemma {:induction false} PairsUnfoldInOrder(f: File, index: nat, entries: seq<Entry<Plist>>, keys: seq<nat>,
                                              refs: seq<nat>, count: nat)
    requires f.refSize > 0 && PicturedDictionary(f, index, entries, keys, refs) && count <= |entries|
    requires Sorted(entries) && forall i | 0 <= i < |entries| :: entries[i].value.WellFormed()
    ensures PairsUnfoldTo(f, keys, refs, count, entries[..count])
    decreases entries, 0, count
  {
    hide ShownAt, ShapeAt, Unfolds, FirstUnfoldTo, PairsUnfoldTo, Pictured, Emplace, Less;
    if count == 0 {
      NoElementsYet(f, keys, refs);
    } else {
      var last := entries[count - 1];
      PairsUnfoldInOrder(f, index, entries, keys, refs, count - 1);
      PicturedUnfolds(f, refs[count - 1], last.value);
      ShownIsShape(f, keys[count - 1], Leaf(String(last.key)));
      LeafUnfolds(f, keys[count - 1], String(last.key));
      PairsExtend(f, keys, refs, count - 1, entries[..count - 1], String(last.key), last.value);
      EmplaceAppends(entries[..count - 1], last.key, last.value);
      assert entries[..count] == entries[..count - 1] + [last];
    }
  }

  /** A framed file whose top object pictures a tree is read as that tree. */
  lemma PictureIsRead(bytes: Bytes, f: File, top: nat, value: Plist)
    requires Framed(bytes, f, top) && Pictured(f, top, value) && value.WellFormed()
    ensures Parsed(bytes, f.doubles) == Ok(value)
  {
    hide Locate, Unfold, Pictured, Plist.WellFormed, ShowsRefs, Big;
    LocateExactly(bytes, f, top, f.doubles);
    PicturedUnfolds(f, top, value);
    UnfoldsWithinTable(f, top, value);
  }

  lemma {:induction false} ZerosFirst(n: nat, b: Byte)
    ensures FromBigEndian(seq(n, _ => 0) + [b]) == b
  {
    var s: Bytes := seq(n, _ => 0) + [b];
    if n == 0 {
      assert s == [b] && s[..0] == [];
    } else {
      ZerosFirst(n - 1, 0);
      assert s[..n] == seq(n - 1, _ => 0) + [0];
    }
  }

  /** A trailer of one-byte offsets and references, for fewer than 256 objects and bytes. */
  function SmallTrailer(count: Byte, at: Byte): Bytes {
    [0, 0, 0, 0, 0, 0, 1, 1] + EightBytes(count) + EightBytes(0) + EightBytes(at)
  }

  function EightBytes(b: Byte): (s: Bytes)
    ensures |s| == 8
  {
    [0, 0, 0, 0, 0, 0, 0, b]
  }

  lemma SmallWord(s: Bytes, i: nat, b: Byte)
    requires i + 8 <= |s| && s[i..i + 8] == EightBytes(b)
    ensures Big(s, i, 8) == b
  {
    ZerosFirst(7, b);
    assert seq(7, _ => 0) + [b] == [0, 0, 0, 0, 0, 0, 0, b];
  }

  lemma {:induction false} ByteRefs(s: Bytes, refs: Bytes)
    requires refs <= s
    ensures ShowsRefs(s, refs, 1)
  {
    if refs != [] {
      assert s[0..1] == [refs[0]];
      ZerosFirst(0, refs[0]);
      assert seq(0, _ => 0) + [refs[0]] == [refs[0]];
      assert refs[1..] <= s[1..];
      ByteRefs(s[1..], refs[1..]);
    }
  }

  lemma SmallTrailerFields(before: Bytes, count: Byte, at: Byte)
    ensures var s := before + SmallTrailer(count, at);
            var n := |s|;
            && n == |before| + 32 && s[n - 26] == s[n - 25] == 1
            && Big(s, n - 24, 8) == count && Big(s, n - 16, 8) == 0 && Big(s, n - 8, 8) == at
  {
    hide Big, EightBytes;
    var s := before + SmallTrailer(count, at);
    var n := |s|;
    assert s[n - 24..n - 16] == EightBytes(count);
    assert s[n - 16..n - 8] == EightBytes(0);
    assert s[n - 8..n] == EightBytes(at);
    SmallWord(s, n - 24, count);
    SmallWord(s, n - 16, 0);
    SmallWord(s, n - 8, at);
  }

  /** A small file of objects one after the other is framed. */
  lemma SmallFile(body: Bytes, offsets: Bytes, doubles: Doubles)
    requires 0 < |offsets| < 256 && 8 + |body| < 256
    ensures var bytes := [0x62, 0x70, 0x6c, 0x69, 0x73, 0x74, 0x30, 0x30] + body + offsets +
                         SmallTrailer(|offsets|, 8 + |body|);
            Framed(bytes, File(bytes, offsets, 1, doubles), 0)
  {
    hide Big, ShowsRefs, SmallTrailer;
    var at := 8 + |body|;
    var before := [0x62, 0x70, 0x6c, 0x69, 0x73, 0x74, 0x30, 0x30] + body + offsets;
    var bytes := before + SmallTrailer(|offsets|, at);
    SmallTrailerFields(before, |offsets|, at);
    assert bytes[..8] == before[..8] == [0x62, 0x70, 0x6c, 0x69, 0x73, 0x74, 0x30, 0x30];
    assert bytes[at..] == offsets + SmallTrailer(|offsets|, at);
    ByteRefs(bytes[at..], offsets);
  }

  /** The file of `true`: its object is the byte 09. */
  lemma TrueIsRead(doubles: Doubles)
    ensures Parsed([0x62, 0x70, 0x6c, 0x69, 0x73, 0x74, 0x30, 0x30, 0x09, 0x08] + SmallTrailer(1, 9), doubles) ==
            Ok(Boolean(true))
  {
    hide Parsed, Framed;
    SmallFile([0x09], [0x08], doubles);
    var bytes := [0x62, 0x70, 0x6c, 0x69, 0x73, 0x74, 0x30, 0x30] + [0x09] + [0x08] + SmallTrailer(1, 9);
    assert bytes == [0x62, 0x70, 0x6c, 0x69, 0x73, 0x74, 0x30, 0x30, 0x09, 0x08] + SmallTrailer(1, 9);
    PictureIsRead(bytes, File(bytes, [0x08], 1, doubles), 0, Boolean(true));
  }

  lemma PairShown(rest: Bytes, doubles: Doubles)
    ensures Shows([0xd1, 0x01, 0x02] + rest, DictionaryOf([1], [2]), 1, doubles)
  {
    hide ShowsRefs;
    var s := [0xd1, 0x01, 0x02] + rest;
    assert s[1..] == [0x01, 0x02] + rest;
    ByteRefs(s[1..], [0x01, 0x02]);
    assert [1] + [2] == [1, 2];
  }

  lemma LetterShown(rest: Bytes, doubles: Doubles)
    ensures Shows([0x51, 0x61] + rest, Leaf(String([0x61])), 1, doubles)
  {
    var s := [0x51, 0x61] + rest;
    assert s[1..][..1] == [0x61];
  }

  lemma Behind(head: Bytes, body: Bytes, offsets: Bytes, trailer: Bytes, k: nat)
    requires k <= |body|
    ensures (head + body + offsets + trailer)[|head| + k..] == body[k..] + (offsets + trailer)
  {
  }

  /** The file of a dictionary whose key `a` has the value true: the reference of the key stands first. */
  lemma DictionaryIsRead(doubles: Doubles)
    ensures Parsed([0x62, 0x70, 0x6c, 0x69, 0x73, 0x74, 0x30, 0x30] + [0xd1, 0x01, 0x02, 0x51, 0x61, 0x09] +
                   [0x08, 0x0b, 0x0d] + SmallTrailer(3, 14), doubles) ==
            Ok(Dictionary([Entry([0x61], Boolean(true))]))
  {
    hide Parsed, Framed, Shows, SmallTrailer;
    var body, offsets := [0xd1, 0x01, 0x02, 0x51, 0x61, 0x09], [0x08, 0x0b, 0x0d];
    SmallFile(body, offsets, doubles);
    var rest := offsets + SmallTrailer(3, 14);
    var head := [0x62, 0x70, 0x6c, 0x69, 0x73, 0x74, 0x30, 0x30];
    var bytes := head + body + offsets + SmallTrailer(3, 14);
    var f := File(bytes, offsets, 1, doubles);
    Behind(head, body, offsets, SmallTrailer(3, 14), 0);
    Behind(head, body, offsets, SmallTrailer(3, 14), 3);
    Behind(head, body, offsets, SmallTrailer(3, 14), 5);
    assert body[0..] + rest == [0xd1, 0x01, 0x02] + (body[3..] + rest);
    PairShown(body[3..] + rest, doubles);
    assert body[3..] + rest == [0x51, 0x61] + (body[5..] + rest);
    LetterShown(body[5..] + rest, doubles);
    assert body[5..] == [0x09];
    TrueShown(rest, doubles);
    OneEntryPictured(f);
    PictureIsRead(bytes, f, 0, Dictionary([Entry([0x61], Boolean(true))]));
  }

  lemma TrueShown(rest: Bytes, doubles: Doubles)
    ensures Shows([0x09] + rest, Leaf(Boolean(true)), 1, doubles)
  {
  }

  lemma OneEntryPictured(f: File)
    requires ShownAt(f, 0, DictionaryOf([1], [2])) && ShownAt(f, 1, Leaf(String([0x61])))
    requires ShownAt(f, 2, Leaf(Boolean(true)))
    ensures Pictured(f, 0, Dictionary([Entry([0x61], Boolean(true))]))
  {
    hide ShownAt;
    assert Pictured(f, 2, Boolean(true));
    assert PicturedDictionary(f, 0, [Entry([0x61], Boolean(true))], [1], [2]);
  }
}
