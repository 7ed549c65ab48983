/**
 The object encoding of a binary plist: markers, counts, fixed-width integers and
 the references of a container.

 An object is described by its `Shape`: a leaf carries its value, a container carries
 the table slots it refers to. Readers look at the bytes from an object's position on.
 */
module BinaryFormat {
  import opened Words
  import opened Plists

  const MARKER_NULL: Byte := 0x00
  const MARKER_FALSE: Byte := 0x08
  const MARKER_TRUE: Byte := 0x09
  const MARKER_INT: Byte := 0x10
  const MARKER_REAL: Byte := 0x20
  const MARKER_DATE: Byte := 0x30
  const MARKER_DATA: Byte := 0x40
  const MARKER_ASCII: Byte := 0x50
  const MARKER_UTF16: Byte := 0x60
  const MARKER_UID: Byte := 0x80
  const MARKER_ARRAY: Byte := 0xa0
  const MARKER_DICTIONARY: Byte := 0xd0
  const COUNT_FOLLOWS: Byte := 0x0f

  datatype Shape =
    | Leaf(value: Plist)
    | ArrayOf(refs: seq<nat>)
    | DictionaryOf(keys: seq<nat>, values: seq<nat>)
  {
    predicate Valid() {
      match this
      case Leaf(value) => !value.Container()
      case ArrayOf(_) => true
      case DictionaryOf(keys, values) => |keys| == |values|
    }

    /** The number of bytes or references the marker counts. */
    function Count(): nat {
      match this
      case Leaf(value) => Size(value)
      case ArrayOf(refs) => |refs|
      case DictionaryOf(keys, _) => |keys|
    }

    /** Every reference is below `bound`. */
    ghost predicate RefsBelow(bound: nat) {
      match this
      case Leaf(_) => true
      case ArrayOf(refs) => Below(refs, bound)
      case DictionaryOf(keys, values) => Below(keys, bound) && Below(values, bound)
    }
  }

  ghost predicate Below(refs: seq<nat>, bound: nat) {
    forall i | 0 <= i < |refs| :: refs[i] < bound
  }

  /** The length a string or data object announces. */
  function Size(value: Plist): nat {
    if value.String? then |value.text| else if value.Data? then |value.data| else 0
  }

  // ---------------------------------------------------------------------------
  // Writing
  // ---------------------------------------------------------------------------

  /** The byte count a marker's low nibble stands for, `1 << exponent`. */
  function Width(exponent: nat): (w: nat)
    ensures w > 0
  {
    if exponent == 0 then 1 else 2 * Width(exponent - 1)
  }

  /** The width exponent of an unsigned value: 1, 2, 4 or 8 bytes. */
  function Exponent(value: Word64): (e: nat)
    ensures e <= 3
  {
    if value <= 0xff then 0 else if value <= 0xffff then 1 else if value <= 0xffff_ffff then 2 else 3
  }

  /** The width exponent `append_int` picks: unsigned for a non-negative value, signed for a negative one. */
  function IntExponent(value: Int64): (e: nat)
    ensures e <= 3
  {
    if value >= 0 then Exponent(value)
    else if value >= -128 then 0 else if value >= -32768 then 1 else if value >= -TWO_TO_THE_31 then 2 else 3
  }

  /** The field an integer is written as, its two's complement in its width. */
  function IntField(value: Int64): nat {
    Pow256Values();
    if value >= 0 then value else value + Pow256(Width(IntExponent(value)))
  }

  function EncodeWidth(marker: Byte, exponent: nat, field: nat): Bytes
    requires marker % 16 == 0 && exponent < 16
  {
    [marker + exponent] + BigEndian(field, Width(exponent))
  }

  function EncodeInt(value: Int64): Bytes {
    EncodeWidth(MARKER_INT, IntExponent(value), IntField(value))
  }

  function EncodeCount(marker: Byte, count: nat): Bytes
    requires marker % 16 == 0
  {
    if count < COUNT_FOLLOWS then [marker + count]
    else [marker + COUNT_FOLLOWS] + EncodeInt(Signed64(count % TWO_TO_THE_64))
  }

  function EncodeRefs(refs: seq<nat>, refSize: nat): Bytes {
    if refs == [] then [] else BigEndian(refs[0], refSize) + EncodeRefs(refs[1..], refSize)
  }

  function EncodeLeaf(value: Plist, doubles: Doubles): Bytes
    requires !value.Container()
  {
    match value
    case Null => [MARKER_NULL]
    case Boolean(flag) => [if flag then MARKER_TRUE else MARKER_FALSE]
    case Integer(number) => EncodeInt(number)
    case Real(bits) => EncodeWidth(MARKER_REAL, 3, bits)
    case Date(seconds) => EncodeWidth(MARKER_DATE, 3, doubles.fromSeconds(seconds))
    case String(text) => EncodeCount(MARKER_ASCII, |text|) + text
    case Data(data) => EncodeCount(MARKER_DATA, |data|) + data
    case Uid(index) => EncodeWidth(MARKER_UID, Exponent(index), index)
  }

  function EncodeShape(shape: Shape, refSize: nat, doubles: Doubles): Bytes
    requires shape.Valid()
  {
    match shape
    case Leaf(value) => EncodeLeaf(value, doubles)
    case ArrayOf(refs) => EncodeCount(MARKER_ARRAY, |refs|) + EncodeRefs(refs, refSize)
    case DictionaryOf(keys, values) =>
      EncodeCount(MARKER_DICTIONARY, |keys|) + (EncodeRefs(keys, refSize) + EncodeRefs(values, refSize))
  }

  // ---------------------------------------------------------------------------
  // Reading
  // ---------------------------------------------------------------------------

  /** The big-endian value of the first `size` bytes, wrapped to 64 bits. */
  function Field(s: Bytes, size: nat): Word64
    requires size <= |s|
  {
    FromBigEndian(s[..size]) % TWO_TO_THE_64
  }

  /** Whether a marker with low nibble `info` has its whole count, which may follow as an int object. */
  predicate HasCount(s: Bytes, info: nat) {
    info == COUNT_FOLLOWS ==> s != [] && Width(s[0] % 16) <= |s| - 1
  }

  function CountOf(s: Bytes, info: nat): Word64
    requires info < 16 && HasCount(s, info)
  {
    if info != COUNT_FOLLOWS then info else Field(s[1..], Width(s[0] % 16))
  }

  function AfterCount(s: Bytes, info: nat): Bytes
    requires HasCount(s, info)
  {
    if info != COUNT_FOLLOWS then s else s[1 + Width(s[0] % 16)..]
  }

  /** Sign-extends a field of fewer than 8 bytes. */
  function SignExtend(raw: Word64, size: nat): Int64 {
    if size < 8 && raw < Pow256(size) <= 2 * raw then
      Pow256Values(); Pow256Monotone(size, 8);
      raw - Pow256(size)
    else
      Signed64(raw)
  }

  /** Up to `count` references of `refSize` bytes each. */
  function Refs(s: Bytes, count: nat, refSize: nat): (refs: seq<nat>)
    ensures |refs| <= count
    decreases count
  {
    if count == 0 || |s| < refSize then []
    else [Field(s, refSize)] + Refs(s[refSize..], count - 1, refSize)
  }

  function AfterRefs(s: Bytes, count: nat, refSize: nat): Bytes
    decreases count
  {
    if count == 0 || |s| < refSize then s else AfterRefs(s[refSize..], count - 1, refSize)
  }

  /** Every second byte, the low half of each big-endian UTF-16 unit. */
  function LowBytes(s: Bytes): Bytes {
    if |s| < 2 then [] else [s[1]] + LowBytes(s[2..])
  }

  function ReadFixed(kind: Byte, s: Bytes, size: nat, doubles: Doubles): Result<Plist>
    requires kind in {MARKER_INT, MARKER_REAL, MARKER_DATE, MARKER_UID}
  {
    if |s| < size then Err(Protocol)
    else
      var raw := Field(s, size);
      if kind == MARKER_INT then Ok(Integer(SignExtend(raw, size)))
      else if kind == MARKER_UID then Ok(Uid(raw))
      else if kind == MARKER_DATE then Ok(Date(doubles.toSeconds(raw)))
      else Ok(Real(if size == 8 then raw else if size == 4 then doubles.widen(raw % TWO_TO_THE_32) else 0))
  }

  function ReadRun(kind: Byte, s: Bytes, count: nat): Result<Plist>
    requires kind in {MARKER_DATA, MARKER_ASCII, MARKER_UTF16}
  {
    if count > (if kind == MARKER_UTF16 then |s| / 2 else |s|) then Err(Protocol)
    else if kind == MARKER_DATA then Ok(Data(s[..count]))
    else if kind == MARKER_ASCII then Ok(String(s[..count]))
    else Ok(String(LowBytes(s[..2 * count])))
  }

  /** A container body; the guard keeps a crafted count from allocating. */
  function ReadArray(s: Bytes, count: nat, refSize: nat): Result<Shape>
    requires refSize > 0
  {
    if count > |s| / refSize || |Refs(s, count, refSize)| < count then Err(Protocol)
    else Ok(ArrayOf(Refs(s, count, refSize)))
  }

  function ReadDictionary(s: Bytes, count: nat, refSize: nat): Result<Shape>
    requires refSize > 0
  {
    if count > |s| / (2 * refSize) then Err(Protocol)
    else
      var keys := Refs(s, count, refSize);
      var values := Refs(AfterRefs(s, count, refSize), count, refSize);
      if |keys| < count || |values| < count then Err(Protocol) else Ok(DictionaryOf(keys, values))
  }

  function LeafOf(value: Result<Plist>): Result<Shape> {
    if value.Ok? then Ok(Leaf(value.value)) else Err(value.error)
  }

  /** The body of an object whose marker has the high nibble `kind` and low nibble `info`. */
  function ReadBody(kind: Byte, info: nat, s: Bytes, refSize: nat, doubles: Doubles): Result<Shape>
    requires refSize > 0 && info < 16
  {
    if kind == MARKER_NULL then Ok(Leaf(Null))
    else if kind == MARKER_DATE then LeafOf(ReadFixed(kind, s, 8, doubles))
    else if kind in {MARKER_INT, MARKER_REAL, MARKER_UID} then LeafOf(ReadFixed(kind, s, Width(info), doubles))
    else if kind !in {MARKER_DATA, MARKER_ASCII, MARKER_UTF16, MARKER_ARRAY, MARKER_DICTIONARY} then Err(Protocol)
    else if !HasCount(s, info) then Err(Protocol)
    else
      var count, body := CountOf(s, info), AfterCount(s, info);
      if kind == MARKER_ARRAY then ReadArray(body, count, refSize)
      else if kind == MARKER_DICTIONARY then ReadDictionary(body, count, refSize)
      else LeafOf(ReadRun(kind, body, count))
  }

  /** The object that `s` starts with, or an error when it is malformed. */
  function ReadShape(s: Bytes, refSize: nat, doubles: Doubles): Result<Shape>
    requires refSize > 0
  {
    if s == [] then Err(Protocol)
    else if s[0] == MARKER_FALSE then Ok(Leaf(Boolean(false)))
    else if s[0] == MARKER_TRUE then Ok(Leaf(Boolean(true)))
    else ReadBody(s[0] / 16 * 16, s[0] % 16, s[1..], refSize, doubles)
  }

  // ---------------------------------------------------------------------------
  // An object reads back as written, up to the width an integer was given
  // ---------------------------------------------------------------------------

  /** What an integer becomes: one written in an unsigned width is read signed. */
  function Narrowed(number: Int64): Int64 {
    if 128 <= number <= 0xff then number - TWO_TO_THE_8
    else if 32768 <= number <= 0xffff then number - TWO_TO_THE_16
    else if TWO_TO_THE_31 <= number <= 0xffff_ffff then number - TWO_TO_THE_32
    else number
  }

  /** The value the reader gives back for a written leaf. */
  function Reread(value: Plist, doubles: Doubles): Plist {
    match value
    case Integer(number) => Integer(Narrowed(number))
    case Date(seconds) => Date(doubles.toSeconds(doubles.fromSeconds(seconds)))
    case _ => value
  }

  function RereadShape(shape: Shape, doubles: Doubles): Shape {
    if shape.Leaf? then Leaf(Reread(shape.value, doubles)) else shape
  }

  lemma Widths()
    ensures Width(0) == 1 && Width(1) == 2 && Width(2) == 4 && Width(3) == 8
    ensures Pow256(Width(0)) == TWO_TO_THE_8 && Pow256(Width(1)) == TWO_TO_THE_16
    ensures Pow256(Width(2)) == TWO_TO_THE_32 && Pow256(Width(3)) == TWO_TO_THE_64
  {
    assert Width(2) == 2 * Width(1);
    Pow256Values();
  }

  lemma Nibbles(marker: Byte, low: nat)
    requires marker % 16 == 0 && low < 16
    ensures marker + low < 256 && (marker + low) / 16 * 16 == marker && (marker + low) % 16 == low
  {
  }

  lemma FieldBack(value: Word64, size: nat, rest: Bytes)
    requires value < Pow256(size)
    ensures Field(BigEndian(value, size) + rest, size) == value
  {
    BigEndianRoundTrip(value, size);
    assert (BigEndian(value, size) + rest)[..size] == BigEndian(value, size);
  }

  /** The field of an integer fits its width and sign-extends to the narrowed value. */
  lemma IntFieldFits(number: Int64)
    ensures IntField(number) < Pow256(Width(IntExponent(number))) <= TWO_TO_THE_64
    ensures SignExtend(IntField(number), Width(IntExponent(number))) == Narrowed(number)
  {
    Widths();
  }

  /** An int object is read back by its own low nibble. */
  lemma IntHead(value: nat, rest: Bytes)
    requires value < TWO_TO_THE_63
    ensures var s := EncodeInt(value) + rest;
            && s != [] && Width(s[0] % 16) <= |s| - 1
            && Field(s[1..], Width(s[0] % 16)) == value
            && s[1 + Width(s[0] % 16)..] == rest
  {
    hide Field, BigEndian, FromBigEndian, Pow256, Width;
    var e := IntExponent(value);
    var field := BigEndian(value, Width(e));
    var s := EncodeInt(value) + rest;
    Nibbles(MARKER_INT, e);
    IntFieldFits(value);
    FieldBack(value, Width(e), rest);
    assert s == [MARKER_INT + e] + (field + rest);
    assert s[1..] == field + rest;
    assert s[1 + Width(e)..] == rest;
  }

  /** Counts are read unsigned, so every count a vector can have reads back. */
  lemma CountBack(marker: Byte, count: nat, rest: Bytes)
    requires marker % 16 == 0 && count < TWO_TO_THE_63
    ensures var s := EncodeCount(marker, count) + rest;
            && s != [] && s[0] / 16 * 16 == marker
            && HasCount(s[1..], s[0] % 16)
            && CountOf(s[1..], s[0] % 16) == count
            && AfterCount(s[1..], s[0] % 16) == rest
  {
    hide Field, EncodeInt, Width;
    var s := EncodeCount(marker, count) + rest;
    if count < COUNT_FOLLOWS {
      Nibbles(marker, count);
      assert s[1..] == rest;
    } else {
      Nibbles(marker, COUNT_FOLLOWS);
      IntHead(count, rest);
      assert s[1..] == EncodeInt(count) + rest;
    }
  }

  lemma {:induction false} RefsBack(refs: seq<nat>, refSize: nat, rest: Bytes)
    requires refSize <= 8 && Below(refs, Pow256(refSize))
    ensures Refs(EncodeRefs(refs, refSize) + rest, |refs|, refSize) == refs
    ensures AfterRefs(EncodeRefs(refs, refSize) + rest, |refs|, refSize) == rest
    decreases |refs|
  {
    hide Field, BigEndian, FromBigEndian, Pow256;
    if refs == [] {
      assert EncodeRefs(refs, refSize) + rest == rest;
    } else {
      var tail := EncodeRefs(refs[1..], refSize) + rest;
      var s := EncodeRefs(refs, refSize) + rest;
      assert s == BigEndian(refs[0], refSize) + tail;
      Pow256Monotone(refSize, 8);
      Pow256Values();
      FieldBack(refs[0], refSize, tail);
      assert s[refSize..] == tail;
      RefsBack(refs[1..], refSize, rest);
    }
  }

  lemma {:induction false} EncodeRefsLength(refs: seq<nat>, refSize: nat)
    ensures |EncodeRefs(refs, refSize)| == |refs| * refSize
  {
    if refs != [] {
      EncodeRefsLength(refs[1..], refSize);
      assert |refs| * refSize == refSize + (|refs| - 1) * refSize;
    }
  }

  /** A guard of the form `count > room / unit` never rejects `count` units that are there. */
  lemma GuardAccepts(count: nat, room: nat, unit: nat)
    requires unit > 0 && count * unit <= room
    ensures count <= room / unit
  {
    var q := room / unit;
    assert q + 1 <= count ==> (q + 1) * unit <= count * unit;
  }

  lemma PairGuardAccepts(count: nat, room: nat, unit: nat)
    requires unit > 0 && count * unit + count * unit <= room
    ensures count <= room / (2 * unit)
  {
    var pair := 2 * unit;
    assert count * pair == count * unit + count * unit;
    GuardAccepts(count, room, pair);
  }

  lemma ArrayBack(refs: seq<nat>, refSize: nat, rest: Bytes)
    requires 0 < refSize <= 8 && Below(refs, Pow256(refSize))
    ensures ReadArray(EncodeRefs(refs, refSize) + rest, |refs|, refSize) == Ok(ArrayOf(refs))
  {
    RefsBack(refs, refSize, rest);
    EncodeRefsLength(refs, refSize);
    GuardAccepts(|refs|, |EncodeRefs(refs, refSize) + rest|, refSize);
  }

  lemma DictionaryBack(keys: seq<nat>, values: seq<nat>, refSize: nat, rest: Bytes)
    requires 0 < refSize <= 8 && |keys| == |values|
    requires Below(keys, Pow256(refSize)) && Below(values, Pow256(refSize))
    ensures ReadDictionary((EncodeRefs(keys, refSize) + EncodeRefs(values, refSize)) + rest, |keys|, refSize)
         == Ok(DictionaryOf(keys, values))
  {
    var k, v := EncodeRefs(keys, refSize), EncodeRefs(values, refSize);
    assert (k + v) + rest == k + (v + rest);
    RefsBack(keys, refSize, v + rest);
    RefsBack(values, refSize, rest);
    DictionaryGuard(keys, values, refSize, |(k + v) + rest|);
  }

  lemma DictionaryGuard(keys: seq<nat>, values: seq<nat>, refSize: nat, room: nat)
    requires refSize > 0 && |keys| == |values|
    requires |EncodeRefs(keys, refSize)| + |EncodeRefs(values, refSize)| <= room
    ensures |keys| <= room / (2 * refSize)
  {
    EncodeRefsLength(keys, refSize);
    EncodeRefsLength(values, refSize);
    PairGuardAccepts(|keys|, room, refSize);
  }

  lemma FixedBack(marker: Byte, exponent: nat, field: Word64, rest: Bytes)
    requires marker % 16 == 0 && exponent < 16 && field < Pow256(Width(exponent))
    ensures var s := EncodeWidth(marker, exponent, field) + rest;
            && s[0] / 16 * 16 == marker && s[0] % 16 == exponent
            && Width(exponent) <= |s[1..]| && Field(s[1..], Width(exponent)) == field
  {
    var s := EncodeWidth(marker, exponent, field) + rest;
    Nibbles(marker, exponent);
    assert s[1..] == BigEndian(field, Width(exponent)) + rest;
    FieldBack(field, Width(exponent), rest);
  }

  lemma IntBack(number: Int64, rest: Bytes, refSize: nat, doubles: Doubles)
    requires refSize > 0
    ensures ReadShape(EncodeInt(number) + rest, refSize, doubles) == Ok(Leaf(Integer(Narrowed(number))))
  {
    IntFieldFits(number);
    FixedBack(MARKER_INT, IntExponent(number), IntField(number), rest);
  }

  lemma UidBack(index: Word64, rest: Bytes, refSize: nat, doubles: Doubles)
    requires refSize > 0
    ensures ReadShape(EncodeWidth(MARKER_UID, Exponent(index), index) + rest, refSize, doubles) == Ok(Leaf(Uid(index)))
  {
    Widths();
    FixedBack(MARKER_UID, Exponent(index), index, rest);
  }

  lemma EightByteBack(marker: Byte, bits: Word64, rest: Bytes, refSize: nat, doubles: Doubles)
    requires refSize > 0 && marker in {MARKER_REAL, MARKER_DATE}
    ensures ReadShape(EncodeWidth(marker, 3, bits) + rest, refSize, doubles)
         == Ok(Leaf(if marker == MARKER_REAL then Real(bits) else Date(doubles.toSeconds(bits))))
  {
    Widths();
    FixedBack(marker, 3, bits, rest);
  }

  lemma RunBack(marker: Byte, run: Bytes, rest: Bytes, refSize: nat, doubles: Doubles)
    requires refSize > 0 && |run| < TWO_TO_THE_63 && marker in {MARKER_DATA, MARKER_ASCII}
    ensures ReadShape((EncodeCount(marker, |run|) + run) + rest, refSize, doubles)
         == Ok(Leaf(if marker == MARKER_DATA then Data(run) else String(run)))
  {
    hide EncodeCount, HasCount, CountOf, AfterCount;
    assert (EncodeCount(marker, |run|) + run) + rest == EncodeCount(marker, |run|) + (run + rest);
    CountBack(marker, |run|, run + rest);
    assert (run + rest)[..|run|] == run;
  }

  lemma LeafBack(value: Plist, rest: Bytes, refSize: nat, doubles: Doubles)
    requires refSize > 0 && !value.Container() && Size(value) < TWO_TO_THE_63
    ensures ReadShape(EncodeLeaf(value, doubles) + rest, refSize, doubles) == Ok(Leaf(Reread(value, doubles)))
  {
    match value
    case Null =>
    case Boolean(flag) =>
    case Integer(number) => IntBack(number, rest, refSize, doubles);
    case Real(bits) => EightByteBack(MARKER_REAL, bits, rest, refSize, doubles);
    case Date(seconds) => EightByteBack(MARKER_DATE, doubles.fromSeconds(seconds), rest, refSize, doubles);
    case String(text) => RunBack(MARKER_ASCII, text, rest, refSize, doubles);
    case Data(data) => RunBack(MARKER_DATA, data, rest, refSize, doubles);
    case Uid(index) => UidBack(index, rest, refSize, doubles);
  }

  /**
   A written object reads back as its shape, whatever follows it: no guard rejects it, its
   references come back unchanged, and a leaf comes back as `Reread` says.
   */
  lemma ShapeBack(shape: Shape, rest: Bytes, refSize: nat, doubles: Doubles)
    requires 0 < refSize <= 8 && shape.Valid() && shape.Count() < TWO_TO_THE_63 && shape.RefsBelow(Pow256(refSize))
    ensures ReadShape(EncodeShape(shape, refSize, doubles) + rest, refSize, doubles) == Ok(RereadShape(shape, doubles))
  {
    hide ReadShape, EncodeCount, EncodeRefs, EncodeLeaf, ReadArray, ReadDictionary, Reread, Pow256;
    match shape
    case Leaf(value) =>
      LeafBack(value, rest, refSize, doubles);
    case ArrayOf(refs) =>
      HeadBack(MARKER_ARRAY, |refs|, EncodeRefs(refs, refSize), rest, refSize, doubles);
      ArrayBack(refs, refSize, rest);
    case DictionaryOf(keys, values) =>
      HeadBack(MARKER_DICTIONARY, |keys|, EncodeRefs(keys, refSize) + EncodeRefs(values, refSize), rest, refSize,
               doubles);
      DictionaryBack(keys, values, refSize, rest);
  }

  /** The head of a container is read and leaves its body. */
  lemma HeadBack(marker: Byte, count: nat, body: Bytes, rest: Bytes, refSize: nat, doubles: Doubles)
    requires refSize > 0 && marker in {MARKER_ARRAY, MARKER_DICTIONARY} && count < TWO_TO_THE_63
    ensures ReadShape((EncodeCount(marker, count) + body) + rest, refSize, doubles)
         == if marker == MARKER_ARRAY then ReadArray(body + rest, count, refSize)
            else ReadDictionary(body + rest, count, refSize)
  {
    hide EncodeCount, HasCount, CountOf, AfterCount, ReadArray, ReadDictionary;
    assert (EncodeCount(marker, count) + body) + rest == EncodeCount(marker, count) + (body + rest);
    CountBack(marker, count, body + rest);
  }
}
