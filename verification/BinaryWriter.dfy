/** Writing a binary plist: the object bodies, the offset table and the trailer. */
module BinaryWriter {
  import opened Words
  import opened Dictionaries
  import opened Plists
  import opened BinaryFormat
  import opened BinaryTable

  const HEADER: Bytes := [0x62, 0x70, 0x6c, 0x69, 0x73, 0x74, 0x30, 0x30] // "bplist00"
  const TRAILER_SIZE := 32

  // ---------------------------------------------------------------------------
  // The image of a table
  // ---------------------------------------------------------------------------

  function ElementRefs(o: Slot, t: Table): (refs: seq<nat>)
    requires o.value.Container() && Linked(o, t)
    ensures |refs| == Arity(o.value)
    ensures forall i | 0 <= i < |refs| :: refs[i] == t.slots[Child(o.address, i)]
  {
    seq(Arity(o.value), i requires 0 <= i < Arity(o.value) => t.slots[Child(o.address, i)])
  }

  function KeyRefs(entries: seq<Entry<Plist>>, t: Table): (refs: seq<nat>)
    requires KeysInterned(entries, t)
    ensures |refs| == |entries|
    ensures forall i | 0 <= i < |refs| :: refs[i] == t.keySlots[entries[i].key]
  {
    seq(|entries|, i requires 0 <= i < |entries| => t.keySlots[entries[i].key])
  }

  function ShapeOf(o: Slot, t: Table): (shape: Shape)
    requires Linked(o, t)
    ensures shape.Valid()
  {
    if o.value.Array? then ArrayOf(ElementRefs(o, t))
    else if o.value.Dictionary? then DictionaryOf(KeyRefs(o.value.entries, t), ElementRefs(o, t))
    else Leaf(o.value)
  }

  /** The bodies of the first `count` objects. */
  function Bodies(t: Table, count: nat, refSize: nat, doubles: Doubles): Bytes
    requires count <= |t.objects| && LinkedFrom(t, 0)
  {
    if count == 0 then []
    else Bodies(t, count - 1, refSize, doubles) + EncodeShape(ShapeOf(t.objects[count - 1], t), refSize, doubles)
  }

  /** Where object `index` starts in the file. */
  function Offset(t: Table, index: nat, refSize: nat, doubles: Doubles): nat
    requires index <= |t.objects| && LinkedFrom(t, 0)
  {
    |HEADER| + |Bodies(t, index, refSize, doubles)|
  }

  function OffsetTable(t: Table, count: nat, offsetSize: nat, refSize: nat, doubles: Doubles): Bytes
    requires count <= |t.objects| && LinkedFrom(t, 0)
  {
    if count == 0 then []
    else
      OffsetTable(t, count - 1, offsetSize, refSize, doubles)
      + BigEndian(Offset(t, count - 1, refSize, doubles), offsetSize)
  }

  /** The smallest width from `size` to 8 bytes that holds `n`. */
  function SizeFor(n: nat, size: nat): (r: nat)
    requires 1 <= size <= 8
    ensures size <= r <= 8
    ensures n < TWO_TO_THE_64 ==> n < Pow256(r)
    decreases 8 - size
  {
    Pow256Values();
    if size < 8 && n / Pow256(size) != 0 then SizeFor(n, size + 1)
    else FitsWhenQuotientIsZero(n, size); size
  }

  lemma FitsWhenQuotientIsZero(n: nat, size: nat)
    ensures n / Pow256(size) == 0 ==> n < Pow256(size)
  {
    var q := n / Pow256(size);
    assert n == Pow256(size) * q + n % Pow256(size);
  }

  function Trailer(offsetSize: Byte, refSize: Byte, count: nat, top: nat, tableOffset: nat): (r: Bytes)
    ensures |r| == TRAILER_SIZE
  {
    [0, 0, 0, 0, 0, 0, offsetSize, refSize] + BigEndian(count, 8) + BigEndian(top, 8) + BigEndian(tableOffset, 8)
  }

  function Image(t: Table, doubles: Doubles): Bytes
    requires LinkedFrom(t, 0) && ROOT in t.slots
  {
    var n := |t.objects|;
    var refSize := SizeFor(n, 1);
    var tableOffset := Offset(t, n, refSize, doubles);
    var offsetSize := SizeFor(tableOffset, 1);
    HEADER + Bodies(t, n, refSize, doubles)
      + OffsetTable(t, n, offsetSize, refSize, doubles)
      + Trailer(offsetSize, refSize, n, t.slots[ROOT], tableOffset)
  }

  /** The file `to_binary` writes. */
  function BinaryImage(value: Plist, doubles: Doubles): Bytes {
    TableOf(value);
    Image(Flatten(value, ROOT, EMPTY), doubles)
  }

  // ---------------------------------------------------------------------------
  // The writer
  // ---------------------------------------------------------------------------

  method AppendInt(out: ByteVector, value: Int64)
    modifies out
    ensures out.bytes == old(out.bytes) + EncodeInt(value)
  {
    hide BigEndian, Pow256;
    Widths();
    if value >= 0 {
      if value <= 0xff {
        out.Push(MARKER_INT);
        out.PutBigEndian(value, 1);
      } else if value <= 0xffff {
        out.Push(MARKER_INT + 1);
        out.PutBigEndian(value, 2);
      } else if value <= 0xffff_ffff {
        out.Push(MARKER_INT + 2);
        out.PutBigEndian(value, 4);
      } else {
        out.Push(MARKER_INT + 3);
        out.PutBigEndian(value, 8);
      }
      return;
    }
    if value >= -128 {
      out.Push(MARKER_INT);
      out.PutBigEndian(value % TWO_TO_THE_8, 1);
    } else if value >= -32768 {
      out.Push(MARKER_INT + 1);
      out.PutBigEndian(value % TWO_TO_THE_16, 2);
    } else if value >= -TWO_TO_THE_31 {
      out.Push(MARKER_INT + 2);
      out.PutBigEndian(value % TWO_TO_THE_32, 4);
    } else {
      out.Push(MARKER_INT + 3);
      out.PutBigEndian(value % TWO_TO_THE_64, 8);
    }
  }

  method AppendCount(out: ByteVector, marker: Byte, count: nat)
    requires marker % 16 == 0
    modifies out
    ensures out.bytes == old(out.bytes) + EncodeCount(marker, count)
  {
    hide EncodeInt, Signed64;
    if count < COUNT_FOLLOWS {
      out.Push(marker + count);
      return;
    }
    out.Push(marker + COUNT_FOLLOWS);
    AppendInt(out, Signed64(count % TWO_TO_THE_64));
  }

  method AppendUid(out: ByteVector, index: Word64)
    modifies out
    ensures out.bytes == old(out.bytes) + EncodeWidth(MARKER_UID, Exponent(index), index)
  {
    hide BigEndian;
    Widths();
    if index <= 0xff {
      out.Push(MARKER_UID);
      out.PutBigEndian(index, 1);
    } else if index <= 0xffff {
      out.Push(MARKER_UID + 1);
      out.PutBigEndian(index, 2);
    } else if index <= 0xffff_ffff {
      out.Push(MARKER_UID + 2);
      out.PutBigEndian(index, 4);
    } else {
      out.Push(MARKER_UID + 3);
      out.PutBigEndian(index, 8);
    }
  }

  lemma {:induction false} EncodeRefsSnoc(refs: seq<nat>, count: nat, refSize: nat)
    requires count < |refs|
    ensures EncodeRefs(refs[..count + 1], refSize)
         == EncodeRefs(refs[..count], refSize) + BigEndian(refs[count], refSize)
    decreases count
  {
    if count > 0 {
      EncodeRefsSnoc(refs[1..], count - 1, refSize);
      assert refs[..count + 1][1..] == refs[1..][..count];
      assert refs[..count][1..] == refs[1..][..count - 1];
    } else {
      assert refs[..1][1..] == [];
    }
  }

  method AppendElementRefs(out: ByteVector, o: Slot, t: Table, refSize: nat)
    requires o.value.Container() && Linked(o, t)
    modifies out
    ensures out.bytes == old(out.bytes) + EncodeRefs(ElementRefs(o, t), refSize)
  {
    ghost var refs := ElementRefs(o, t);
    for i := 0 to Arity(o.value)
      invariant out.bytes == old(out.bytes) + EncodeRefs(refs[..i], refSize)
    {
      EncodeRefsSnoc(refs, i, refSize);
      out.PutBigEndian(t.slots[Child(o.address, i)], refSize);
    }
    assert refs[..|refs|] == refs;
  }

  method AppendKeyRefs(out: ByteVector, entries: seq<Entry<Plist>>, t: Table, refSize: nat)
    requires KeysInterned(entries, t)
    modifies out
    ensures out.bytes == old(out.bytes) + EncodeRefs(KeyRefs(entries, t), refSize)
  {
    ghost var refs := KeyRefs(entries, t);
    for i := 0 to |entries|
      invariant out.bytes == old(out.bytes) + EncodeRefs(refs[..i], refSize)
    {
      EncodeRefsSnoc(refs, i, refSize);
      out.PutBigEndian(t.keySlots[entries[i].key], refSize);
    }
    assert refs[..|refs|] == refs;
  }

  method AppendObject(out: ByteVector, o: Slot, t: Table, refSize: nat, doubles: Doubles)
    requires Linked(o, t)
    modifies out
    ensures out.bytes == old(out.bytes) + EncodeShape(ShapeOf(o, t), refSize, doubles)
  {
    hide BigEndian, EncodeInt, EncodeCount, EncodeRefs, ElementRefs, KeyRefs, KeysInterned, Exponent, Pow256;
    Widths();
    match o.value
    case Null =>
      out.Push(MARKER_NULL);
    case Boolean(flag) =>
      out.Push(if flag then MARKER_TRUE else MARKER_FALSE);
    case Integer(number) =>
      AppendInt(out, number);
    case Real(bits) =>
      out.Push(MARKER_REAL + 3);
      out.PutBigEndian(bits, 8);
    case Date(seconds) =>
      out.Push(MARKER_DATE + 3);
      out.PutBigEndian(doubles.fromSeconds(seconds), 8);
    case String(text) =>
      AppendCount(out, MARKER_ASCII, |text|);
      out.Insert(text);
    case Data(data) =>
      AppendCount(out, MARKER_DATA, |data|);
      out.Insert(data);
    case Array(items) =>
      AppendCount(out, MARKER_ARRAY, |items|);
      AppendElementRefs(out, o, t, refSize);
    case Dictionary(entries) =>
      AppendCount(out, MARKER_DICTIONARY, |entries|);
      AppendKeyRefs(out, entries, t, refSize);
      AppendElementRefs(out, o, t, refSize);
    case Uid(index) =>
      AppendUid(out, index);
  }

  /** The width loop of `to_binary`, shared by the references and the offsets. */
  method PickSize(n: nat) returns (size: nat)
    ensures size == SizeFor(n, 1)
  {
    size := 1;
    while size < 8 && n / Pow256(size) != 0
      invariant 1 <= size <= 8 && SizeFor(n, 1) == SizeFor(n, size)
    {
      size := size + 1;
    }
  }

  /** Writes every object and notes where each one starts. */
  method AppendObjects(out: ByteVector, t: Table, refSize: nat, doubles: Doubles) returns (offsets: seq<nat>)
    requires LinkedFrom(t, 0) && out.bytes == HEADER
    modifies out
    ensures out.bytes == HEADER + Bodies(t, |t.objects|, refSize, doubles)
    ensures |offsets| == |t.objects|
    ensures forall j | 0 <= j < |offsets| :: offsets[j] == Offset(t, j, refSize, doubles)
  {
    hide EncodeShape, ShapeOf, Linked;
    offsets := [];
    for i := 0 to |t.objects|
      invariant out.bytes == HEADER + Bodies(t, i, refSize, doubles)
      invariant |offsets| == i && forall j | 0 <= j < i :: offsets[j] == Offset(t, j, refSize, doubles)
    {
      offsets := offsets + [|out.bytes|];
      AppendObject(out, t.objects[i], t, refSize, doubles);
    }
  }

  lemma NextOffset(t: Table, index: nat, offsetSize: nat, refSize: nat, doubles: Doubles)
    requires index < |t.objects| && LinkedFrom(t, 0)
    ensures OffsetTable(t, index + 1, offsetSize, refSize, doubles)
         == OffsetTable(t, index, offsetSize, refSize, doubles) +
            BigEndian(Offset(t, index, refSize, doubles), offsetSize)
  {
    hide LinkedFrom, BigEndian, Offset;
  }

  method AppendOffsets(out: ByteVector, offsets: seq<nat>, offsetSize: nat,
                       ghost t: Table, ghost refSize: nat, ghost doubles: Doubles)
    requires LinkedFrom(t, 0) && |offsets| == |t.objects|
    requires forall j | 0 <= j < |offsets| :: offsets[j] == Offset(t, j, refSize, doubles)
    modifies out
    ensures out.bytes == old(out.bytes) + OffsetTable(t, |offsets|, offsetSize, refSize, doubles)
  {
    hide LinkedFrom, BigEndian, Offset, OffsetTable;
    NoOffsets(t, offsetSize, refSize, doubles);
    for i := 0 to |offsets|
      invariant out.bytes == old(out.bytes) + OffsetTable(t, i, offsetSize, refSize, doubles)
    {
      NextOffset(t, i, offsetSize, refSize, doubles);
      out.PutBigEndian(offsets[i], offsetSize);
    }
  }

  lemma NoOffsets(t: Table, offsetSize: nat, refSize: nat, doubles: Doubles)
    requires LinkedFrom(t, 0)
    ensures OffsetTable(t, 0, offsetSize, refSize, doubles) == []
  {
    hide LinkedFrom;
  }

  method AppendTrailer(out: ByteVector, offsetSize: Byte, refSize: Byte, count: nat, top: nat, tableOffset: nat)
    modifies out
    ensures out.bytes == old(out.bytes) + Trailer(offsetSize, refSize, count, top, tableOffset)
  {
    hide BigEndian;
    for i := 0 to 6
      invariant out.bytes == old(out.bytes) + [0, 0, 0, 0, 0, 0][..i]
    {
      out.Push(0);
    }
    out.Push(offsetSize);
    out.Push(refSize);
    out.PutBigEndian(count, 8);
    out.PutBigEndian(top, 8);
    out.PutBigEndian(tableOffset, 8);
  }

  /** Writes the file: flatten, size the references, write the objects, then the offsets and the trailer. */
  method ToBinary(value: Plist, doubles: Doubles) returns (file: Bytes)
    ensures file == BinaryImage(value, doubles)
  {
    hide Trailer, OffsetTable, Bodies, SizeFor, Flatten, Dense, Placed;
    var flattener := new Flattener();
    flattener.Visit(value, ROOT);
    TableOf(value);
    var t := Table(flattener.objects, flattener.slots, flattener.keySlots);

    var refSize := PickSize(|t.objects|);
    var out := new ByteVector();
    out.Insert(HEADER);
    var offsets := AppendObjects(out, t, refSize, doubles);
    var tableOffset := |out.bytes|;
    var offsetSize := PickSize(tableOffset);
    AppendOffsets(out, offsets, offsetSize, t, refSize, doubles);
    AppendTrailer(out, offsetSize, refSize, |t.objects|, t.slots[ROOT], tableOffset);
    file := out.bytes;
  }
}
