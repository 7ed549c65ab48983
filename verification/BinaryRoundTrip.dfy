/**
 The binary plist round trip: reading a written file gives the value back, except that an
 integer written in an unsigned width is read signed. Hence exactly which values survive.
 */
module BinaryRoundTrip {
  import opened Words
  import opened Dictionaries
  import opened Plists
  import opened BinaryFormat
  import opened BinaryTable
  import opened BinaryWriter
  import opened BinaryReader
  import opened BinaryDecoder

  // ---------------------------------------------------------------------------
  // The value that comes back
  // ---------------------------------------------------------------------------

  /** Every leaf replaced by what the reader gives back for it. */
  function Normal(value: Plist, doubles: Doubles): Plist
    decreases value
  {
    match value
    case Array(items) =>
      Array(seq(|items|, i requires 0 <= i < |items| => Normal(items[i], doubles)))
    case Dictionary(entries) =>
      Dictionary(seq(|entries|, i requires 0 <= i < |entries| =>
        Entry(entries[i].key, Normal(entries[i].value, doubles))))
    case _ => Reread(value, doubles)
  }

  /** Every integer lies outside the ranges written unsigned but read signed, and every date survives the double. */
  ghost predicate Survives(value: Plist, doubles: Doubles)
    decreases value
  {
    match value
    case Integer(number) =>
      !(128 <= number <= 255) && !(32768 <= number <= 65535) && !(TWO_TO_THE_31 <= number < TWO_TO_THE_32)
    case Date(seconds) => doubles.toSeconds(doubles.fromSeconds(seconds)) == seconds
    case Array(items) => forall i | 0 <= i < |items| :: Survives(items[i], doubles)
    case Dictionary(entries) => forall i | 0 <= i < |entries| :: Survives(entries[i].value, doubles)
    case _ => true
  }

  lemma {:induction false} NormalIsIdentity(value: Plist, doubles: Doubles)
    ensures Normal(value, doubles) == value <==> Survives(value, doubles)
    decreases value
  {
    match value
    case Array(items) =>
      var normal := Normal(value, doubles).items;
      forall i | 0 <= i < |items| ensures normal[i] == items[i] <==> Survives(items[i], doubles) {
        NormalIsIdentity(items[i], doubles);
      }
      assert normal == items <==> forall i | 0 <= i < |items| :: normal[i] == items[i];
    case Dictionary(entries) =>
      var normal := Normal(value, doubles).entries;
      forall i | 0 <= i < |entries| ensures normal[i] == entries[i] <==> Survives(entries[i].value, doubles) {
        NormalIsIdentity(entries[i].value, doubles);
        assert normal[i].key == entries[i].key;
      }
      assert normal == entries <==> forall i | 0 <= i < |entries| :: normal[i] == entries[i];
    case _ =>
  }

  // ---------------------------------------------------------------------------
  // Each object stands where the offset table says
  // ---------------------------------------------------------------------------

  lemma {:induction false} BodiesPrefix(t: Table, k: nat, n: nat, refSize: nat, doubles: Doubles)
    requires LinkedFrom(t, 0) && k <= n <= |t.objects|
    ensures Bodies(t, k, refSize, doubles) <= Bodies(t, n, refSize, doubles)
    decreases n
  {
    hide LinkedFrom, EncodeShape, ShapeOf;
    if k < n {
      BodiesPrefix(t, k, n - 1, refSize, doubles);
    }
  }

  lemma ObjectNotEmpty(shape: Shape, refSize: nat, doubles: Doubles)
    requires shape.Valid()
    ensures 0 < |EncodeShape(shape, refSize, doubles)|
    ensures shape.Count() <= |EncodeShape(shape, refSize, doubles)| || refSize == 0
  {
    match shape
    case Leaf(_) =>
    case ArrayOf(refs) => EncodeRefsLength(refs, refSize); AtLeastOneEach(|refs|, refSize);
    case DictionaryOf(keys, _) => EncodeRefsLength(keys, refSize); AtLeastOneEach(|keys|, refSize);
  }

  lemma AtLeastOneEach(count: nat, unit: nat)
    ensures unit > 0 ==> count <= count * unit
  {
  }

  /** The bytes of a file from object `k` on are its encoding and then something else. */
  lemma ObjectAtOffset(file: Bytes, t: Table, k: nat, refSize: nat, doubles: Doubles) returns (rest: Bytes)
    requires LinkedFrom(t, 0) && k < |t.objects|
    requires HEADER + Bodies(t, |t.objects|, refSize, doubles) <= file
    ensures Offset(t, k, refSize, doubles) < |file|
    ensures file[Offset(t, k, refSize, doubles)..]
         == EncodeShape(ShapeOf(t.objects[k], t), refSize, doubles) + rest
  {
    hide Linked, ShapeOf, EncodeShape;
    BodiesPrefix(t, k + 1, |t.objects|, refSize, doubles);
    var body := EncodeShape(ShapeOf(t.objects[k], t), refSize, doubles);
    ObjectNotEmpty(ShapeOf(t.objects[k], t), refSize, doubles);
    var before := HEADER + Bodies(t, k, refSize, doubles);
    assert before + body == HEADER + Bodies(t, k + 1, refSize, doubles) <= file;
    rest := file[|before + body|..];
    assert file == before + body + rest;
  }

  // ---------------------------------------------------------------------------
  // The trailer leads back to the offset table
  // ---------------------------------------------------------------------------

  function Offsets(t: Table, count: nat, refSize: nat, doubles: Doubles): (offsets: seq<nat>)
    requires count <= |t.objects| && LinkedFrom(t, 0)
    ensures |offsets| == count
    ensures forall i | 0 <= i < count :: offsets[i] == Offset(t, i, refSize, doubles)
  {
    seq(count, i requires 0 <= i < count => Offset(t, i, refSize, doubles))
  }

  lemma {:induction false} OffsetTableIsRefs(t: Table, count: nat, offsetSize: nat, refSize: nat, doubles: Doubles)
    requires count <= |t.objects| && LinkedFrom(t, 0)
    ensures OffsetTable(t, count, offsetSize, refSize, doubles)
         == EncodeRefs(Offsets(t, count, refSize, doubles), offsetSize)
  {
    hide LinkedFrom, Offset, BigEndian;
    if count > 0 {
      OffsetTableIsRefs(t, count - 1, offsetSize, refSize, doubles);
      var offsets := Offsets(t, count, refSize, doubles);
      EncodeRefsSnoc(offsets, count - 1, offsetSize);
      assert offsets[..count - 1] == Offsets(t, count - 1, refSize, doubles);
      assert offsets[..count] == offsets;
    }
  }

  lemma OffsetsBelow(t: Table, refSize: nat, doubles: Doubles)
    requires LinkedFrom(t, 0)
    ensures Below(Offsets(t, |t.objects|, refSize, doubles), Offset(t, |t.objects|, refSize, doubles) + 1)
  {
    hide LinkedFrom, Bodies;
    forall i | 0 <= i < |t.objects|
      ensures Offset(t, i, refSize, doubles) <= Offset(t, |t.objects|, refSize, doubles)
    {
      BodiesPrefix(t, i, |t.objects|, refSize, doubles);
    }
  }

  /** The trailer's three words read back. */
  lemma TrailerBack(offsetSize: Byte, refSize: Byte, count: Word64, top: Word64, tableOffset: Word64)
    ensures var r := Trailer(offsetSize, refSize, count, top, tableOffset);
            && r[6] == offsetSize && r[7] == refSize
            && Field(r[8..], 8) == count && Field(r[16..], 8) == top && Field(r[24..], 8) == tableOffset
  {
    hide Field, BigEndian;
    Pow256Values();
    var c, p, o := BigEndian(count, 8), BigEndian(top, 8), BigEndian(tableOffset, 8);
    var r := Trailer(offsetSize, refSize, count, top, tableOffset);
    assert r[8..] == c + (p + o);
    assert r[16..] == p + o;
    assert r[24..] == o + [];
    FieldBack(count, 8, p + o);
    FieldBack(top, 8, o);
    FieldBack(tableOffset, 8, []);
  }

  /** Locating a written file finds the offset table the writer wrote; no guard rejects it. */
  lemma LocateBack(before: Bytes, offsets: seq<nat>, offsetSize: Byte, refSize: Byte, top: Word64, doubles: Doubles)
    requires HEADER <= before && 0 < |offsets| < TWO_TO_THE_64 && |before| < TWO_TO_THE_64
    requires 0 < offsetSize <= 8 && 0 < refSize && Below(offsets, Pow256(offsetSize))
    ensures var table := EncodeRefs(offsets, offsetSize);
            var file := before + table + Trailer(offsetSize, refSize, |offsets|, top, |before|);
            Locate(file, doubles) == Ok((File(file, offsets, refSize, doubles), top))
  {
    hide Trailer, Refs, Field, BigEndian, EncodeRefs;
    var table := EncodeRefs(offsets, offsetSize);
    var trailer := Trailer(offsetSize, refSize, |offsets|, top, |before|);
    var file := before + table + trailer;
    assert file[|file| - TRAILER_SIZE..] == trailer;
    TrailerBack(offsetSize, refSize, |offsets|, top, |before|);
    assert file[|before|..] == table + trailer;
    assert file[..8] == before[..8] == HEADER;
    RefsBack(offsets, offsetSize, trailer);
    EncodeRefsLength(offsets, offsetSize);
    GuardAccepts(|offsets|, |file| - |before|, offsetSize);
  }

  // ---------------------------------------------------------------------------
  // Every placed value unfolds to its normal form
  // ---------------------------------------------------------------------------

  /** Every object of the table reads back from the file as its shape. */
  ghost predicate Holds(f: File, t: Table)
  {
    && f.refSize > 0 && LinkedFrom(t, 0)
    && forall k | 0 <= k < |t.objects| :: ShapeAt(f, k) == Ok(RereadShape(ShapeOf(t.objects[k], t), f.doubles))
  }

  lemma {:induction false} PlacedUnfolds(f: File, t: Table, value: Plist, at: Address)
    requires Holds(f, t) && Dense(t) && Placed(value, at, t) && value.WellFormed()
    ensures Unfolds(f, t.slots[at], Normal(value, f.doubles))
    decreases value, 1
  {
    hide ShapeAt, Linked, ElementRefs, KeyRefs, Normal;
    var k := t.slots[at];
    var o := t.objects[k];
    assert ShapeAt(f, k) == Ok(RereadShape(ShapeOf(o, t), f.doubles));
    if value.Array? {
      ElementsUnfold(f, t, value, at, |value.items|);
      NormalArray(value, f.doubles);
      ArrayUnfolds(f, k, ElementRefs(o, t), Normal(value, f.doubles).items);
    } else if value.Dictionary? {
      EntriesUnfold(f, t, value, at, |value.entries|);
      NormalDictionary(value, f.doubles);
      DictionaryUnfolds(f, k, KeyRefs(value.entries, t), ElementRefs(o, t), Normal(value, f.doubles).entries);
    } else {
      NormalLeaf(value, f.doubles);
      LeafUnfolds(f, k, Reread(value, f.doubles));
    }
  }

  lemma NormalLeaf(value: Plist, doubles: Doubles)
    requires !value.Container()
    ensures Normal(value, doubles) == Reread(value, doubles)
  {
  }

  lemma NormalArray(value: Plist, doubles: Doubles)
    requires value.Array?
    ensures Normal(value, doubles).Array? && |Normal(value, doubles).items| == |value.items|
    ensures forall i | 0 <= i < |value.items| :: Normal(value, doubles).items[i] == Normal(value.items[i], doubles)
    ensures Normal(value, doubles).items[..|value.items|] == Normal(value, doubles).items
  {
  }

  lemma NormalDictionary(value: Plist, doubles: Doubles)
    requires value.Dictionary?
    ensures Normal(value, doubles).Dictionary? && |Normal(value, doubles).entries| == |value.entries|
    ensures forall i | 0 <= i < |value.entries| ::
              Normal(value, doubles).entries[i] == Entry(value.entries[i].key, Normal(value.entries[i].value, doubles))
    ensures Normal(value, doubles).entries[..|value.entries|] == Normal(value, doubles).entries
  {
  }

  lemma {:induction false} ElementsUnfold(f: File, t: Table, value: Plist, at: Address, count: nat)
    requires Holds(f, t) && Dense(t) && Placed(value, at, t) && value.WellFormed()
    requires value.Array? && count <= |value.items|
    ensures (NormalArray(value, f.doubles);
             FirstUnfoldTo(f, ElementRefs(Slot(at, value), t), count, Normal(value, f.doubles).items[..count]))
    decreases value, 0, count
  {
    hide ShapeAt, Normal, UnfoldFirst, Dense;
    NormalArray(value, f.doubles);
    var refs := ElementRefs(Slot(at, value), t);
    var items := Normal(value, f.doubles).items;
    if count == 0 {
      NoElementsYet(f, [], refs);
    } else {
      ElementsUnfold(f, t, value, at, count - 1);
      assert Placed(Element(value, count - 1), Child(at, count - 1), t);
      PlacedUnfolds(f, t, value.items[count - 1], Child(at, count - 1));
      FirstExtends(f, refs, count - 1, items[..count - 1], items[count - 1]);
      assert items[..count] == items[..count - 1] + [items[count - 1]];
    }
  }

  lemma {:induction false} EntriesUnfold(f: File, t: Table, value: Plist, at: Address, count: nat)
    requires Holds(f, t) && Dense(t) && Placed(value, at, t) && value.WellFormed()
    requires value.Dictionary? && count <= |value.entries|
    ensures (NormalDictionary(value, f.doubles);
             PairsUnfoldTo(f, KeyRefs(value.entries, t), ElementRefs(Slot(at, value), t), count,
                           Normal(value, f.doubles).entries[..count]))
    decreases value, 0, count
  {
    hide ShapeAt, Normal, UnfoldPairs, Dense, Emplace;
    NormalDictionary(value, f.doubles);
    var keys, refs := KeyRefs(value.entries, t), ElementRefs(Slot(at, value), t);
    var entries := Normal(value, f.doubles).entries;
    if count == 0 {
      NoElementsYet(f, keys, refs);
    } else {
      var last := value.entries[count - 1];
      EntriesUnfold(f, t, value, at, count - 1);
      assert Placed(Element(value, count - 1), Child(at, count - 1), t);
      PlacedUnfolds(f, t, last.value, Child(at, count - 1));
      KeyUnfolds(f, t, last.key);
      PairsExtend(f, keys, refs, count - 1, entries[..count - 1], String(last.key), entries[count - 1].value);
      EmplaceAppends(entries[..count - 1], last.key, entries[count - 1].value);
      assert entries[..count] == entries[..count - 1] + [entries[count - 1]];
    }
  }

  lemma KeyUnfolds(f: File, t: Table, key: Bytes)
    requires Holds(f, t) && Dense(t) && key in t.keySlots
    ensures Unfolds(f, t.keySlots[key], String(key))
  {
    hide ShapeAt;
    LeafUnfolds(f, t.keySlots[key], String(key));
  }

  // ---------------------------------------------------------------------------
  // The whole file
  // ---------------------------------------------------------------------------

  /** Where the objects of an image end and its offset table begins. */
  lemma ImageLayout(t: Table, doubles: Doubles) returns (f: File)
    requires LinkedFrom(t, 0) && Dense(t) && ROOT in t.slots && |Image(t, doubles)| < TWO_TO_THE_63
    ensures f.bytes == Image(t, doubles) && f.doubles == doubles
    ensures f.refSize == SizeFor(|t.objects|, 1) && |t.objects| < Pow256(f.refSize)
    ensures f.offsets == Offsets(t, |t.objects|, f.refSize, doubles)
    ensures HEADER + Bodies(t, |t.objects|, f.refSize, doubles) <= f.bytes
    ensures Locate(f.bytes, doubles) == Ok((f, t.slots[ROOT]))
  {
    hide Bodies, OffsetTable, Trailer, Locate, SizeFor, LinkedFrom;
    var n := |t.objects|;
    var refSize := SizeFor(n, 1);
    var before := HEADER + Bodies(t, n, refSize, doubles);
    var offsetSize := SizeFor(|before|, 1);
    var offsets := Offsets(t, n, refSize, doubles);
    f := File(Image(t, doubles), offsets, refSize, doubles);
    OffsetTableIsRefs(t, n, offsetSize, refSize, doubles);
    OffsetsBelow(t, refSize, doubles);
    ObjectsWithinImage(t, offsets, offsetSize, f.bytes, before);
    LocateBack(before, offsets, offsetSize, refSize, t.slots[ROOT], doubles);
  }

  /** A table of objects is shorter than the file that lists their offsets. */
  lemma ObjectsWithinImage(t: Table, offsets: seq<nat>, offsetSize: nat, file: Bytes, before: Bytes)
    requires |offsets| == |t.objects| && offsetSize > 0
    requires |before| + |EncodeRefs(offsets, offsetSize)| <= |file|
    ensures |t.objects| <= |file|
  {
    EncodeRefsLength(offsets, offsetSize);
    AtLeastOneEach(|offsets|, offsetSize);
  }

  lemma RefsOfTableBelow(t: Table, k: nat)
    requires Dense(t) && LinkedFrom(t, 0) && k < |t.objects|
    ensures ShapeOf(t.objects[k], t).RefsBelow(|t.objects|)
  {
  }

  lemma BelowWidens(shape: Shape, small: nat, large: nat)
    requires shape.RefsBelow(small) && small <= large
    ensures shape.RefsBelow(large)
  {
  }

  /** Every object of a written file reads back as its shape. */
  lemma FileHolds(f: File, t: Table)
    requires LinkedFrom(t, 0) && Dense(t) && |f.bytes| < TWO_TO_THE_63
    requires 0 < f.refSize <= 8 && |t.objects| < Pow256(f.refSize)
    requires f.offsets == Offsets(t, |t.objects|, f.refSize, f.doubles)
    requires HEADER + Bodies(t, |t.objects|, f.refSize, f.doubles) <= f.bytes
    ensures Holds(f, t)
  {
    hide ReadShape, EncodeShape, ShapeOf, Linked, Bodies, Dense;
    forall k | 0 <= k < |t.objects|
      ensures ShapeAt(f, k) == Ok(RereadShape(ShapeOf(t.objects[k], t), f.doubles))
    {
      var shape := ShapeOf(t.objects[k], t);
      var rest := ObjectAtOffset(f.bytes, t, k, f.refSize, f.doubles);
      ObjectNotEmpty(shape, f.refSize, f.doubles);
      RefsOfTableBelow(t, k);
      BelowWidens(shape, |t.objects|, Pow256(f.refSize));
      ShapeBack(shape, rest, f.refSize, f.doubles);
    }
  }

  /**
   Reading a written file gives the normal form of the value. The only bound is the machine's:
   a byte vector is shorter than 2^63 bytes.
   */
  lemma ParsedImageIsNormal(value: Plist, doubles: Doubles)
    requires value.WellFormed() && |BinaryImage(value, doubles)| < TWO_TO_THE_63
    ensures Parsed(BinaryImage(value, doubles), doubles) == Ok(Normal(value, doubles))
  {
    hide Image, Locate, Unfold, Flatten, LinkedFrom, Dense, Placed, Normal, Bodies, Holds;
    var t := Flatten(value, ROOT, EMPTY);
    TableOf(value);
    RootPlaced(value, t);
    var f := ImageLayout(t, doubles);
    FileHolds(f, t);
    PlacedUnfolds(f, t, value, ROOT);
    HoldsRefSize(f, t);
    UnfoldsWithinTable(f, t.slots[ROOT], Normal(value, doubles));
  }

  lemma RootPlaced(value: Plist, t: Table)
    requires Placed(value, ROOT, t)
    ensures ROOT in t.slots
  {
  }

  lemma HoldsRefSize(f: File, t: Table)
    requires Holds(f, t)
    ensures f.refSize > 0
  {
  }

  /** The exact domain of the binary round trip. */
  lemma RoundTripExactly(value: Plist, doubles: Doubles)
    requires value.WellFormed() && |BinaryImage(value, doubles)| < TWO_TO_THE_63
    ensures Parsed(BinaryImage(value, doubles), doubles) == Ok(value) <==> Survives(value, doubles)
  {
    hide Parsed, BinaryImage;
    ParsedImageIsNormal(value, doubles);
    NormalIsIdentity(value, doubles);
  }

  lemma OneBody(t: Table, value: Plist, refSize: nat, doubles: Doubles)
    requires !value.Container() && LinkedFrom(t, 0) && t.objects == [Slot(ROOT, value)]
    ensures Bodies(t, 1, refSize, doubles) == EncodeLeaf(value, doubles)
  {
    hide EncodeLeaf, LinkedFrom;
    assert Bodies(t, 0, refSize, doubles) == [];
    assert ShapeOf(t.objects[0], t) == Leaf(value);
  }

  lemma OneOffset(t: Table, offsetSize: nat, refSize: nat, doubles: Doubles)
    requires LinkedFrom(t, 0) && |t.objects| == 1
    ensures |OffsetTable(t, 1, offsetSize, refSize, doubles)| == offsetSize
  {
    hide BigEndian, LinkedFrom, Offset;
    assert OffsetTable(t, 0, offsetSize, refSize, doubles) == [];
  }

  lemma OneObject(t: Table, value: Plist, doubles: Doubles)
    requires !value.Container() && LinkedFrom(t, 0) && t.objects == [Slot(ROOT, value)] && ROOT in t.slots
    ensures |Image(t, doubles)| <= 8 + |EncodeLeaf(value, doubles)| + 8 + TRAILER_SIZE
  {
    hide EncodeLeaf, Trailer, SizeFor, LinkedFrom, Bodies, OffsetTable;
    var refSize := SizeFor(1, 1);
    OneBody(t, value, refSize, doubles);
    OneOffset(t, SizeFor(Offset(t, 1, refSize, doubles), 1), refSize, doubles);
  }

  /** The file of one leaf: its object, one offset, and the header and trailer around them. */
  lemma LeafImageSize(value: Plist, doubles: Doubles)
    requires !value.Container()
    ensures |BinaryImage(value, doubles)| <= 8 + |EncodeLeaf(value, doubles)| + 8 + TRAILER_SIZE
  {
    hide EncodeLeaf, Image, Dense, Placed, LinkedFrom;
    TableOf(value);
    OneObject(Flatten(value, ROOT, EMPTY), value, doubles);
  }

  /** An integer outside the exact domain: 200 is written in one unsigned byte and read back as -56. */
  lemma TwoHundredDoesNotSurvive(doubles: Doubles)
    ensures Parsed(BinaryImage(Integer(200), doubles), doubles) == Ok(Integer(-56))
  {
    hide Parsed, BinaryImage, BigEndian;
    LeafImageSize(Integer(200), doubles);
    ParsedImageIsNormal(Integer(200), doubles);
  }
}
