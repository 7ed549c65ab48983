/** Whole archives: the skeleton around the object table, written and read as a binary plist. */
module ArchiveFile {
  import opened Words
  import opened Dictionaries
  import opened Plists
  import opened BinaryFormat
  import opened BinaryWriter
  import opened BinaryDecoder
  import opened BinaryRoundTrip
  import opened KeyedArchive
  import opened ArchiveTables
  import opened ArchiveUids

  const ARCHIVER_KEY: Bytes := Ascii("$archiver")
  const OBJECTS_KEY: Bytes := Ascii("$objects")
  const TOP_KEY: Bytes := Ascii("$top")
  const VERSION_KEY: Bytes := Ascii("$version")
  const ROOT_KEY: Bytes := Ascii("root")

  /** The object table of an archive: the null placeholder and then the value in slot 1. */
  function ObjectsOf(value: Plist): seq<Plist> {
    Stored(value, [String(NULL)])
  }

  function Skeleton(objects: seq<Plist>, root: nat): Plist {
    Dictionary([
      Entry(ARCHIVER_KEY, String(ARCHIVER)),
      Entry(OBJECTS_KEY, Array(objects)),
      Entry(TOP_KEY, Dictionary([Entry(ROOT_KEY, Ref(root))])),
      Entry(VERSION_KEY, Integer(VERSION))])
  }

  /** The file an archive of `value` is. */
  function ArchiveImage(value: Plist, doubles: Doubles): Bytes {
    BinaryImage(Skeleton(ObjectsOf(value), 1), doubles)
  }

  /** What an archive's plist means: its root resolved over its object table. */
  function Rooted(parsed: Plist): Result<Plist> {
    var archiver, version, objects := parsed.Find(ARCHIVER_KEY), parsed.Find(VERSION_KEY), parsed.Find(OBJECTS_KEY);
    var top := parsed.Find(TOP_KEY);
    var root := if top.Some? then top.value.Find(ROOT_KEY) else None;
    if !parsed.Dictionary? || archiver == None || archiver.value.StringOr() != ARCHIVER then Err(Protocol)
    else if version == None || version.value != Integer(VERSION) then Err(Protocol)
    else if objects == None || !objects.value.Array? then Err(Protocol)
    else if root == None || !root.value.Uid? then Err(Protocol)
    else Resolved(root.value, objects.value.items, 0)
  }

  /** What an archive's bytes mean. */
  function Unarchived(bytes: Bytes, doubles: Doubles): Result<Plist> {
    var parsed := Parsed(bytes, doubles);
    if parsed.Ok? then Rooted(parsed.value) else parsed
  }

  // ---------------------------------------------------------------------------
  // Writing and reading
  // ---------------------------------------------------------------------------

  lemma SkeletonKeysAscend()
    ensures Less(ARCHIVER_KEY, OBJECTS_KEY) && Less(OBJECTS_KEY, TOP_KEY) && Less(TOP_KEY, VERSION_KEY)
    ensures Less(ARCHIVER_KEY, TOP_KEY) && Less(ARCHIVER_KEY, VERSION_KEY) && Less(OBJECTS_KEY, VERSION_KEY)
    ensures ARCHIVER_KEY != VERSION_KEY && ARCHIVER_KEY != OBJECTS_KEY && ARCHIVER_KEY != TOP_KEY
    ensures OBJECTS_KEY != TOP_KEY && OBJECTS_KEY != VERSION_KEY && TOP_KEY != VERSION_KEY
    ensures !Less(TOP_KEY, ARCHIVER_KEY) && !Less(OBJECTS_KEY, ARCHIVER_KEY)
  {
    hide Less;
    var a, o, t, v := ARCHIVER_KEY, OBJECTS_KEY, TOP_KEY, VERSION_KEY;
    assert a[..1] == o[..1] == t[..1] == v[..1];
    LessAt(a, o, 1);
    LessAt(o, t, 1);
    LessAt(t, v, 1);
    LessAt(a, t, 1);
    LessAt(a, v, 1);
    LessAt(o, v, 1);
  }

  /** The skeleton's members are emplaced out of key order and come out in order. */
  lemma SkeletonBuilt(archiver: Plist, objects: Plist, top: Plist, version: Plist)
    ensures var s := Emplace(Emplace([], VERSION_KEY, version), ARCHIVER_KEY, archiver);
            Emplace(Emplace(s, TOP_KEY, top), OBJECTS_KEY, objects) ==
            [Entry(ARCHIVER_KEY, archiver), Entry(OBJECTS_KEY, objects),
             Entry(TOP_KEY, top), Entry(VERSION_KEY, version)]
  {
    hide Less, Ascii;
    SkeletonKeysAscend();
    var a, o := Entry(ARCHIVER_KEY, archiver), Entry(OBJECTS_KEY, objects);
    var t, v := Entry(TOP_KEY, top), Entry(VERSION_KEY, version);
    assert Emplace([v], ARCHIVER_KEY, archiver) == [a, v];
    assert [a, v][1..] == [v];
    assert Emplace([a, v], TOP_KEY, top) == [a, t, v];
    assert [a, t, v][1..] == [t, v];
    assert Emplace([a, t, v], OBJECTS_KEY, objects) == [a, o, t, v];
  }

  method Archive(value: Plist, doubles: Doubles) returns (bytes: Bytes)
    ensures bytes == ArchiveImage(value, doubles)
  {
    hide Less, BinaryImage, Ascii, Stored;
    var table := new ObjectTable();
    var root := table.AppendObject(value);
    var top := Dictionary(Emplace([], ROOT_KEY, Ref(root)));
    var skeleton := Emplace([], VERSION_KEY, Integer(VERSION));
    skeleton := Emplace(skeleton, ARCHIVER_KEY, String(ARCHIVER));
    skeleton := Emplace(skeleton, TOP_KEY, top);
    skeleton := Emplace(skeleton, OBJECTS_KEY, Array(table.objects));
    SkeletonBuilt(String(ARCHIVER), Array(table.objects), top, Integer(VERSION));
    bytes := ToBinary(Dictionary(skeleton), doubles);
  }

  method Unarchive(bytes: Bytes, doubles: Doubles) returns (r: Result<Plist>)
    ensures r == Unarchived(bytes, doubles)
  {
    hide Parsed, Resolved, Ascii, Dictionaries.Find;
    var parsed := ParseBinary(bytes, doubles);
    if parsed.Err? {
      return Err(parsed.error);
    }
    var archiver := parsed.value.Find(ARCHIVER_KEY);
    if !parsed.value.Dictionary? || archiver == None || archiver.value.StringOr() != ARCHIVER {
      return Err(Protocol);
    }
    var version := parsed.value.Find(VERSION_KEY);
    if version == None || version.value != Integer(VERSION) {
      return Err(Protocol);
    }
    var objects := parsed.value.Find(OBJECTS_KEY);
    if objects == None || !objects.value.Array? {
      return Err(Protocol);
    }
    var top := parsed.value.Find(TOP_KEY);
    var root := if top.Some? then top.value.Find(ROOT_KEY) else None;
    if root == None || !root.value.Uid? {
      return Err(Protocol);
    }
    r := Resolve(root.value, objects.value.items, 0);
  }

  // ---------------------------------------------------------------------------
  // The skeleton leads back to the stored value
  // ---------------------------------------------------------------------------

  lemma SkeletonMembers(objects: seq<Plist>, root: nat)
    ensures var s := Skeleton(objects, root);
            && s.Find(ARCHIVER_KEY) == Some(String(ARCHIVER)) && s.Find(VERSION_KEY) == Some(Integer(VERSION))
            && s.Find(OBJECTS_KEY) == Some(Array(objects))
            && s.Find(TOP_KEY) == Some(Dictionary([Entry(ROOT_KEY, Ref(root))]))
            && Dictionary([Entry(ROOT_KEY, Ref(root))]).Find(ROOT_KEY) == Some(Ref(root))
  {
    hide Ascii, Less, Ref, Dictionaries.Find;
    SkeletonKeysAscend();
    var entries := Skeleton(objects, root).entries;
    FindAt(entries, 0);
    FindAt(entries, 1);
    FindAt(entries, 2);
    FindAt(entries, 3);
    FindAt([Entry(ROOT_KEY, Ref(root))], 0);
  }

  /** An archive's plist resolves to its value exactly when no node lies inside more than 31 containers. */
  lemma SkeletonResolves(value: Plist)
    requires UidFree(value) && value.WellFormed() && |ObjectsOf(value)| < TWO_TO_THE_64
    ensures Rooted(Skeleton(ObjectsOf(value), 1)) == if Nesting(value) <= 31 then Ok(value) else Err(Protocol)
  {
    hide Ascii, Resolved, ResolvedObject, Stored, Nesting, FitsAt, Dictionaries.Find, Skeleton;
    var objects := ObjectsOf(value);
    SkeletonMembers(objects, 1);
    SkeletonIsDictionary(objects, 1);
    StoredResolves(value, [String(NULL)], objects, 1);
    ResolveRef(1, objects, 0);
    FitsIsNesting(value, 1);
  }

  lemma SkeletonIsDictionary(objects: seq<Plist>, root: nat)
    ensures Skeleton(objects, root).Dictionary? && Ref(root).Uid?
    ensures String(ARCHIVER).StringOr() == ARCHIVER
  {
  }

  // ---------------------------------------------------------------------------
  // Archiving commutes with the normal form the binary codec leaves
  // ---------------------------------------------------------------------------

  function NormalAll(objects: seq<Plist>, doubles: Doubles): (r: seq<Plist>)
    ensures |r| == |objects| && forall i | 0 <= i < |r| :: r[i] == Normal(objects[i], doubles)
  {
    seq(|objects|, i requires 0 <= i < |objects| => Normal(objects[i], doubles))
  }

  lemma NormalElement(value: Plist, doubles: Doubles)
    ensures Arity(Normal(value, doubles)) == Arity(value) && Normal(value, doubles).Container() == value.Container()
    ensures value.Array? ==> Normal(value, doubles).Array?
    ensures value.Dictionary? ==> Normal(value, doubles).Dictionary?
    ensures forall i | 0 <= i < Arity(value) ::
              Element(Normal(value, doubles), i) == Normal(Element(value, i), doubles)
    ensures value.Dictionary? ==> forall i | 0 <= i < Arity(value) ::
              Normal(value, doubles).entries[i].key == value.entries[i].key
  {
  }

  /** A list of references or strings is its own normal form. */
  lemma NormalOfPlain(items: seq<Plist>, doubles: Doubles)
    requires forall i | 0 <= i < |items| :: items[i].Uid? || items[i].String?
    ensures Normal(Array(items), doubles) == Array(items)
  {
    hide Normal;
    NormalArray(Array(items), doubles);
    forall i | 0 <= i < |items| ensures Normal(items[i], doubles) == items[i] {
      NormalLeaf(items[i], doubles);
    }
    assert Normal(Array(items), doubles).items == items;
  }

  lemma NormalClass(name: Bytes, superclass: Bytes, doubles: Doubles)
    ensures Normal(ClassDictionary(name, superclass), doubles) == ClassDictionary(name, superclass)
  {
    hide Ascii, Normal;
    NormalOfPlain([String(name), String(superclass)], doubles);
    NormalLeaf(String(name), doubles);
    NormalDictionary(ClassDictionary(name, superclass), doubles);
    assert Normal(ClassDictionary(name, superclass), doubles).entries == ClassDictionary(name, superclass).entries;
  }

  lemma PreparedNormal(value: Plist, objects: seq<Plist>, doubles: Doubles)
    requires value.Container()
    ensures (NormalElement(value, doubles);
             NormalAll(Prepared(value, objects), doubles)
          == Prepared(Normal(value, doubles), NormalAll(objects, doubles)))
  {
    hide ClassDictionary, Ascii;
    NormalElement(value, doubles);
    NormalClass(NS_ARRAY, NS_OBJECT, doubles);
    NormalClass(NS_DICTIONARY, NS_OBJECT, doubles);
  }

  lemma {:induction false} StoredNormal(value: Plist, objects: seq<Plist>, doubles: Doubles)
    ensures NormalAll(Stored(value, objects), doubles) == Stored(Normal(value, doubles), NormalAll(objects, doubles))
    decreases value, Arity(value) + 1
  {
    hide Normal, Wrapper, Stored, Element;
    NormalElement(value, doubles);
    StoredUnfolded(value, objects);
    StoredUnfolded(Normal(value, doubles), NormalAll(objects, doubles));
    if value.Container() {
      forall i | 0 <= i <= Arity(value)
        ensures NormalAll(StoredElements(value, i, objects), doubles)
             == StoredElements(Normal(value, doubles), i, NormalAll(objects, doubles))
      {
        StoredElementsNormal(value, i, objects, doubles);
      }
      WrapperNormal(value, objects, doubles);
    }
  }

  lemma {:induction false} StoredElementsNormal(value: Plist, count: nat, objects: seq<Plist>, doubles: Doubles)
    requires value.Container() && count <= Arity(value)
    ensures (NormalElement(value, doubles);
             NormalAll(StoredElements(value, count, objects), doubles)
          == StoredElements(Normal(value, doubles), count, NormalAll(objects, doubles)))
    decreases value, count
  {
    hide Normal, Stored, Element, Prepared;
    NormalElement(value, doubles);
    if count == 0 {
      PreparedNormal(value, objects, doubles);
    } else {
      StoredElementsNormal(value, count - 1, objects, doubles);
      StoredNormal(Element(value, count - 1), StoredElements(value, count - 1, objects), doubles);
    }
  }

  /** A wrapper holds only references, whose slots are the same in both tables. */
  lemma WrapperNormal(value: Plist, objects: seq<Plist>, doubles: Doubles)
    requires value.Container()
    requires (NormalElement(value, doubles);
              forall i | 0 <= i <= Arity(value) ::
                NormalAll(StoredElements(value, i, objects), doubles) ==
                StoredElements(Normal(value, doubles), i, NormalAll(objects, doubles)))
    ensures (NormalElement(value, doubles);
             Normal(Wrapper(value, objects), doubles) == Wrapper(Normal(value, doubles), NormalAll(objects, doubles)))
  {
    hide Normal, StoredElements, Ascii, Element;
    NormalElement(value, doubles);
    var after := Normal(value, doubles);
    var base := NormalAll(objects, doubles);
    var refs := ElementUids(value, objects);
    forall i | 0 <= i < |refs| ensures ElementUids(after, base)[i] == refs[i] {
      assert |StoredElements(after, i, base)| == |NormalAll(StoredElements(value, i, objects), doubles)|;
    }
    assert ElementUids(after, base) == refs;
    var w := Wrapper(value, objects);
    assert value.Dictionary? ==> KeyUids(after, base) == KeyUids(value, objects);
    assert w == Wrapper(after, base);
    PlainDictionaryNormal(w, doubles);
  }

  /** A dictionary of references and lists of references is its own normal form. */
  lemma PlainDictionaryNormal(w: Plist, doubles: Doubles)
    requires w.Dictionary?
    requires forall i | 0 <= i < |w.entries| ::
               w.entries[i].value.Uid? ||
               (w.entries[i].value.Array? &&
                forall j | 0 <= j < |w.entries[i].value.items| :: w.entries[i].value.items[j].Uid?)
    ensures Normal(w, doubles) == w
  {
    hide Normal;
    NormalDictionary(w, doubles);
    forall i | 0 <= i < |w.entries| ensures Normal(w, doubles).entries[i] == w.entries[i] {
      if w.entries[i].value.Uid? {
        NormalLeaf(w.entries[i].value, doubles);
      } else {
        NormalOfPlain(w.entries[i].value.items, doubles);
      }
    }
    assert Normal(w, doubles).entries == w.entries;
  }

  lemma SkeletonNormal(objects: seq<Plist>, root: nat, doubles: Doubles)
    ensures Normal(Skeleton(objects, root), doubles) == Skeleton(NormalAll(objects, doubles), root)
  {
    hide Normal, Ascii;
    var s := Skeleton(objects, root);
    NormalDictionary(s, doubles);
    NormalLeaf(String(ARCHIVER), doubles);
    NormalLeaf(Integer(VERSION), doubles);
    NormalArray(Array(objects), doubles);
    assert Normal(Array(objects), doubles).items == NormalAll(objects, doubles);
    PlainDictionaryNormal(Dictionary([Entry(ROOT_KEY, Ref(root))]), doubles);
    assert Normal(s, doubles).entries == Skeleton(NormalAll(objects, doubles), root).entries;
  }

  // ---------------------------------------------------------------------------
  // What archiving needs of a value is kept by its normal form and its table
  // ---------------------------------------------------------------------------

  lemma {:induction false} NormalKeepsOrder(value: Plist, doubles: Doubles)
    requires value.WellFormed()
    ensures Normal(value, doubles).WellFormed()
    decreases value
  {
    hide Normal, Less;
    NormalElement(value, doubles);
    NormalLeafOrSame(value, doubles);
    var after := Normal(value, doubles);
    forall i | 0 <= i < Arity(value) ensures Element(after, i).WellFormed() {
      NormalKeepsOrder(Element(value, i), doubles);
    }
    if value.Array? {
      assert forall i | 0 <= i < Arity(value) :: after.items[i] == Element(after, i);
    } else if value.Dictionary? {
      assert forall i | 0 <= i < Arity(value) :: after.entries[i].value == Element(after, i);
      assert Sorted(after.entries);
    }
  }

  /** A leaf and an array of leaves hold no dictionary. */
  lemma PlainWellFormed(items: seq<Plist>)
    requires forall i | 0 <= i < |items| :: !items[i].Container()
    ensures AllWellFormed(items) && Array(items).WellFormed()
  {
    assert forall i | 0 <= i < |items| :: items[i].WellFormed();
  }

  lemma NormalLeafOrSame(value: Plist, doubles: Doubles)
    ensures !value.Container() ==> Normal(value, doubles) == Reread(value, doubles)
  {
  }

  lemma {:induction false} NormalKeepsUidFree(value: Plist, doubles: Doubles)
    requires UidFree(value)
    ensures UidFree(Normal(value, doubles))
    decreases value
  {
    hide Normal, Element;
    NormalElement(value, doubles);
    NormalLeafOrSame(value, doubles);
    forall i | 0 <= i < Arity(value) ensures UidFree(Element(Normal(value, doubles), i)) {
      NormalKeepsUidFree(Element(value, i), doubles);
    }
  }

  lemma {:induction false} NormalKeepsNesting(value: Plist, doubles: Doubles)
    ensures Nesting(Normal(value, doubles)) == Nesting(value)
    decreases value, Arity(value) + 1
  {
    hide Normal, Element;
    NormalElement(value, doubles);
    NormalKeepsNestingOf(value, Arity(value), doubles);
  }

  lemma {:induction false} NormalKeepsNestingOf(value: Plist, count: nat, doubles: Doubles)
    requires count <= Arity(value)
    ensures (NormalElement(value, doubles); NestingOf(Normal(value, doubles), count) == NestingOf(value, count))
    decreases value, count
  {
    hide Normal, Element;
    NormalElement(value, doubles);
    if count > 0 {
      NormalKeepsNestingOf(value, count - 1, doubles);
      NormalKeepsNesting(Element(value, count - 1), doubles);
    }
  }

  ghost predicate AllWellFormed(objects: seq<Plist>) {
    forall i | 0 <= i < |objects| :: objects[i].WellFormed()
  }

  lemma {:induction false} StoredWellFormed(value: Plist, objects: seq<Plist>)
    requires value.WellFormed() && AllWellFormed(objects)
    ensures AllWellFormed(Stored(value, objects))
    decreases value, Arity(value) + 1
  {
    hide Wrapper, Stored, StoredElements, Plist.WellFormed;
    StoredUnfolded(value, objects);
    if value.Container() {
      StoredElementsWellFormed(value, Arity(value), objects);
      WrapperWellFormed(value, objects);
    }
  }

  lemma {:induction false} StoredElementsWellFormed(value: Plist, count: nat, objects: seq<Plist>)
    requires value.WellFormed() && AllWellFormed(objects) && value.Container() && count <= Arity(value)
    ensures AllWellFormed(StoredElements(value, count, objects))
    decreases value, count
  {
    hide Stored, Prepared;
    if count == 0 {
      PreparedWellFormed(value, objects);
    } else {
      StoredElementsWellFormed(value, count - 1, objects);
      StoredWellFormed(Element(value, count - 1), StoredElements(value, count - 1, objects));
    }
  }

  lemma PreparedWellFormed(value: Plist, objects: seq<Plist>)
    requires AllWellFormed(objects) && value.Container()
    ensures AllWellFormed(Prepared(value, objects))
  {
    hide ClassDictionary;
    ClassWellFormed(NS_ARRAY);
    ClassWellFormed(NS_DICTIONARY);
  }

  lemma ClassWellFormed(name: Bytes)
    ensures ClassDictionary(name, NS_OBJECT).WellFormed()
  {
    hide Less, Ascii;
    ClassKeysAscend();
    PlainWellFormed([String(name), String(NS_OBJECT)]);
    var entries := ClassDictionary(name, NS_OBJECT).entries;
    assert entries[0].value.WellFormed() && entries[1].value.WellFormed();
  }

  lemma ClassKeysAscend()
    ensures Less(CLASSES, CLASS_NAME)
  {
    hide Less;
    assert CLASSES[..6] == CLASS_NAME[..6];
    LessAt(CLASSES, CLASS_NAME, 6);
  }

  lemma WrapperWellFormed(value: Plist, objects: seq<Plist>)
    requires value.Container()
    ensures Wrapper(value, objects).WellFormed()
  {
    hide Less, ElementUids, KeyUids, Ascii;
    WrapperKeysAscend();
    PlainWellFormed(ElementUids(value, objects));
    if value.Dictionary? {
      PlainWellFormed(KeyUids(value, objects));
    }
    var entries := Wrapper(value, objects).entries;
    assert forall i | 0 <= i < |entries| :: entries[i].value.WellFormed();
  }

  lemma SkeletonWellFormed(objects: seq<Plist>, root: nat)
    requires AllWellFormed(objects)
    ensures Skeleton(objects, root).WellFormed()
  {
    hide Less, Ascii;
    SkeletonKeysAscend();
    assert Dictionary([Entry(ROOT_KEY, Ref(root))]).WellFormed();
    assert Array(objects).WellFormed();
  }

  // ---------------------------------------------------------------------------
  // The whole archive
  // ---------------------------------------------------------------------------

  /** What unarchiving an archive comes to: the table of the normal form, resolved from its root. */
  lemma ArchiveReads(value: Plist, doubles: Doubles)
    requires value.WellFormed()
    requires |ObjectsOf(value)| < TWO_TO_THE_64 && |ArchiveImage(value, doubles)| < TWO_TO_THE_63
    ensures Unarchived(ArchiveImage(value, doubles), doubles) == Rooted(Skeleton(ObjectsOf(Normal(value, doubles)), 1))
    ensures |ObjectsOf(Normal(value, doubles))| == |ObjectsOf(value)|
  {
    hide Normal, Parsed, BinaryImage, Rooted, Skeleton, Stored, Plist.WellFormed, Ascii;
    var objects := ObjectsOf(value);
    PlainTableWellFormed(doubles);
    StoredWellFormed(value, [String(NULL)]);
    SkeletonWellFormed(objects, 1);
    ParsedImageIsNormal(Skeleton(objects, 1), doubles);
    SkeletonNormal(objects, 1, doubles);
    StoredNormal(value, [String(NULL)], doubles);
  }

  lemma PlainTableWellFormed(doubles: Doubles)
    ensures AllWellFormed([String(NULL)]) && NormalAll([String(NULL)], doubles) == [String(NULL)]
  {
    NormalLeaf(String(NULL), doubles);
  }

  /**
   Unarchiving an archive gives the normal form of its value exactly when no node of the value
   lies inside more than 31 containers, and an error otherwise.
   */
  lemma ArchiveRoundTrip(value: Plist, doubles: Doubles)
    requires UidFree(value) && value.WellFormed()
    requires |ObjectsOf(value)| < TWO_TO_THE_64 && |ArchiveImage(value, doubles)| < TWO_TO_THE_63
    ensures Unarchived(ArchiveImage(value, doubles), doubles)
         == if Nesting(value) <= 31 then Ok(Normal(value, doubles)) else Err(Protocol)
  {
    hide Normal, Unarchived, ArchiveImage, Rooted, Skeleton, Stored, Nesting, UidFree, Plist.WellFormed;
    ArchiveReads(value, doubles);
    NormalKeepsOrder(value, doubles);
    NormalKeepsUidFree(value, doubles);
    NormalKeepsNesting(value, doubles);
    SkeletonResolves(Normal(value, doubles));
  }

  /** No archive gives back a value that holds a `Uid`, even where the value archived held one. */
  lemma UidsNeverComeBack(value: Plist, doubles: Doubles)
    requires value.WellFormed()
    requires |ObjectsOf(value)| < TWO_TO_THE_64 && |ArchiveImage(value, doubles)| < TWO_TO_THE_63
    ensures var r := Unarchived(ArchiveImage(value, doubles), doubles); r.Ok? ==> UidFree(r.value)
  {
    hide Normal, Unarchived, ArchiveImage, Skeleton, Stored, UidFree, Plist.WellFormed, AllWritten, Resolved, Ascii,
         Dictionaries.Find;
    ArchiveReads(value, doubles);
    var objects := ObjectsOf(Normal(value, doubles));
    SkeletonMembers(objects, 1);
    SkeletonIsDictionary(objects, 1);
    TableIsWritten(Normal(value, doubles), String(NULL));
    LeafIsWritten(Ref(1), objects);
    ResolvesUidFree(Ref(1), objects, 0);
  }

  /** The exact domain of the archive round trip. */
  lemma ArchiveRoundTripExactly(value: Plist, doubles: Doubles)
    requires value.WellFormed()
    requires |ObjectsOf(value)| < TWO_TO_THE_64 && |ArchiveImage(value, doubles)| < TWO_TO_THE_63
    ensures Unarchived(ArchiveImage(value, doubles), doubles) == Ok(value)
       <==> UidFree(value) && Nesting(value) <= 31 && Survives(value, doubles)
  {
    hide Unarchived, ArchiveImage, Nesting, Survives, Normal, UidFree, Plist.WellFormed;
    if UidFree(value) {
      ArchiveRoundTrip(value, doubles);
      NormalIsIdentity(value, doubles);
    } else {
      UidsNeverComeBack(value, doubles);
    }
  }

  /** `depth` arrays, each the only item of the next, around null. */
  function Nested(depth: nat): Plist {
    if depth == 0 then Null else Array([Nested(depth - 1)])
  }

  lemma {:induction false} NestedDepth(depth: nat)
    ensures Nesting(Nested(depth)) == depth && UidFree(Nested(depth)) && Nested(depth).WellFormed()
  {
    if depth > 0 {
      NestedDepth(depth - 1);
      assert Element(Nested(depth), 0) == Nested(depth - 1);
      assert NestingOf(Nested(depth), 0) == 0;
    }
  }

  /** Null inside 32 arrays can be archived and not unarchived. */
  lemma ThirtyTwoArraysDoNotSurvive(doubles: Doubles)
    requires |ObjectsOf(Nested(32))| < TWO_TO_THE_64 && |ArchiveImage(Nested(32), doubles)| < TWO_TO_THE_63
    ensures Unarchived(ArchiveImage(Nested(32), doubles), doubles) == Err(Protocol)
  {
    hide Unarchived, ArchiveImage, Nesting, Normal, UidFree, Plist.WellFormed, Nested;
    NestedDepth(32);
    ArchiveRoundTrip(Nested(32), doubles);
  }

  /** A uid comes back as whatever slot of the archive it happens to name. */
  lemma UidZeroComesBackAsNull(doubles: Doubles)
    requires |ArchiveImage(Uid(0), doubles)| < TWO_TO_THE_63
    ensures Unarchived(ArchiveImage(Uid(0), doubles), doubles) == Ok(String(NULL))
  {
    hide Unarchived, ArchiveImage, Skeleton, Normal, Ascii, Dictionaries.Find, ResolvedInstance;
    ArchiveReads(Uid(0), doubles);
    NormalLeaf(Uid(0), doubles);
    var objects := ObjectsOf(Uid(0));
    assert objects == [String(NULL), Uid(0)];
    SkeletonMembers(objects, 1);
    SkeletonIsDictionary(objects, 1);
    assert Resolved(Uid(0), objects, 1) == Resolved(String(NULL), objects, 2) == Ok(String(NULL));
  }

  // ---------------------------------------------------------------------------
  // Archives of any archiver
  // ---------------------------------------------------------------------------

  /**
   "$archiver" is "NSKeyedArchiver", "$version" is 100000, "$objects" is the table and the
   "root" of "$top" refers to a slot.
   */
  ghost predicate IsArchive(p: Plist, objects: seq<Plist>, root: Word64) {
    && p.Find([0x24, 0x61, 0x72, 0x63, 0x68, 0x69, 0x76, 0x65, 0x72]) ==
       Some(String([0x4e, 0x53, 0x4b, 0x65, 0x79, 0x65, 0x64, 0x41, 0x72, 0x63, 0x68, 0x69, 0x76, 0x65, 0x72]))
    && p.Find([0x24, 0x76, 0x65, 0x72, 0x73, 0x69, 0x6f, 0x6e]) == Some(Integer(100000))
    && p.Find([0x24, 0x6f, 0x62, 0x6a, 0x65, 0x63, 0x74, 0x73]) == Some(Array(objects))
    && p.Find([0x24, 0x74, 0x6f, 0x70]).Some?
    && p.Find([0x24, 0x74, 0x6f, 0x70]).value.Find([0x72, 0x6f, 0x6f, 0x74]) == Some(Uid(root))
  }

  lemma ArchiveKeyBytes()
    ensures ARCHIVER_KEY == [0x24, 0x61, 0x72, 0x63, 0x68, 0x69, 0x76, 0x65, 0x72]
    ensures VERSION_KEY == [0x24, 0x76, 0x65, 0x72, 0x73, 0x69, 0x6f, 0x6e]
    ensures OBJECTS_KEY == [0x24, 0x6f, 0x62, 0x6a, 0x65, 0x63, 0x74, 0x73]
    ensures TOP_KEY == [0x24, 0x74, 0x6f, 0x70] && ROOT_KEY == [0x72, 0x6f, 0x6f, 0x74]
  {
  }

  lemma ArchiverBytes()
    ensures ARCHIVER ==
            [0x4e, 0x53, 0x4b, 0x65, 0x79, 0x65, 0x64, 0x41, 0x72, 0x63, 0x68, 0x69, 0x76, 0x65, 0x72]
  {
  }

  /** A plist is resolved from its root if and only if it is an archive. */
  lemma RootedExactly(p: Plist, value: Plist)
    ensures Rooted(p) == Ok(value) <==>
            exists objects: seq<Plist>, root: Word64 ::
              IsArchive(p, objects, root) && Resolved(Uid(root), objects, 0) == Ok(value)
  {
    hide Resolved, Ascii, Dictionaries.Find;
    ArchiveKeyBytes();
    ArchiverBytes();
    if Rooted(p) == Ok(value) {
      var objects := p.Find(OBJECTS_KEY).value.items;
      var root := p.Find(TOP_KEY).value.Find(ROOT_KEY).value.index;
      assert IsArchive(p, objects, root);
    }
  }

  lemma ArchiveIsRooted(p: Plist, objects: seq<Plist>, root: Word64)
    requires IsArchive(p, objects, root)
    ensures Rooted(p) == Resolved(Uid(root), objects, 0)
  {
    hide Resolved, Ascii, Dictionaries.Find;
    ArchiveKeyBytes();
    ArchiverBytes();
  }

  /**
   An archive is given back as the value its table holds, whoever wrote it, exactly when no
   node of the value lies inside more than 31 containers.
   */
  lemma ForeignArchive(bytes: Bytes, doubles: Doubles, p: Plist, objects: seq<Plist>, root: Word64, value: Plist)
    requires Parsed(bytes, doubles) == Ok(p) && IsArchive(p, objects, root)
    requires Keeps(objects, root, value) && value.WellFormed()
    ensures Unarchived(bytes, doubles) == if Nesting(value) <= 31 then Ok(value) else Err(Protocol)
  {
    hide Parsed, Rooted, IsArchive, Keeps, Resolved, ResolvedObject, Nesting, FitsAt, Plist.WellFormed;
    ArchiveIsRooted(p, objects, root);
    HeldInTable(objects, root, value);
    ResolveSlot(Uid(root), objects, 0);
    HeldResolves(objects, root, value, 1);
    FitsIsNesting(value, 1);
  }

  /** What the archiver writes around its table is such an archive, its first slot "$null". */
  lemma SkeletonIsArchive(value: Plist)
    ensures IsArchive(Skeleton(ObjectsOf(value), 1), ObjectsOf(value), 1)
    ensures ObjectsOf(value)[0] == String([0x24, 0x6e, 0x75, 0x6c, 0x6c])
  {
    hide Ascii, Stored, Skeleton, Dictionaries.Find;
    ArchiveKeyBytes();
    ArchiverBytes();
    NullBytes();
    SkeletonMembers(ObjectsOf(value), 1);
    StoredKeeps(value, [String(NULL)]);
    assert ObjectsOf(value)[0] == [String(NULL)][0];
  }

  lemma NullBytes()
    ensures NULL == [0x24, 0x6e, 0x75, 0x6c, 0x6c]
  {
  }
}
