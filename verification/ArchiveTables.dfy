/**
 What any table of a keyed archive holds, whoever wrote it, and what its references resolve
 to. Keys and class names are written out in bytes.
 */
module ArchiveTables {
  import opened Words
  import opened Dictionaries
  import opened Plists
  import opened KeyedArchive

  // "$class", "$classname", "NS.keys" and "NS.objects"
  const CLASS_BYTES: Bytes := [0x24, 0x63, 0x6c, 0x61, 0x73, 0x73]
  const CLASS_NAME_BYTES: Bytes := [0x24, 0x63, 0x6c, 0x61, 0x73, 0x73, 0x6e, 0x61, 0x6d, 0x65]
  const KEYS_BYTES: Bytes := [0x4e, 0x53, 0x2e, 0x6b, 0x65, 0x79, 0x73]
  const OBJECTS_BYTES: Bytes := [0x4e, 0x53, 0x2e, 0x6f, 0x62, 0x6a, 0x65, 0x63, 0x74, 0x73]

  /** "NSArray" or "NSMutableArray". */
  predicate ArrayName(name: Bytes) {
    || name == [0x4e, 0x53, 0x41, 0x72, 0x72, 0x61, 0x79]
    || name == [0x4e, 0x53, 0x4d, 0x75, 0x74, 0x61, 0x62, 0x6c, 0x65, 0x41, 0x72, 0x72, 0x61, 0x79]
  }

  /** "NSDictionary" or "NSMutableDictionary". */
  predicate DictionaryName(name: Bytes) {
    || name == [0x4e, 0x53, 0x44, 0x69, 0x63, 0x74, 0x69, 0x6f, 0x6e, 0x61, 0x72, 0x79]
    || name == [0x4e, 0x53, 0x4d, 0x75, 0x74, 0x61, 0x62, 0x6c, 0x65,
                0x44, 0x69, 0x63, 0x74, 0x69, 0x6f, 0x6e, 0x61, 0x72, 0x79]
  }

  lemma KeyBytes()
    ensures CLASS == CLASS_BYTES && CLASS_NAME == CLASS_NAME_BYTES
    ensures KEYS == KEYS_BYTES && OBJECTS == OBJECTS_BYTES
  {
  }

  lemma ArrayNames()
    ensures NS_ARRAY == [0x4e, 0x53, 0x41, 0x72, 0x72, 0x61, 0x79]
    ensures NS_MUTABLE_ARRAY ==
            [0x4e, 0x53, 0x4d, 0x75, 0x74, 0x61, 0x62, 0x6c, 0x65, 0x41, 0x72, 0x72, 0x61, 0x79]
  {
  }

  lemma PlainDictionaryName()
    ensures NS_DICTIONARY == [0x4e, 0x53, 0x44, 0x69, 0x63, 0x74, 0x69, 0x6f, 0x6e, 0x61, 0x72, 0x79]
  {
  }

  lemma MutableDictionaryName()
    ensures NS_MUTABLE_DICTIONARY ==
            [0x4e, 0x53, 0x4d, 0x75, 0x74, 0x61, 0x62, 0x6c, 0x65,
             0x44, 0x69, 0x63, 0x74, 0x69, 0x6f, 0x6e, 0x61, 0x72, 0x79]
  {
  }

  lemma NameBytes(name: Bytes)
    ensures IsArrayClass(name) <==> ArrayName(name)
    ensures IsDictionaryClass(name) <==> DictionaryName(name)
    ensures !(ArrayName(name) && DictionaryName(name))
  {
    hide Ascii;
    ArrayNames();
    PlainDictionaryName();
    MutableDictionaryName();
  }

  // ---------------------------------------------------------------------------
  // What a table holds
  // ---------------------------------------------------------------------------

  /** The name of the class an object refers to, if its reference leads to a slot. */
  function ClassOf(table: seq<Plist>, o: Plist): Option<Bytes> {
    var kind := o.Find(CLASS_BYTES);
    if kind == None || !kind.value.Uid? || kind.value.index >= |table| then None
    else
      var name := table[kind.value.index].Find(CLASS_NAME_BYTES);
      Some(if name.Some? && name.value.String? then name.value.text else [])
  }

  /** The reference list an object has under `key`. */
  function RefsOf(o: Plist, key: Bytes): Option<seq<Plist>> {
    var refs := o.Find(key);
    if refs.Some? && refs.value.Array? then Some(refs.value.items) else None
  }

  /** Slot `slot` of a table and the slots it leads to hold `value`, in whichever classes and order. */
  ghost predicate Keeps(table: seq<Plist>, slot: nat, value: Plist)
    decreases value
  {
    && slot < |table|
    && var o := table[slot];
    match value
    case Array(items) =>
      && o.Dictionary? && ClassOf(table, o).Some? && ArrayName(ClassOf(table, o).value)
      && RefsOf(o, OBJECTS_BYTES).Some?
      && var refs := RefsOf(o, OBJECTS_BYTES).value;
      && |refs| == |items|
      && forall i | 0 <= i < |items| :: refs[i].Uid? && Keeps(table, refs[i].index, items[i])
    case Dictionary(entries) =>
      && o.Dictionary? && ClassOf(table, o).Some? && DictionaryName(ClassOf(table, o).value)
      && RefsOf(o, KEYS_BYTES).Some? && RefsOf(o, OBJECTS_BYTES).Some?
      && var keys, refs := RefsOf(o, KEYS_BYTES).value, RefsOf(o, OBJECTS_BYTES).value;
      && |keys| == |refs| == |entries|
      && (forall i | 0 <= i < |entries| ::
            keys[i].Uid? && keys[i].index < |table| && table[keys[i].index] == String(entries[i].key))
      && forall i | 0 <= i < |entries| :: refs[i].Uid? && Keeps(table, refs[i].index, entries[i].value)
    case Uid(_) => false
    case _ => o == value
  }

  // ---------------------------------------------------------------------------
  // What is held resolves, within the nesting bound
  // ---------------------------------------------------------------------------

  lemma ResolveSlot(ref: Plist, table: seq<Plist>, depth: nat)
    requires ref.Uid? && ref.index < |table|
    ensures Resolved(ref, table, depth) ==
            if depth < MAX_DEPTH then ResolvedObject(table[ref.index], table, depth + 1) else Err(Protocol)
  {
    hide ResolvedInstance;
    if depth <= MAX_DEPTH {
      assert Resolved(ref, table, depth) == ResolvedObject(ref, table, depth);
      assert ResolvedObject(ref, table, depth) == Resolved(table[ref.index], table, depth + 1);
    }
  }

  lemma NamedIs(table: seq<Plist>, o: Plist, depth: nat)
    requires depth <= MAX_DEPTH && o.Dictionary? && ClassOf(table, o).Some?
    ensures ResolvedObject(o, table, depth) == ResolvedInstance(o, ClassOf(table, o).value, table, depth)
  {
    hide ResolvedInstance, Dictionaries.Find;
    KeyBytes();
  }

  /** An object of an array class is the array its references resolve to. */
  lemma ArrayObject(table: seq<Plist>, o: Plist, depth: nat)
    requires depth <= MAX_DEPTH && o.Dictionary? && ClassOf(table, o).Some? && ArrayName(ClassOf(table, o).value)
    ensures ResolvedObject(o, table, depth) ==
            match RefsOf(o, OBJECTS_BYTES) {
              case Some(refs) => ResolvedArray(ResolvedFirst(refs, |refs|, table, depth + 1))
              case None => Err(Protocol)
            }
  {
    hide ResolvedFirst, ResolvedPairs, ResolvedObject, Dictionaries.Find, IsArrayClass, IsDictionaryClass, ArrayName,
         DictionaryName;
    NamedIs(table, o, depth);
    NameBytes(ClassOf(table, o).value);
    KeyBytes();
  }

  /** An object of a dictionary class is the dictionary its two reference lists resolve to. */
  lemma DictionaryObject(table: seq<Plist>, o: Plist, depth: nat)
    requires depth <= MAX_DEPTH && o.Dictionary? && ClassOf(table, o).Some? && DictionaryName(ClassOf(table, o).value)
    ensures ResolvedObject(o, table, depth) ==
            var keys, refs := RefsOf(o, KEYS_BYTES), RefsOf(o, OBJECTS_BYTES);
            if keys.Some? && refs.Some? && |keys.value| == |refs.value|
            then ResolvedDictionary(ResolvedPairs(keys.value, refs.value, |refs.value|, table, depth + 1))
            else Err(Protocol)
  {
    hide ResolvedFirst, ResolvedPairs, ResolvedObject, Dictionaries.Find, IsArrayClass, IsDictionaryClass, ArrayName,
         DictionaryName;
    NamedIs(table, o, depth);
    NameBytes(ClassOf(table, o).value);
    KeyBytes();
  }

  /** An object of any other class, or whose class has no name, is left as it is. */
  lemma OtherClassesStay(table: seq<Plist>, o: Plist, depth: nat)
    requires depth <= MAX_DEPTH && o.Dictionary? && ClassOf(table, o).Some?
    requires !ArrayName(ClassOf(table, o).value) && !DictionaryName(ClassOf(table, o).value)
    ensures ResolvedObject(o, table, depth) == Ok(o)
  {
    hide ResolvedFirst, ResolvedPairs, ResolvedObject, Dictionaries.Find, IsArrayClass, IsDictionaryClass, ArrayName,
         DictionaryName;
    NamedIs(table, o, depth);
    NameBytes(ClassOf(table, o).value);
  }

  /** A dictionary without a class is a value; one whose class leads nowhere is an error. */
  lemma UnclassedObject(table: seq<Plist>, o: Plist, depth: nat)
    requires depth <= MAX_DEPTH && o.Dictionary? && ClassOf(table, o).None?
    ensures ResolvedObject(o, table, depth) == if o.Find(CLASS_BYTES) == None then Ok(o) else Err(Protocol)
  {
    hide ResolvedInstance, Dictionaries.Find;
    KeyBytes();
  }

  /**
   Whatever a table holds resolves to it when each of its nodes is reached within the bound,
   and to an error otherwise: of the mutable classes and of the plain ones, in any order.
   */
  lemma {:induction false} HeldResolves(table: seq<Plist>, slot: nat, value: Plist, depth: nat)
    requires Keeps(table, slot, value) && value.WellFormed() && depth <= MAX_DEPTH
    ensures ResolvedObject(table[slot], table, depth) == Outcome(value, depth)
    decreases value, 1
  {
    hide ResolvedFirst, ResolvedPairs, ResolvedInstance, ClassOf, RefsOf, ArrayName, DictionaryName, Less;
    var o := table[slot];
    FitsMeansAllFit(value, depth);
    if value.Container() {
      hide ResolvedObject, FitsAt;
      WholeSlices(value);
      if value.Array? {
        ArrayObject(table, o, depth);
        ItemsResolve(table, slot, value, Arity(value), depth);
      } else {
        DictionaryObject(table, o, depth);
        PairsResolve(table, slot, value, Arity(value), depth);
      }
    }
  }

  lemma HeldElement(table: seq<Plist>, slot: nat, value: Plist, i: nat)
    requires Keeps(table, slot, value) && i < Arity(value)
    ensures slot < |table|
    ensures RefsOf(table[slot], OBJECTS_BYTES).Some? && |RefsOf(table[slot], OBJECTS_BYTES).value| == Arity(value)
    ensures var ref := RefsOf(table[slot], OBJECTS_BYTES).value[i];
            ref.Uid? && Keeps(table, ref.index, Element(value, i))
  {
    hide ClassOf, RefsOf, ArrayName, DictionaryName;
  }

  lemma HeldInTable(table: seq<Plist>, slot: nat, value: Plist)
    requires Keeps(table, slot, value)
    ensures slot < |table|
    ensures value.Array? ==> RefsOf(table[slot], OBJECTS_BYTES).Some?
    ensures value.Dictionary? ==>
              && RefsOf(table[slot], OBJECTS_BYTES).Some? && RefsOf(table[slot], KEYS_BYTES).Some?
              && |RefsOf(table[slot], OBJECTS_BYTES).value| == |RefsOf(table[slot], KEYS_BYTES).value|
    ensures value.Container() ==> |RefsOf(table[slot], OBJECTS_BYTES).value| == Arity(value)
  {
    hide ClassOf, RefsOf, ArrayName, DictionaryName;
  }

  lemma {:induction false} ElementResolves(table: seq<Plist>, slot: nat, value: Plist, i: nat, depth: nat)
    requires Keeps(table, slot, value) && value.WellFormed() && depth <= MAX_DEPTH && i < Arity(value)
    ensures (HeldElement(table, slot, value, i);
             Resolved(RefsOf(table[slot], OBJECTS_BYTES).value[i], table, depth + 1) ==
             if FitsAt(Element(value, i), depth + 2) then Ok(Element(value, i)) else Err(Protocol))
    decreases value, 0, 0
  {
    hide Keeps, RefsOf, ResolvedObject, Resolved;
    HeldElement(table, slot, value, i);
    var refs := RefsOf(table[slot], OBJECTS_BYTES).value;
    assert |refs| == Arity(value);
    var ref := refs[i];
    HeldInTable(table, ref.index, Element(value, i));
    ResolveSlot(ref, table, depth + 1);
    NoFitBeyondBound(Element(value, i), depth + 2);
    if depth + 2 <= MAX_DEPTH {
      HeldResolves(table, ref.index, Element(value, i), depth + 2);
    }
  }

  lemma {:induction false} ItemsResolve(table: seq<Plist>, slot: nat, value: Plist, count: nat, depth: nat)
    requires Keeps(table, slot, value) && value.WellFormed() && depth <= MAX_DEPTH
    requires value.Array? && count <= Arity(value)
    ensures (HeldInTable(table, slot, value);
             ResolvedFirst(RefsOf(table[slot], OBJECTS_BYTES).value, count, table, depth + 1) ==
             if FirstFit(value, count, depth) then Ok(value.items[..count]) else Err(Protocol))
    decreases value, 0, count + 1
  {
    hide Keeps, RefsOf, ResolvedObject, Resolved, FitsAt, FirstFit, Plist.WellFormed;
    HeldInTable(table, slot, value);
    FirstFitStep(value, count, depth);
    if count > 0 {
      ItemsResolve(table, slot, value, count - 1, depth);
      ElementResolves(table, slot, value, count - 1, depth);
      assert value.items[..count] == value.items[..count - 1] + [value.items[count - 1]];
    }
  }

  lemma HeldKey(table: seq<Plist>, slot: nat, value: Plist, i: nat, depth: nat)
    requires Keeps(table, slot, value) && value.Dictionary? && i < Arity(value) && depth <= MAX_DEPTH
    ensures (HeldInTable(table, slot, value);
             Resolved(RefsOf(table[slot], KEYS_BYTES).value[i], table, depth + 1) ==
             if depth + 2 <= MAX_DEPTH then Ok(String(value.entries[i].key)) else Err(Protocol))
  {
    hide ClassOf, RefsOf, ArrayName, DictionaryName, Resolved, ResolvedInstance;
    HeldInTable(table, slot, value);
    ResolveSlot(RefsOf(table[slot], KEYS_BYTES).value[i], table, depth + 1);
  }

  lemma {:induction false} PairsResolve(table: seq<Plist>, slot: nat, value: Plist, count: nat, depth: nat)
    requires Keeps(table, slot, value) && value.WellFormed() && depth <= MAX_DEPTH
    requires value.Dictionary? && count <= Arity(value)
    ensures (HeldInTable(table, slot, value);
             ResolvedPairs(RefsOf(table[slot], KEYS_BYTES).value, RefsOf(table[slot], OBJECTS_BYTES).value, count,
                           table, depth + 1) ==
             if FirstFit(value, count, depth) then Ok(value.entries[..count]) else Err(Protocol))
    decreases value, 0, count + 1
  {
    hide Keeps, RefsOf, ResolvedObject, Resolved, FitsAt, FirstFit, Plist.WellFormed, Emplace, Less;
    HeldInTable(table, slot, value);
    FirstFitStep(value, count, depth);
    if count > 0 {
      PairsResolve(table, slot, value, count - 1, depth);
      ElementResolves(table, slot, value, count - 1, depth);
      HeldKey(table, slot, value, count - 1, depth);
      NoFitBeyondBound(Element(value, count - 1), depth + 2);
      NextEntry(value, count - 1);
      var entry := value.entries[count - 1];
      assert value.entries[..count] == value.entries[..count - 1] + [entry];
    }
  }

  // ---------------------------------------------------------------------------
  // What is stored is held
  // ---------------------------------------------------------------------------

  /** A table that keeps the slots a value was stored in holds the value. */
  lemma {:induction false} StoredIsHeld(value: Plist, objects: seq<Plist>, later: seq<Plist>)
    requires UidFree(value) && Retains(Stored(value, objects), |objects|, later) && |later| < TWO_TO_THE_64
    ensures Keeps(later, |objects|, value)
    decreases value
  {
    hide Stored, StoredElements, Wrapper, ClassOf, RefsOf, ArrayName, DictionaryName, Prepared;
    if value.Container() {
      hide Retains;
      ContainerSlots(value, objects, later);
      WrapperIs(value, objects, later);
      if value.Dictionary? {
        KeysAreSlots(value, objects, later);
      }
      forall i | 0 <= i < Arity(value)
        ensures |StoredElements(value, i, objects)| < TWO_TO_THE_64
        ensures Keeps(later, |StoredElements(value, i, objects)|, Element(value, i))
      {
        ElementRetained(value, i, objects, later);
        StoredIsHeld(Element(value, i), StoredElements(value, i, objects), later);
      }
      RefsAreSlots(value, objects);
    } else {
      LeafStored(value, objects, later);
    }
  }

  lemma LeafStored(value: Plist, objects: seq<Plist>, later: seq<Plist>)
    requires !value.Container() && Retains(Stored(value, objects), |objects|, later)
    ensures |objects| < |later| && later[|objects|] == value
  {
  }

  lemma RefsAreSlots(value: Plist, objects: seq<Plist>)
    requires value.Container()
    requires forall i | 0 <= i < Arity(value) :: |StoredElements(value, i, objects)| < TWO_TO_THE_64
    ensures forall i | 0 <= i < Arity(value) ::
              ElementUids(value, objects)[i] == Uid(|StoredElements(value, i, objects)|)
  {
    hide StoredElements;
  }

  lemma WrapperIs(value: Plist, objects: seq<Plist>, later: seq<Plist>)
    requires value.Container() && Retains(Stored(value, objects), |objects|, later) && |later| < TWO_TO_THE_64
    ensures var w := Wrapper(value, objects);
            && w.Dictionary? && ClassOf(later, w).Some?
            && (value.Array? ==> ArrayName(ClassOf(later, w).value))
            && (value.Dictionary? ==> DictionaryName(ClassOf(later, w).value))
            && RefsOf(w, OBJECTS_BYTES) == Some(ElementUids(value, objects))
            && (value.Dictionary? ==> RefsOf(w, KEYS_BYTES) == Some(KeyUids(value, objects)))
  {
    hide Stored, Retains, Wrapper, ElementUids, KeyUids, ClassDictionary, Plist.Find, ArrayName, DictionaryName, Ascii,
         ClassOf;
    ContainerSlots(value, objects, later);
    WrapperMembers(value, objects);
    KeyBytes();
    ClassFound(later, Wrapper(value, objects), |objects| + 1, if value.Array? then NS_ARRAY else NS_DICTIONARY);
    PlainNames();
  }

  lemma KeysAreSlots(value: Plist, objects: seq<Plist>, later: seq<Plist>)
    requires value.Dictionary? && Retains(Stored(value, objects), |objects|, later) && |later| < TWO_TO_THE_64
    ensures forall i | 0 <= i < Arity(value) ::
              var key := KeyUids(value, objects)[i];
              key.Uid? && key.index < |later| && later[key.index] == String(value.entries[i].key)
  {
    hide Stored, Retains, Wrapper, ClassDictionary, KeyUids, Ref;
    ContainerSlots(value, objects, later);
    forall i | 0 <= i < Arity(value)
      ensures var key := KeyUids(value, objects)[i];
              key.Uid? && key.index < |later| && later[key.index] == String(value.entries[i].key)
    {
      var slot := |objects| + 2 + i;
      SmallRef(slot);
      assert later[|objects| + 2 + i] == String(value.entries[i].key);
      assert KeyUids(value, objects)[i] == Uid(slot);
    }
  }

  lemma SmallRef(slot: nat)
    requires slot < TWO_TO_THE_64
    ensures Ref(slot) == Uid(slot)
  {
  }

  lemma PlainNames()
    ensures ArrayName(NS_ARRAY) && DictionaryName(NS_DICTIONARY)
  {
    hide Ascii;
    ArrayNames();
    PlainDictionaryName();
  }

  lemma ClassFound(table: seq<Plist>, o: Plist, index: nat, name: Bytes)
    requires index < |table| < TWO_TO_THE_64 && table[index] == ClassDictionary(name, NS_OBJECT)
    requires o.Find(CLASS_BYTES) == Some(Ref(index))
    ensures ClassOf(table, o) == Some(name)
  {
    hide ClassDictionary, Plist.Find;
    NameFound(table, index, name);
  }

  lemma NameFound(objects: seq<Plist>, index: nat, name: Bytes)
    requires index < |objects| && objects[index] == ClassDictionary(name, NS_OBJECT)
    ensures objects[index].Find(CLASS_NAME_BYTES) == Some(String(name))
  {
    var entries := objects[index].entries;
    KeyBytes();
    assert |CLASSES| == 8 && |CLASS_NAME| == 10;
    FindAt(entries, 1);
  }

  /**
   A stored value resolves, in every later table that retains its slots, to itself when each
   of its nodes is reached within the bound, and to an error otherwise.
   */
  lemma StoredResolves(value: Plist, objects: seq<Plist>, later: seq<Plist>, depth: nat)
    requires UidFree(value) && value.WellFormed() && depth <= MAX_DEPTH && |later| < TWO_TO_THE_64
    requires Retains(Stored(value, objects), |objects|, later)
    ensures |objects| < |later| && ResolvedObject(later[|objects|], later, depth) == Outcome(value, depth)
  {
    hide Keeps, Stored, Retains, ResolvedObject, Outcome, UidFree, Plist.WellFormed;
    StoredIsHeld(value, objects, later);
    HeldInTable(later, |objects|, value);
    HeldResolves(later, |objects|, value, depth);
  }

  /** The class objects the archiver writes, "$classes" and "NSObject" in bytes. */
  lemma ClassObject(name: Bytes)
    ensures ClassDictionary(name, NS_OBJECT) ==
            Dictionary([Entry([0x24, 0x63, 0x6c, 0x61, 0x73, 0x73, 0x65, 0x73],
                              Array([String(name), String([0x4e, 0x53, 0x4f, 0x62, 0x6a, 0x65, 0x63, 0x74])])),
                        Entry(CLASS_NAME_BYTES, String(name))])
  {
    KeyBytes();
    assert CLASSES == [0x24, 0x63, 0x6c, 0x61, 0x73, 0x73, 0x65, 0x73];
    assert NS_OBJECT == [0x4e, 0x53, 0x4f, 0x62, 0x6a, 0x65, 0x63, 0x74];
  }
}
