/**
 `NSKeyedArchive`: a tree is compiled into a table of objects that refer to each other by
 `Uid`, and resolved back under a nesting bound.
 */
module KeyedArchive {
  import opened Words
  import opened Dictionaries
  import opened Plists

  const VERSION: Int64 := 100000
  const ARCHIVER: Bytes := Ascii("NSKeyedArchiver")
  const NULL: Bytes := Ascii("$null")
  const MAX_DEPTH := 64

  const CLASS: Bytes := Ascii("$class")
  const CLASSES: Bytes := Ascii("$classes")
  const CLASS_NAME: Bytes := Ascii("$classname")
  const KEYS: Bytes := Ascii("NS.keys")
  const OBJECTS: Bytes := Ascii("NS.objects")
  const NS_OBJECT: Bytes := Ascii("NSObject")
  const NS_ARRAY: Bytes := Ascii("NSArray")
  const NS_MUTABLE_ARRAY: Bytes := Ascii("NSMutableArray")
  const NS_DICTIONARY: Bytes := Ascii("NSDictionary")
  const NS_MUTABLE_DICTIONARY: Bytes := Ascii("NSMutableDictionary")

  // ---------------------------------------------------------------------------
  // Storing a value
  // ---------------------------------------------------------------------------

  function ClassDictionary(name: Bytes, superclass: Bytes): Plist {
    Dictionary([Entry(CLASSES, Array([String(name), String(superclass)])), Entry(CLASS_NAME, String(name))])
  }

  /** A reference to a slot; slots are 64-bit sizes. */
  function Ref(slot: nat): Plist {
    Uid(slot % TWO_TO_THE_64)
  }

  function KeyStrings(entries: seq<Entry<Plist>>): (keys: seq<Plist>)
    ensures |keys| == |entries| && forall i | 0 <= i < |keys| :: keys[i] == String(entries[i].key)
  {
    seq(|entries|, i requires 0 <= i < |entries| => String(entries[i].key))
  }

  /** The table a container's elements are stored after: its placeholder, its class and its keys. */
  function Prepared(value: Plist, objects: seq<Plist>): seq<Plist>
    requires value.Container()
  {
    if value.Array? then objects + [Null, ClassDictionary(NS_ARRAY, NS_OBJECT)]
    else objects + [Null, ClassDictionary(NS_DICTIONARY, NS_OBJECT)] + KeyStrings(value.entries)
  }

  /** The table after the first `count` elements of a container are stored. */
  function StoredElements(value: Plist, count: nat, objects: seq<Plist>): seq<Plist>
    requires value.Container() && count <= Arity(value)
    decreases value, count, 0
  {
    if count == 0 then Prepared(value, objects)
    else Stored(Element(value, count - 1), StoredElements(value, count - 1, objects))
  }

  function KeyUids(value: Plist, objects: seq<Plist>): (refs: seq<Plist>)
    requires value.Dictionary?
    ensures |refs| == |value.entries| && forall i | 0 <= i < |refs| :: refs[i] == Ref(|objects| + 2 + i)
  {
    seq(|value.entries|, i requires 0 <= i => Ref(|objects| + 2 + i))
  }

  function ElementUids(value: Plist, objects: seq<Plist>): (refs: seq<Plist>)
    requires value.Container()
    ensures |refs| == Arity(value)
    ensures forall i | 0 <= i < |refs| :: refs[i] == Ref(|StoredElements(value, i, objects)|)
    decreases value, Arity(value) + 1
  {
    seq(Arity(value), i requires 0 <= i < Arity(value) => Ref(|StoredElements(value, i, objects)|))
  }

  /** The class object that replaces a container's placeholder. */
  function Wrapper(value: Plist, objects: seq<Plist>): Plist
    requires value.Container()
    decreases value, Arity(value) + 2
  {
    var kind := Entry(CLASS, Ref(|objects| + 1));
    var refs := Entry(OBJECTS, Array(ElementUids(value, objects)));
    if value.Array? then Dictionary([kind, refs])
    else Dictionary([kind, Entry(KEYS, Array(KeyUids(value, objects))), refs])
  }

  /** The table after `value` is stored in the next free slot. */
  function Stored(value: Plist, objects: seq<Plist>): (table: seq<Plist>)
    ensures |table| > |objects|
    decreases value, Arity(value) + 3
  {
    if !value.Container() then objects + [value]
    else
      StoredElementsGrow(value, Arity(value), objects);
      StoredElements(value, Arity(value), objects)[|objects| := Wrapper(value, objects)]
  }

  /** Storing elements keeps what was there before and the container's own slots. */
  lemma {:induction false} StoredElementsGrow(value: Plist, count: nat, objects: seq<Plist>)
    requires value.Container() && count <= Arity(value)
    ensures |StoredElements(value, count, objects)| >= |Prepared(value, objects)| + count > |objects| + 1
    decreases value, count, 1
  {
    if count > 0 {
      StoredElementsGrow(value, count - 1, objects);
    }
  }

  /** Storing never changes a slot that existed before the call. */
  lemma {:induction false} StoredKeeps(value: Plist, objects: seq<Plist>)
    ensures objects <= Stored(value, objects)
    decreases value, Arity(value) + 1
  {
    if value.Container() {
      hide Wrapper;
      StoredElementsKeep(value, Arity(value), objects);
      StoredElementsGrow(value, Arity(value), objects);
    }
  }

  lemma {:induction false} StoredElementsKeep(value: Plist, count: nat, objects: seq<Plist>)
    requires value.Container() && count <= Arity(value)
    ensures Prepared(value, objects) <= StoredElements(value, count, objects)
    ensures objects <= StoredElements(value, count, objects)
    decreases value, count
  {
    if count > 0 {
      hide Stored;
      StoredElementsKeep(value, count - 1, objects);
      StoredKeeps(Element(value, count - 1), StoredElements(value, count - 1, objects));
    }
  }

  lemma {:induction false} StoredElementsInOrder(value: Plist, i: nat, j: nat, objects: seq<Plist>)
    requires value.Container() && i <= j <= Arity(value)
    ensures StoredElements(value, i, objects) <= StoredElements(value, j, objects)
    decreases j
  {
    if i < j {
      hide Stored;
      StoredElementsInOrder(value, i, j - 1, objects);
      StoredKeeps(Element(value, j - 1), StoredElements(value, j - 1, objects));
    }
  }

  // ---------------------------------------------------------------------------
  // Resolving a value
  // ---------------------------------------------------------------------------

  /** The name of the class a slot defines, empty when it defines none. */
  function ClassName(objects: seq<Plist>, index: nat): Bytes
    requires index < |objects|
  {
    var name := objects[index].Find(CLASS_NAME);
    if name.Some? then name.value.StringOr() else []
  }

  function Resolved(value: Plist, objects: seq<Plist>, depth: nat): Result<Plist>
    decreases MAX_DEPTH + 1 - depth, 0, 0
  {
    if depth > MAX_DEPTH then Err(Protocol) else ResolvedObject(value, objects, depth)
  }

  function ResolvedObject(value: Plist, objects: seq<Plist>, depth: nat): Result<Plist>
    requires depth <= MAX_DEPTH
    decreases MAX_DEPTH - depth, 2, 0
  {
    if value.Uid? then
      if value.index >= |objects| then Err(Protocol) else Resolved(objects[value.index], objects, depth + 1)
    else if value.Array? then
      ResolvedArray(ResolvedFirst(value.items, |value.items|, objects, depth + 1))
    else
      var kind := value.Find(CLASS);
      if kind == None then Ok(value)
      else if !kind.value.Uid? || kind.value.index >= |objects| then Err(Protocol)
      else ResolvedInstance(value, ClassName(objects, kind.value.index), objects, depth)
  }

  function IsArrayClass(name: Bytes): bool {
    name == NS_ARRAY || name == NS_MUTABLE_ARRAY
  }

  function IsDictionaryClass(name: Bytes): bool {
    name == NS_DICTIONARY || name == NS_MUTABLE_DICTIONARY
  }

  /** An object of the named class: an array, a dictionary, or a custom object left as it is. */
  function ResolvedInstance(value: Plist, name: Bytes, objects: seq<Plist>, depth: nat): Result<Plist>
    requires depth <= MAX_DEPTH
    decreases MAX_DEPTH - depth, 1, 0
  {
    var keys, refs := value.Find(KEYS), value.Find(OBJECTS);
    if IsArrayClass(name) then
      if refs == None || !refs.value.Array? then Err(Protocol)
      else ResolvedArray(ResolvedFirst(refs.value.items, |refs.value.items|, objects, depth + 1))
    else if IsDictionaryClass(name) then
      if keys == None || !keys.value.Array? || refs == None || !refs.value.Array? then Err(Protocol)
      else if |keys.value.items| != |refs.value.items| then Err(Protocol)
      else ResolvedDictionary(ResolvedPairs(keys.value.items, refs.value.items, |refs.value.items|, objects, depth + 1))
    else Ok(value)
  }

  function ResolvedArray(items: Result<seq<Plist>>): Result<Plist> {
    if items.Ok? then Ok(Array(items.value)) else Err(items.error)
  }

  function ResolvedDictionary(entries: Result<seq<Entry<Plist>>>): Result<Plist> {
    if entries.Ok? then Ok(Dictionary(entries.value)) else Err(entries.error)
  }

  function ResolvedFirst(refs: seq<Plist>, count: nat, objects: seq<Plist>, depth: nat): Result<seq<Plist>>
    requires depth <= MAX_DEPTH + 1 && count <= |refs|
    decreases MAX_DEPTH + 1 - depth, 0, count + 1
  {
    if count == 0 then Ok([])
    else
      var items := ResolvedFirst(refs, count - 1, objects, depth);
      if items.Err? then items
      else
        var item := Resolved(refs[count - 1], objects, depth);
        if item.Ok? then Ok(items.value + [item.value]) else Err(item.error)
  }

  function ResolvedPairs(keys: seq<Plist>, refs: seq<Plist>, count: nat, objects: seq<Plist>, depth: nat)
    : Result<seq<Entry<Plist>>>
    requires depth <= MAX_DEPTH + 1 && count <= |keys| == |refs|
    decreases MAX_DEPTH + 1 - depth, 0, count + 1
  {
    if count == 0 then Ok([])
    else
      var entries := ResolvedPairs(keys, refs, count - 1, objects, depth);
      if entries.Err? then entries
      else
        var key := Resolved(keys[count - 1], objects, depth);
        if key.Err? then Err(key.error)
        else
          var item := Resolved(refs[count - 1], objects, depth);
          if item.Ok? then Ok(Emplace(entries.value, key.value.StringOr(), item.value)) else Err(item.error)
  }

  // ---------------------------------------------------------------------------
  // The nesting bound, and the slots a stored value keeps
  // ---------------------------------------------------------------------------

  /** A `Uid` means a slot only inside an archive, so an archived value holds none. */
  ghost predicate UidFree(value: Plist)
    decreases value
  {
    !value.Uid? && forall i | 0 <= i < Arity(value) :: UidFree(Element(value, i))
  }

  /** Every node resolves within the bound when the value's own object resolves at `depth`. */
  ghost predicate FitsAt(value: Plist, depth: nat)
    decreases value
  {
    depth <= MAX_DEPTH && forall i | 0 <= i < Arity(value) :: FitsAt(Element(value, i), depth + 2)
  }

  /** `later` still has the slots that storing added from `first` on. */
  ghost predicate Retains(table: seq<Plist>, first: nat, later: seq<Plist>) {
    |table| <= |later| && forall i | first <= i < |table| :: later[i] == table[i]
  }

  /** Resolving a reference takes one level and the object behind it another. */
  lemma ResolveRef(slot: nat, objects: seq<Plist>, depth: nat)
    requires slot < |objects| < TWO_TO_THE_64
    ensures Resolved(Ref(slot), objects, depth)
         == if depth < MAX_DEPTH then ResolvedObject(objects[slot], objects, depth + 1) else Err(Protocol)
  {
    hide ResolvedInstance;
    if depth <= MAX_DEPTH {
      assert Resolved(Ref(slot), objects, depth) == ResolvedObject(Ref(slot), objects, depth);
      assert ResolvedObject(Ref(slot), objects, depth) == Resolved(objects[slot], objects, depth + 1);
    }
  }

  /** What a stored value resolves to: itself when it fits, an error otherwise. */
  ghost function Outcome(value: Plist, depth: nat): Result<Plist>
    requires depth <= MAX_DEPTH
  {
    if FitsAt(value, depth) then Ok(value) else Err(Protocol)
  }

  lemma ClassNameOf(objects: seq<Plist>, index: nat, name: Bytes)
    requires index < |objects| && objects[index] == ClassDictionary(name, NS_OBJECT)
    ensures ClassName(objects, index) == name
  {
    var entries := objects[index].entries;
    assert |CLASSES| == 8 && |CLASS_NAME| == 10;
    FindAt(entries, 1);
  }

  /** The members of a wrapper are found under their keys. */
  lemma WrapperMembers(value: Plist, objects: seq<Plist>)
    requires value.Container()
    ensures var w := Wrapper(value, objects);
            && w.Dictionary? && w.Find(CLASS) == Some(Ref(|objects| + 1))
            && w.Find(OBJECTS) == Some(Array(ElementUids(value, objects)))
            && (value.Dictionary? ==> w.Find(KEYS) == Some(Array(KeyUids(value, objects))))
  {
    hide ElementUids, KeyUids, Ref, Dictionaries.Find;
    var entries := Wrapper(value, objects).entries;
    KeyLengths();
    FindAt(entries, 0);
    FindAt(entries, 1);
    if value.Dictionary? {
      FindAt(entries, 2);
    }
  }

  lemma KeyLengths()
    ensures |CLASS| == 6 && |KEYS| == 7 && |OBJECTS| == 10
  {
  }

  /** The slots a stored container keeps in every later table: its wrapper, its class and its keys. */
  lemma ContainerSlots(value: Plist, objects: seq<Plist>, later: seq<Plist>)
    requires value.Container() && Retains(Stored(value, objects), |objects|, later)
    ensures |objects| + 1 < |later| && later[|objects|] == Wrapper(value, objects)
    ensures value.Array? ==> later[|objects| + 1] == ClassDictionary(NS_ARRAY, NS_OBJECT)
    ensures value.Dictionary? ==> later[|objects| + 1] == ClassDictionary(NS_DICTIONARY, NS_OBJECT)
    ensures value.Dictionary? ==> |objects| + 2 + |value.entries| <= |later|
    ensures value.Dictionary? ==>
              forall i | 0 <= i < |value.entries| :: later[|objects| + 2 + i] == String(value.entries[i].key)
  {
    hide Wrapper, StoredElements, ClassDictionary;
    var n := Arity(value);
    StoredElementsGrow(value, n, objects);
    StoredElementsKeep(value, n, objects);
    var table, prepared := StoredElements(value, n, objects), Prepared(value, objects);
    assert Stored(value, objects) == table[|objects| := Wrapper(value, objects)];
    assert forall i | |objects| < i < |prepared| :: later[i] == prepared[i];
  }

  /** The slots an element's storing added are retained wherever the container's are. */
  lemma ElementRetained(value: Plist, i: nat, objects: seq<Plist>, later: seq<Plist>)
    requires value.Container() && i < Arity(value) && Retains(Stored(value, objects), |objects|, later)
    ensures var before := StoredElements(value, i, objects);
            |before| < |later| && Retains(Stored(Element(value, i), before), |before|, later)
  {
    hide Wrapper, Prepared;
    var n := Arity(value);
    var before := StoredElements(value, i, objects);
    StoredElementsGrow(value, i, objects);
    StoredElementsGrow(value, n, objects);
    StoredElementsInOrder(value, i + 1, n, objects);
    var table := StoredElements(value, n, objects);
    assert Stored(value, objects) == table[|objects| := Wrapper(value, objects)];
    assert StoredElements(value, i + 1, objects) == Stored(Element(value, i), before);
  }

  /** What the first `count` elements resolve to from a container at `depth`. */
  ghost predicate FirstFit(value: Plist, count: nat, depth: nat)
    requires count <= Arity(value)
  {
    forall i | 0 <= i < count :: FitsAt(Element(value, i), depth + 2)
  }

  lemma WholeSlices(value: Plist)
    requires value.Container()
    ensures value.Array? ==> value.items[..Arity(value)] == value.items
    ensures value.Dictionary? ==> value.entries[..Arity(value)] == value.entries
  {
  }

  lemma FitsMeansAllFit(value: Plist, depth: nat)
    requires depth <= MAX_DEPTH
    ensures FitsAt(value, depth) <==> FirstFit(value, Arity(value), depth)
  {
  }

  lemma FirstFitStep(value: Plist, count: nat, depth: nat)
    requires count <= Arity(value)
    ensures FirstFit(value, count, depth) <==>
            count == 0 || (FirstFit(value, count - 1, depth) && FitsAt(Element(value, count - 1), depth + 2))
  {
    hide FitsAt;
  }

  /** The entries of a dictionary are emplaced in ascending key order, so each one is appended. */
  lemma NextEntry(value: Plist, count: nat)
    requires value.Dictionary? && value.WellFormed() && count < |value.entries|
    ensures Emplace(value.entries[..count], value.entries[count].key, value.entries[count].value)
         == value.entries[..count] + [value.entries[count]]
  {
    EmplaceAppends(value.entries[..count], value.entries[count].key, value.entries[count].value);
  }

  lemma NoFitBeyondBound(value: Plist, depth: nat)
    ensures FitsAt(value, depth) ==> depth <= MAX_DEPTH
  {
  }

  // ---------------------------------------------------------------------------
  // The bound counted in containers
  // ---------------------------------------------------------------------------

  /** How many containers the most deeply nested node of the value lies inside. */
  ghost function Nesting(value: Plist): nat
    decreases value, Arity(value) + 1
  {
    if Arity(value) == 0 then 0 else 1 + NestingOf(value, Arity(value))
  }

  ghost function NestingOf(value: Plist, count: nat): nat
    requires count <= Arity(value)
    decreases value, count
  {
    if count == 0 then 0 else Max(NestingOf(value, count - 1), Nesting(Element(value, count - 1)))
  }

  lemma {:induction false} FitsIsNesting(value: Plist, depth: nat)
    ensures FitsAt(value, depth) <==> depth + 2 * Nesting(value) <= MAX_DEPTH
    decreases value, Arity(value) + 1
  {
    if Arity(value) > 0 {
      FirstFitIsNesting(value, Arity(value), depth);
    }
  }

  lemma {:induction false} FirstFitIsNesting(value: Plist, count: nat, depth: nat)
    requires 0 < count <= Arity(value)
    ensures FirstFit(value, count, depth) <==> depth + 2 + 2 * NestingOf(value, count) <= MAX_DEPTH
    decreases value, count
  {
    FitsIsNesting(Element(value, count - 1), depth + 2);
    if count > 1 {
      FirstFitIsNesting(value, count - 1, depth);
    }
  }

  // ---------------------------------------------------------------------------
  // The compiler, pushing to and later overwriting slots of one shared table
  // ---------------------------------------------------------------------------

  /** The keys of a wrapper in ascending order. */
  lemma WrapperKeysAscend()
    ensures Less(CLASS, KEYS) && Less(KEYS, OBJECTS) && Less(CLASS, OBJECTS)
    ensures !Less(KEYS, CLASS) && !Less(OBJECTS, KEYS) && !Less(OBJECTS, CLASS)
    ensures CLASS != KEYS && KEYS != OBJECTS && CLASS != OBJECTS
  {
    LessAt(CLASS, KEYS, 0);
    LessAt(CLASS, OBJECTS, 0);
    assert KEYS[..3] == OBJECTS[..3];
    LessAt(KEYS, OBJECTS, 3);
  }

  /** Emplacing the members of a wrapper one by one builds it. */
  lemma ArrayWrapperBuilt(value: Plist, objects: seq<Plist>)
    requires value.Array?
    ensures Wrapper(value, objects)
         == Dictionary(Emplace(Emplace([], CLASS, Ref(|objects| + 1)), OBJECTS, Array(ElementUids(value, objects))))
  {
    hide Less, ElementUids, Ref, Emplace, Ascii;
    WrapperKeysAscend();
    EmplaceTwo(Entry(CLASS, Ref(|objects| + 1)), Entry(OBJECTS, Array(ElementUids(value, objects))));
  }

  lemma DictionaryWrapperBuilt(value: Plist, objects: seq<Plist>)
    requires value.Dictionary?
    ensures Wrapper(value, objects)
         == Dictionary(Emplace(Emplace(Emplace([], CLASS, Ref(|objects| + 1)), KEYS, Array(KeyUids(value, objects))),
                               OBJECTS, Array(ElementUids(value, objects))))
  {
    hide Less, ElementUids, KeyUids, Ref, Emplace, Ascii;
    WrapperKeysAscend();
    EmplaceThree(Entry(CLASS, Ref(|objects| + 1)), Entry(KEYS, Array(KeyUids(value, objects))),
                 Entry(OBJECTS, Array(ElementUids(value, objects))));
  }

  lemma StoredUnfolded(value: Plist, objects: seq<Plist>)
    ensures value.Container() ==>
              && |objects| < |StoredElements(value, Arity(value), objects)|
              && Stored(value, objects) ==
                 StoredElements(value, Arity(value), objects)[|objects| := Wrapper(value, objects)]
    ensures !value.Container() ==> Stored(value, objects) == objects + [value]
  {
    hide Wrapper;
    if value.Container() {
      StoredElementsGrow(value, Arity(value), objects);
    }
  }

  class ObjectTable {
    var objects: seq<Plist>

    constructor ()
      ensures objects == [String(NULL)]
    {
      objects := [String(NULL)];
    }

    /** Appends `value` and everything in it, and gives its slot. */
    method AppendObject(value: Plist) returns (slot: nat)
      modifies this
      ensures slot == old(|objects|) && objects == Stored(value, old(objects))
      decreases value.Container(), value, 2
    {
      hide Stored;
      StoredUnfolded(value, objects);
      if value.Array? {
        slot := AppendArray(value);
      } else if value.Dictionary? {
        slot := AppendDictionary(value);
      } else {
        slot := |objects|;
        objects := objects + [value];
      }
    }

    method AppendArray(value: Plist) returns (slot: nat)
      requires value.Array?
      modifies this
      ensures slot == old(|objects|) && objects == Stored(value, old(objects))
      decreases value.Container(), value, 1
    {
      hide Emplace, Stored, StoredElements, ElementUids, Wrapper, ClassDictionary, Ref, Ascii;
      StoredUnfolded(value, objects);
      ArrayWrapperBuilt(value, objects);
      slot := |objects|;
      objects := objects + [Null];
      var classSlot := |objects|;
      objects := objects + [ClassDictionary(NS_ARRAY, NS_OBJECT)];
      assert objects == Prepared(value, old(objects));
      var refs := AppendElements(value, old(objects));
      var wrapper := Emplace(Emplace([], CLASS, Ref(classSlot)), OBJECTS, Array(refs));
      objects := objects[slot := Dictionary(wrapper)];
    }

    method AppendDictionary(value: Plist) returns (slot: nat)
      requires value.Dictionary?
      modifies this
      ensures slot == old(|objects|) && objects == Stored(value, old(objects))
      decreases value.Container(), value, 1
    {
      hide Emplace, Stored, StoredElements, ElementUids, Wrapper, ClassDictionary, Ref, Ascii;
      StoredUnfolded(value, objects);
      DictionaryWrapperBuilt(value, objects);
      slot := |objects|;
      objects := objects + [Null];
      var classSlot := |objects|;
      objects := objects + [ClassDictionary(NS_DICTIONARY, NS_OBJECT)];
      var keys := AppendKeys(value.entries);
      assert keys == KeyUids(value, old(objects));
      assert objects == Prepared(value, old(objects));
      var refs := AppendElements(value, old(objects));
      var wrapper := Emplace(Emplace(Emplace([], CLASS, Ref(classSlot)), KEYS, Array(keys)), OBJECTS, Array(refs));
      objects := objects[slot := Dictionary(wrapper)];
    }

    /** Appends each key as a string of its own; unlike a binary plist, an archive does not share keys. */
    method AppendKeys(entries: seq<Entry<Plist>>) returns (keys: seq<Plist>)
      modifies this
      ensures objects == old(objects) + KeyStrings(entries)
      ensures |keys| == |entries| && forall i | 0 <= i < |keys| :: keys[i] == Ref(old(|objects|) + i)
      decreases true, entries, 0
    {
      hide Ref, Stored;
      keys := [];
      for i := 0 to |entries|
        invariant objects == old(objects) + KeyStrings(entries)[..i]
        invariant |keys| == i && forall j | 0 <= j < i :: keys[j] == Ref(old(|objects|) + j)
      {
        StoredUnfolded(String(entries[i].key), objects);
        var key := AppendObject(String(entries[i].key));
        keys := keys + [Ref(key)];
      }
    }

    /** Appends the items of an array or the values of a dictionary. */
    method AppendElements(value: Plist, ghost before: seq<Plist>) returns (refs: seq<Plist>)
      requires value.Container() && objects == Prepared(value, before)
      modifies this
      ensures objects == StoredElements(value, Arity(value), before) && refs == ElementUids(value, before)
      decreases value.Container(), value, 0
    {
      hide Ref, Stored, Prepared, Element, Arity, ElementUids;
      refs := [];
      for i := 0 to Arity(value)
        invariant objects == StoredElements(value, i, before)
        invariant |refs| == i && forall j | 0 <= j < i :: refs[j] == Ref(|StoredElements(value, j, before)|)
      {
        var element := AppendObject(Element(value, i));
        refs := refs + [Ref(element)];
      }
    }
  }

  // ---------------------------------------------------------------------------
  // The resolver
  // ---------------------------------------------------------------------------

  lemma {:induction false} FirstErrorStands(refs: seq<Plist>, i: nat, count: nat, objects: seq<Plist>, depth: nat)
    requires depth <= MAX_DEPTH + 1 && i <= count <= |refs| && ResolvedFirst(refs, i, objects, depth).Err?
    ensures ResolvedFirst(refs, count, objects, depth) == ResolvedFirst(refs, i, objects, depth)
    decreases count
  {
    hide Resolved;
    if i < count {
      FirstErrorStands(refs, i, count - 1, objects, depth);
    }
  }

  lemma {:induction false} PairErrorStands(keys: seq<Plist>, refs: seq<Plist>, i: nat, count: nat,
                                           objects: seq<Plist>, depth: nat)
    requires depth <= MAX_DEPTH + 1 && i <= count <= |keys| == |refs|
    requires ResolvedPairs(keys, refs, i, objects, depth).Err?
    ensures ResolvedPairs(keys, refs, count, objects, depth) == ResolvedPairs(keys, refs, i, objects, depth)
    decreases count
  {
    hide Resolved;
    if i < count {
      PairErrorStands(keys, refs, i, count - 1, objects, depth);
    }
  }

  method Resolve(value: Plist, objects: seq<Plist>, depth: nat) returns (r: Result<Plist>)
    ensures r == Resolved(value, objects, depth)
    decreases MAX_DEPTH + 1 - depth, 0
  {
    hide ResolvedObject;
    if depth > MAX_DEPTH {
      return Err(Protocol);
    }
    r := ResolveObject(value, objects, depth);
  }

  method ResolveObject(value: Plist, objects: seq<Plist>, depth: nat) returns (r: Result<Plist>)
    requires depth <= MAX_DEPTH
    ensures r == ResolvedObject(value, objects, depth)
    decreases MAX_DEPTH - depth, 3
  {
    hide Resolved, ResolvedInstance, ResolvedFirst, ClassName, Dictionaries.Find;
    if value.Uid? {
      if value.index >= |objects| {
        return Err(Protocol);
      }
      r := Resolve(objects[value.index], objects, depth + 1);
      return;
    }
    if value.Array? {
      var items := ResolveAll(value.items, objects, depth + 1);
      return ResolvedArray(items);
    }
    var reference := value.Find(CLASS);
    if reference == None {
      return Ok(value);
    }
    if !reference.value.Uid? || reference.value.index >= |objects| {
      return Err(Protocol);
    }
    r := ResolveInstance(value, ClassName(objects, reference.value.index), objects, depth);
  }

  method ResolveInstance(value: Plist, name: Bytes, objects: seq<Plist>, depth: nat) returns (r: Result<Plist>)
    requires depth <= MAX_DEPTH
    ensures r == ResolvedInstance(value, name, objects, depth)
    decreases MAX_DEPTH - depth, 2
  {
    hide Resolved, ResolvedFirst, ResolvedPairs, Dictionaries.Find;
    var refs := value.Find(OBJECTS);
    if IsArrayClass(name) {
      if refs == None || !refs.value.Array? {
        return Err(Protocol);
      }
      var items := ResolveAll(refs.value.items, objects, depth + 1);
      return ResolvedArray(items);
    }
    if IsDictionaryClass(name) {
      var keys := value.Find(KEYS);
      if keys == None || !keys.value.Array? || refs == None || !refs.value.Array? {
        return Err(Protocol);
      }
      if |keys.value.items| != |refs.value.items| {
        return Err(Protocol);
      }
      var entries := ResolveEntries(keys.value.items, refs.value.items, objects, depth + 1);
      return ResolvedDictionary(entries);
    }
    return Ok(value);
  }

  method ResolveAll(refs: seq<Plist>, objects: seq<Plist>, depth: nat) returns (r: Result<seq<Plist>>)
    requires depth <= MAX_DEPTH + 1
    ensures r == ResolvedFirst(refs, |refs|, objects, depth)
    decreases MAX_DEPTH + 1 - depth, 1
  {
    hide Resolved;
    var items: seq<Plist> := [];
    for i := 0 to |refs|
      invariant ResolvedFirst(refs, i, objects, depth) == Ok(items)
    {
      var item := Resolve(refs[i], objects, depth);
      if item.Err? {
        FirstErrorStands(refs, i + 1, |refs|, objects, depth);
        return Err(item.error);
      }
      items := items + [item.value];
    }
    return Ok(items);
  }

  method ResolveEntries(keys: seq<Plist>, refs: seq<Plist>, objects: seq<Plist>, depth: nat)
    returns (r: Result<seq<Entry<Plist>>>)
    requires depth <= MAX_DEPTH + 1 && |keys| == |refs|
    ensures r == ResolvedPairs(keys, refs, |refs|, objects, depth)
    decreases MAX_DEPTH + 1 - depth, 1
  {
    hide Resolved, Emplace;
    var entries: seq<Entry<Plist>> := [];
    for i := 0 to |keys|
      invariant ResolvedPairs(keys, refs, i, objects, depth) == Ok(entries)
    {
      var key := Resolve(keys[i], objects, depth);
      if key.Err? {
        PairErrorStands(keys, refs, i + 1, |refs|, objects, depth);
        return Err(key.error);
      }
      var item := Resolve(refs[i], objects, depth);
      if item.Err? {
        PairErrorStands(keys, refs, i + 1, |refs|, objects, depth);
        return Err(item.error);
      }
      entries := Emplace(entries, key.value.StringOr(), item.value);
    }
    return Ok(entries);
  }
}
