/**
 A `Uid` inside an archived value is indistinguishable from a reference of the archive
 itself: whatever it leads to, the value that comes back holds no `Uid`.
 */
module ArchiveUids {
  import opened Words
  import opened Dictionaries
  import opened Plists
  import opened KeyedArchive

  ghost predicate AllUids(items: seq<Plist>) {
    forall i | 0 <= i < |items| :: items[i].Uid?
  }

  /** The reference list of an instance, if it is there, holds references only. */
  ghost predicate RefersUnder(o: Plist, key: Bytes) {
    o.Find(key).Some? && o.Find(key).value.Array? ==> AllUids(o.Find(key).value.items)
  }

  /** An instance of one of the array or dictionary classes. */
  ghost predicate Instance(o: Plist, table: seq<Plist>) {
    && o.Dictionary? && o.Find(CLASS).Some? && o.Find(CLASS).value.Uid?
    && o.Find(CLASS).value.index < |table|
    && (var name := ClassName(table, o.Find(CLASS).value.index); IsArrayClass(name) || IsDictionaryClass(name))
    && RefersUnder(o, KEYS) && RefersUnder(o, OBJECTS)
  }

  /** An object that the archiver writes: a leaf, a class definition or an instance. */
  ghost predicate Written(o: Plist, table: seq<Plist>) {
    || !o.Container()
    || (o.Dictionary? && UidFree(o) && o.Find(CLASS) == None)
    || Instance(o, table)
  }

  ghost predicate AllWritten(table: seq<Plist>) {
    forall i | 0 <= i < |table| :: Written(table[i], table)
  }

  // ---------------------------------------------------------------------------
  // Resolving leaves no Uid
  // ---------------------------------------------------------------------------

  ghost predicate UidFreeItems(items: seq<Plist>) {
    forall i | 0 <= i < |items| :: UidFree(items[i])
  }

  ghost predicate UidFreeEntries(entries: seq<Entry<Plist>>) {
    forall i | 0 <= i < |entries| :: UidFree(entries[i].value)
  }

  lemma UidFreeContainers(items: seq<Plist>, entries: seq<Entry<Plist>>)
    ensures UidFreeItems(items) ==> UidFree(Array(items))
    ensures UidFreeEntries(entries) ==> UidFree(Dictionary(entries))
  {
    assert forall i | 0 <= i < |items| :: Element(Array(items), i) == items[i];
    assert forall i | 0 <= i < |entries| :: Element(Dictionary(entries), i) == entries[i].value;
  }

  lemma {:induction false} EmplaceKeepsUidFree(entries: seq<Entry<Plist>>, key: Bytes, value: Plist)
    requires UidFreeEntries(entries) && UidFree(value)
    ensures UidFreeEntries(Emplace(entries, key, value))
  {
    hide UidFree, Less;
    if entries != [] && !Less(key, entries[0].key) && key != entries[0].key {
      EmplaceKeepsUidFree(entries[1..], key, value);
    }
  }

  /** Over a table the archiver wrote, whatever a `Uid` leads to holds no `Uid`. */
  lemma {:induction false} ResolvesUidFree(o: Plist, table: seq<Plist>, depth: nat)
    requires AllWritten(table) && Written(o, table)
    ensures Resolved(o, table, depth).Ok? ==> UidFree(Resolved(o, table, depth).value)
    decreases MAX_DEPTH + 1 - depth, 2, 0
  {
    hide Written, AllWritten, ResolvedInstance, UidFree;
    if depth <= MAX_DEPTH {
      if o.Uid? {
        if o.index < |table| {
          WrittenAt(table, o.index);
          ResolvesUidFree(table[o.index], table, depth + 1);
        }
      } else {
        WrittenCases(o, table);
        if Instance(o, table) {
          InstanceUidFree(o, table, depth);
        }
      }
    }
  }

  lemma WrittenAt(table: seq<Plist>, i: nat)
    requires AllWritten(table) && i < |table|
    ensures Written(table[i], table)
  {
  }

  lemma WrittenCases(o: Plist, table: seq<Plist>)
    requires Written(o, table) && !o.Uid?
    ensures !o.Array? && (o.Find(CLASS) == None ==> UidFree(o)) && (o.Find(CLASS).Some? ==> Instance(o, table))
  {
  }

  lemma {:induction false} InstanceUidFree(o: Plist, table: seq<Plist>, depth: nat)
    requires AllWritten(table) && Instance(o, table) && depth <= MAX_DEPTH
    ensures ResolvedObject(o, table, depth).Ok? ==> UidFree(ResolvedObject(o, table, depth).value)
    decreases MAX_DEPTH + 1 - depth, 1, 0
  {
    hide AllWritten, UidFree, ResolvedFirst, ResolvedPairs, Dictionaries.Find;
    var name := ClassName(table, o.Find(CLASS).value.index);
    var keys, refs := o.Find(KEYS), o.Find(OBJECTS);
    if refs.Some? && refs.value.Array? {
      var items := refs.value.items;
      if IsArrayClass(name) {
        ItemsUidFree(items, |items|, table, depth + 1);
        var resolved := ResolvedFirst(items, |items|, table, depth + 1);
        UidFreeContainers(if resolved.Ok? then resolved.value else [], []);
      } else if keys.Some? && keys.value.Array? && |keys.value.items| == |items| {
        PairsUidFree(keys.value.items, items, |items|, table, depth + 1);
        var resolved := ResolvedPairs(keys.value.items, items, |items|, table, depth + 1);
        UidFreeContainers([], if resolved.Ok? then resolved.value else []);
      }
    }
  }

  lemma {:induction false} ItemsUidFree(refs: seq<Plist>, count: nat, table: seq<Plist>, depth: nat)
    requires AllWritten(table) && AllUids(refs) && count <= |refs| && depth <= MAX_DEPTH + 1
    ensures var items := ResolvedFirst(refs, count, table, depth); items.Ok? ==> UidFreeItems(items.value)
    decreases MAX_DEPTH + 1 - depth, 3, count
  {
    hide AllWritten, UidFree, Resolved;
    if count > 0 {
      ItemsUidFree(refs, count - 1, table, depth);
      ResolvesUidFree(refs[count - 1], table, depth);
    }
  }

  lemma {:induction false} PairsUidFree(keys: seq<Plist>, refs: seq<Plist>, count: nat, table: seq<Plist>, depth: nat)
    requires AllWritten(table) && AllUids(keys) && AllUids(refs)
    requires count <= |keys| == |refs| && depth <= MAX_DEPTH + 1
    ensures var entries := ResolvedPairs(keys, refs, count, table, depth); entries.Ok? ==> UidFreeEntries(entries.value)
    decreases MAX_DEPTH + 1 - depth, 3, count
  {
    hide AllWritten, UidFree, UidFreeEntries, Resolved, Emplace;
    if count == 0 {
      NoEntries();
    } else {
      PairsUidFree(keys, refs, count - 1, table, depth);
      ResolvesUidFree(refs[count - 1], table, depth);
      var entries := ResolvedPairs(keys, refs, count - 1, table, depth);
      var key, item := Resolved(keys[count - 1], table, depth), Resolved(refs[count - 1], table, depth);
      if entries.Ok? && key.Ok? && item.Ok? {
        EmplaceKeepsUidFree(entries.value, key.value.StringOr(), item.value);
      }
    }
  }

  lemma NoEntries()
    ensures UidFreeEntries([])
  {
  }

  // ---------------------------------------------------------------------------
  // The archiver writes nothing else
  // ---------------------------------------------------------------------------

  /** The slots that storing a value adds are written, in every table that retains them. */
  lemma {:induction false} StoredIsWritten(value: Plist, objects: seq<Plist>, table: seq<Plist>)
    requires Retains(Stored(value, objects), |objects|, table) && |table| < TWO_TO_THE_64
    ensures forall i | |objects| <= i < |Stored(value, objects)| :: Written(table[i], table)
    decreases value, Arity(value) + 1
  {
    hide Stored, StoredElements, Wrapper, Written, Prepared;
    StoredSlots(value, objects);
    if value.Container() {
      ContainerSlots(value, objects, table);
      PreparedIsWritten(value, objects, table);
      ElementsAreWritten(value, Arity(value), objects, table);
    } else {
      LeafIsWritten(value, table);
    }
  }

  lemma StoredSlots(value: Plist, objects: seq<Plist>)
    ensures value.Container() ==> |Stored(value, objects)| == |StoredElements(value, Arity(value), objects)|
    ensures !value.Container() ==> Stored(value, objects) == objects + [value]
  {
    if value.Container() {
      StoredElementsGrow(value, Arity(value), objects);
    }
  }

  lemma LeafIsWritten(o: Plist, table: seq<Plist>)
    requires !o.Container()
    ensures Written(o, table)
  {
  }

  lemma StringsAreUidFree(a: Bytes, b: Bytes)
    ensures UidFree(String(a)) && UidFree(String(b)) && UidFreeItems([String(a), String(b)])
  {
  }

  lemma ClassIsWritten(name: Bytes, table: seq<Plist>)
    ensures Written(ClassDictionary(name, NS_OBJECT), table)
  {
    hide Dictionaries.Find, UidFree;
    var o := ClassDictionary(name, NS_OBJECT);
    assert |CLASS| == 6 && |CLASSES| == 8 && |CLASS_NAME| == 10;
    StringsAreUidFree(name, NS_OBJECT);
    UidFreeContainers([String(name), String(NS_OBJECT)], []);
    UidFreeContainers([], o.entries);
    FindNone(o.entries, CLASS);
  }

  lemma PreparedIsWritten(value: Plist, objects: seq<Plist>, table: seq<Plist>)
    requires value.Container() && Retains(Stored(value, objects), |objects|, table) && |table| < TWO_TO_THE_64
    ensures |Prepared(value, objects)| <= |table|
    ensures forall i | |objects| <= i < |Prepared(value, objects)| :: Written(table[i], table)
  {
    hide Stored, StoredElements, Wrapper, Written, ClassDictionary, Retains;
    ContainerSlots(value, objects, table);
    ClassIsWritten(NS_ARRAY, table);
    ClassIsWritten(NS_DICTIONARY, table);
    WrapperIsWritten(value, objects, table);
    if value.Dictionary? {
      forall i | |objects| + 2 <= i < |Prepared(value, objects)| ensures Written(table[i], table) {
        assert table[|objects| + 2 + (i - |objects| - 2)] == String(value.entries[i - |objects| - 2].key);
        LeafIsWritten(table[i], table);
      }
    }
  }

  lemma WrapperRefers(value: Plist, objects: seq<Plist>)
    requires value.Container() && |objects| + 1 < TWO_TO_THE_64
    ensures var w := Wrapper(value, objects);
            && w.Dictionary? && w.Find(CLASS) == Some(Uid(|objects| + 1))
            && RefersUnder(w, KEYS) && RefersUnder(w, OBJECTS)
  {
    hide Wrapper, Plist.Find;
    WrapperMembers(value, objects);
    NoKeys(value, objects);
  }

  lemma WrapperIsWritten(value: Plist, objects: seq<Plist>, table: seq<Plist>)
    requires value.Container() && Retains(Stored(value, objects), |objects|, table) && |table| < TWO_TO_THE_64
    ensures Written(Wrapper(value, objects), table)
  {
    hide Stored, Retains, Wrapper, ClassDictionary, ClassName, Plist.Find, IsArrayClass, IsDictionaryClass, RefersUnder,
         UidFree;
    ContainerSlots(value, objects, table);
    ClassNameOf(table, |objects| + 1, if value.Array? then NS_ARRAY else NS_DICTIONARY);
    KnownClasses();
    WrapperRefers(value, objects);
  }

  lemma KnownClasses()
    ensures IsArrayClass(NS_ARRAY) && IsDictionaryClass(NS_DICTIONARY)
  {
  }

  lemma NoKeys(value: Plist, objects: seq<Plist>)
    requires value.Container()
    ensures value.Array? ==> Wrapper(value, objects).Find(KEYS) == None
  {
    hide ElementUids, Ref, Dictionaries.Find;
    KeyLengths();
    if value.Array? {
      FindNone(Wrapper(value, objects).entries, KEYS);
    }
  }

  lemma {:induction false} ElementsAreWritten(value: Plist, count: nat, objects: seq<Plist>, table: seq<Plist>)
    requires value.Container() && count <= Arity(value)
    requires Retains(Stored(value, objects), |objects|, table) && |table| < TWO_TO_THE_64
    ensures |StoredElements(value, count, objects)| <= |table|
    ensures forall i | |objects| <= i < |StoredElements(value, count, objects)| :: Written(table[i], table)
    decreases value, 0, count
  {
    hide Stored, Wrapper, Written, Prepared, Element, Retains;
    if count == 0 {
      PreparedIsWritten(value, objects, table);
    } else {
      ElementsAreWritten(value, count - 1, objects, table);
      ElementRetained(value, count - 1, objects, table);
      RetainedFits(Element(value, count - 1), StoredElements(value, count - 1, objects), table);
      StoredIsWritten(Element(value, count - 1), StoredElements(value, count - 1, objects), table);
    }
  }

  lemma RetainedFits(value: Plist, objects: seq<Plist>, table: seq<Plist>)
    requires Retains(Stored(value, objects), |objects|, table)
    ensures |Stored(value, objects)| <= |table|
  {
  }

  /** The whole table of an archived value. */
  lemma TableIsWritten(value: Plist, first: Plist)
    requires !first.Container() && |Stored(value, [first])| < TWO_TO_THE_64
    ensures AllWritten(Stored(value, [first]))
  {
    hide Stored, Written;
    var table := Stored(value, [first]);
    StoredKeeps(value, [first]);
    assert table[0] == [first][0];
    LeafIsWritten(first, table);
    StoredIsWritten(value, [first], table);
  }
}
