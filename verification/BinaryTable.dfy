/**
 The object table of a binary plist: every node of the tree gets a slot, and every
 distinct dictionary key gets one string object that all dictionaries share.

 A node's address is the path to it from the root; a key object's address is its text.
 */
module BinaryTable {
  import opened Words
  import opened Dictionaries
  import opened Plists

  datatype Address = Node(path: seq<nat>) | KeyObject(text: Bytes)

  datatype Slot = Slot(address: Address, value: Plist)

  datatype Table = Table(objects: seq<Slot>, slots: map<Address, nat>, keySlots: map<Bytes, nat>)

  const EMPTY: Table := Table([], map[], map[])
  const ROOT: Address := Node([])

  function Child(at: Address, index: nat): Address
    requires at.Node?
  {
    Node(at.path + [index])
  }

  // ---------------------------------------------------------------------------
  // Flattening
  // ---------------------------------------------------------------------------

  function AddObject(t: Table, at: Address, value: Plist): Table {
    Table(t.objects + [Slot(at, value)], t.slots[at := |t.objects|], t.keySlots)
  }

  /** Gives `value` and everything inside it a slot. */
  function Flatten(value: Plist, at: Address, t: Table): Table
    requires at.KeyObject? ==> value.String?
    decreases value, Arity(value) + 1
  {
    if at in t.slots then t
    else
      var own := AddObject(t, at, value);
      if value.Array? then FlattenElements(value, at, 0, own)
      else if value.Dictionary? then FlattenElements(value, at, 0, FlattenKeys(value.entries, own))
      else own
  }

  /** Gives the elements from `index` on their slots. */
  function FlattenElements(value: Plist, at: Address, index: nat, t: Table): Table
    requires at.Node? && index <= Arity(value)
    decreases value, Arity(value) - index
  {
    if index == Arity(value) then t
    else FlattenElements(value, at, index + 1, Flatten(Element(value, index), Child(at, index), t))
  }

  /** Gives each key that has no object yet a string object of its own. */
  function FlattenKeys(entries: seq<Entry<Plist>>, t: Table): Table
  {
    if entries == [] then t
    else FlattenKeys(entries[1..], FlattenKey(entries[0].key, t))
  }

  function FlattenKey(key: Bytes, t: Table): Table {
    if key in t.keySlots then t
    else
      var noted := t.(keySlots := t.keySlots[key := |t.objects|]);
      if KeyObject(key) in noted.slots then noted else AddObject(noted, KeyObject(key), String(key))
  }

  // ---------------------------------------------------------------------------
  // What flattening establishes
  // ---------------------------------------------------------------------------

  /** Slots are dense and in table order, and an interned key's slot holds its string. */
  ghost predicate Dense(t: Table) {
    && (forall i | 0 <= i < |t.objects| ::
          t.objects[i].address in t.slots && t.slots[t.objects[i].address] == i)
    && (forall a | a in t.slots :: t.slots[a] < |t.objects| && t.objects[t.slots[a]].address == a)
    && (forall k | k in t.keySlots ::
          t.keySlots[k] < |t.objects| && t.objects[t.keySlots[k]] == Slot(KeyObject(k), String(k)))
    && (forall k | KeyObject(k) in t.slots :: k in t.keySlots)
  }

  /** `u` has everything `t` has, in the same slots. */
  ghost predicate Extends(t: Table, u: Table) {
    && |t.objects| <= |u.objects|
    && (forall i | 0 <= i < |t.objects| :: u.objects[i] == t.objects[i])
    && (forall a | a in t.slots :: a in u.slots && u.slots[a] == t.slots[a])
    && (forall k | k in t.keySlots :: k in u.keySlots && u.keySlots[k] == t.keySlots[k])
  }

  /** `value` sits in the slot of `at`, and every element in the slot of its own address. */
  ghost predicate Placed(value: Plist, at: Address, t: Table)
    decreases value
  {
    && at.Node? && at in t.slots && t.slots[at] < |t.objects|
    && t.objects[t.slots[at]] == Slot(at, value)
    && (value.Dictionary? ==> KeysInterned(value.entries, t))
    && forall i | 0 <= i < Arity(value) :: Placed(Element(value, i), Child(at, i), t)
  }

  ghost predicate KeysInterned(entries: seq<Entry<Plist>>, t: Table) {
    forall i | 0 <= i < |entries| :: entries[i].key in t.keySlots
  }

  /** Everything an object refers to has a slot. */
  ghost predicate Linked(o: Slot, t: Table) {
    && (o.value.Container() ==> o.address.Node?)
    && (o.value.Dictionary? ==> KeysInterned(o.value.entries, t))
    && forall i | 0 <= i < Arity(o.value) :: Child(o.address, i) in t.slots
  }

  ghost predicate LinkedFrom(t: Table, first: nat) {
    forall i | first <= i < |t.objects| :: Linked(t.objects[i], t)
  }

  /** No slot is taken at or below `at`. */
  ghost predicate Vacant(at: Address, t: Table) {
    at.Node? && forall a | a in t.slots && a.Node? :: !(at.path <= a.path)
  }

  /** Besides key objects, `u` adds to `t` only addresses at or below `at`. */
  ghost predicate AddsOnlyWithin(t: Table, u: Table, at: Address) {
    at.Node? && forall a | a in u.slots && a.Node? && a !in t.slots :: at.path <= a.path
  }

  ghost predicate Grows(t: Table, u: Table, at: Address) {
    Dense(u) && Extends(t, u) && AddsOnlyWithin(t, u, at)
  }

  lemma GrowsReflexive(t: Table, at: Address)
    requires Dense(t) && at.Node?
    ensures Grows(t, t, at)
  {
  }

  lemma AddObjectGrows(t: Table, at: Address, value: Plist)
    requires Dense(t) && at.Node? && at !in t.slots
    ensures Grows(t, AddObject(t, at, value), at)
  {
  }

  lemma ExtendsTransitive(t: Table, u: Table, v: Table)
    requires Extends(t, u) && Extends(u, v)
    ensures Extends(t, v)
  {
  }

  /** Interning adds no node and links what it adds. */
  ghost predicate Interns(t: Table, u: Table) {
    Dense(u) && Extends(t, u) && LinkedFrom(u, |t.objects|) && forall a | a in u.slots && a.Node? :: a in t.slots
  }

  lemma FlattenKeyInterns(key: Bytes, t: Table)
    requires Dense(t)
    ensures Interns(t, FlattenKey(key, t)) && key in FlattenKey(key, t).keySlots
  {
    hide Dense, Extends;
    if key in t.keySlots {
      ExtendsReflexive(t);
    } else {
      NewKeyIsNew(key, t);
      NewKeyExtends(key, t);
      NewKeyIsDense(key, t);
    }
  }

  lemma ExtendsReflexive(t: Table)
    ensures Extends(t, t)
  {
  }

  lemma NewKeyIsNew(key: Bytes, t: Table)
    requires Dense(t) && key !in t.keySlots
    ensures KeyObject(key) !in t.slots
  {
  }

  lemma NewKeyExtends(key: Bytes, t: Table)
    requires key !in t.keySlots && KeyObject(key) !in t.slots
    ensures Extends(t, FlattenKey(key, t))
  {
  }

  lemma NewKeyIsDense(key: Bytes, t: Table)
    requires Dense(t) && key !in t.keySlots && KeyObject(key) !in t.slots
    ensures Dense(FlattenKey(key, t))
  {
  }

  lemma InternsTransitive(t: Table, u: Table, v: Table)
    requires Interns(t, u) && Interns(u, v)
    ensures Interns(t, v)
  {
    ExtendsTransitive(t, u, v);
    LinkedStays(u, v, |t.objects|);
  }

  lemma {:induction false} FlattenKeysInterns(entries: seq<Entry<Plist>>, t: Table)
    requires Dense(t)
    ensures Interns(t, FlattenKeys(entries, t)) && KeysInterned(entries, FlattenKeys(entries, t))
    decreases |entries|
  {
    hide Dense;
    if entries != [] {
      var mid := FlattenKey(entries[0].key, t);
      FlattenKeyInterns(entries[0].key, t);
      FlattenKeysInterns(entries[1..], mid);
      InternsTransitive(t, mid, FlattenKeys(entries, t));
      assert forall i | 1 <= i < |entries| :: entries[i] == entries[1..][i - 1];
    }
  }

  lemma {:induction false} PlacedStays(value: Plist, at: Address, t: Table, u: Table)
    requires Placed(value, at, t) && Extends(t, u)
    ensures Placed(value, at, u)
    decreases value
  {
    forall i | 0 <= i < Arity(value) ensures Placed(Element(value, i), Child(at, i), u) {
      PlacedStays(Element(value, i), Child(at, i), t, u);
    }
  }

  lemma LinkedStays(t: Table, u: Table, first: nat)
    requires LinkedFrom(t, first) && Extends(t, u) && LinkedFrom(u, |t.objects|)
    ensures LinkedFrom(u, first)
  {
    forall i | first <= i < |u.objects| ensures Linked(u.objects[i], u) {
      if i < |t.objects| {
        assert Linked(t.objects[i], t);
      }
    }
  }

  /** Flattening a tree into vacant addresses places every node and keeps the table dense. */
  lemma {:induction false} FlattenPlaces(value: Plist, at: Address, t: Table)
    requires Dense(t) && Vacant(at, t)
    ensures var u := Flatten(value, at, t);
            Grows(t, u, at) && Placed(value, at, u) && LinkedFrom(u, |t.objects|)
    decreases value, Arity(value) + 1
  {
    assert at.path <= at.path;
    var own := AddObject(t, at, value);
    AddObjectGrows(t, at, value);
    var keyed := if value.Dictionary? then FlattenKeys(value.entries, own) else own;
    if value.Dictionary? {
      FlattenKeysInterns(value.entries, own);
    }
    ElementsVacant(value, at, t, own, keyed);
    ElementsPlaced(value, at, 0, keyed);
    NodePlaced(value, at, t, keyed, FlattenElements(value, at, 0, keyed));
  }

  lemma ChildBelow(at: Address, index: nat, path: seq<nat>)
    requires at.Node?
    ensures Child(at, index).path <= path ==> at.path <= path
  {
  }

  lemma ElementsVacant(value: Plist, at: Address, t: Table, own: Table, keyed: Table)
    requires Vacant(at, t) && own == AddObject(t, at, value) && Interns(own, keyed)
    ensures forall j | 0 <= j < Arity(value) :: Vacant(Child(at, j), keyed)
  {
    forall j, a | 0 <= j < Arity(value) && a in keyed.slots && a.Node? ensures !(Child(at, j).path <= a.path) {
      ChildBelow(at, j, a.path);
    }
  }

  lemma NodePlaced(value: Plist, at: Address, t: Table, keyed: Table, u: Table)
    requires Dense(t) && at.Node? && at !in t.slots && Interns(AddObject(t, at, value), keyed) && Grows(keyed, u, at)
    requires value.Dictionary? ==> KeysInterned(value.entries, keyed)
    requires LinkedFrom(u, |keyed.objects|)
    requires forall j | 0 <= j < Arity(value) :: Placed(Element(value, j), Child(at, j), u)
    ensures Grows(t, u, at) && Placed(value, at, u) && LinkedFrom(u, |t.objects|)
  {
    hide Dense;
    var own := AddObject(t, at, value);
    AddObjectGrows(t, at, value);
    ExtendsTransitive(t, own, keyed);
    ExtendsTransitive(t, keyed, u);
    LinkedStays(keyed, u, |own.objects|);
    assert own.slots[at] == |t.objects| && own.objects[|t.objects|] == Slot(at, value);
    assert Linked(u.objects[|t.objects|], u);
  }

  lemma {:induction false} ElementsPlaced(value: Plist, at: Address, index: nat, t: Table)
    requires at.Node? && index <= Arity(value) && Dense(t)
    requires forall j | index <= j < Arity(value) :: Vacant(Child(at, j), t)
    ensures var u := FlattenElements(value, at, index, t);
            && Grows(t, u, at) && LinkedFrom(u, |t.objects|)
            && forall j | index <= j < Arity(value) :: Placed(Element(value, j), Child(at, j), u)
    decreases value, Arity(value) - index
  {
    hide Dense, Extends, AddsOnlyWithin, Placed, Vacant, Flatten, Linked;
    GrowsReflexive(t, at);
    if index < Arity(value) {
      var child := Child(at, index);
      var mid := Flatten(Element(value, index), child, t);
      FlattenPlaces(Element(value, index), child, t);
      SiblingsVacant(value, at, index, t, mid);
      ElementsPlaced(value, at, index + 1, mid);
      var u := FlattenElements(value, at, index, t);
      PlacedStays(Element(value, index), child, mid, u);
      ElementGrows(at, index, t, mid, u);
    }
  }

  lemma SiblingsVacant(value: Plist, at: Address, index: nat, t: Table, mid: Table)
    requires at.Node? && AddsOnlyWithin(t, mid, Child(at, index))
    requires forall j | index <= j < Arity(value) :: Vacant(Child(at, j), t)
    ensures forall j | index < j < Arity(value) :: Vacant(Child(at, j), mid)
  {
    forall j, a | index < j < Arity(value) && a in mid.slots && a.Node?
      ensures !(Child(at, j).path <= a.path)
    {
      if a !in t.slots {
        assert Child(at, index).path <= a.path;
        assert a.path[|at.path|] == index;
      }
    }
  }

  lemma ElementGrows(at: Address, index: nat, t: Table, mid: Table, u: Table)
    requires at.Node? && Grows(t, mid, Child(at, index)) && Grows(mid, u, at)
    requires LinkedFrom(mid, |t.objects|) && LinkedFrom(u, |mid.objects|)
    ensures Grows(t, u, at) && LinkedFrom(u, |t.objects|)
  {
    ExtendsTransitive(t, mid, u);
    LinkedStays(mid, u, |t.objects|);
    forall a | a in u.slots && a.Node? && a !in t.slots ensures at.path <= a.path {
      if a in mid.slots {
        assert Child(at, index).path <= a.path;
      }
    }
  }

  /** The table of a whole tree: dense, every node in its own slot, every reference resolvable. */
  lemma TableOf(value: Plist)
    ensures var t := Flatten(value, ROOT, EMPTY);
            Dense(t) && Placed(value, ROOT, t) && LinkedFrom(t, 0)
  {
    FlattenPlaces(value, ROOT, EMPTY);
  }

  // ---------------------------------------------------------------------------
  // The flattener, growing its three collections in place
  // ---------------------------------------------------------------------------

  class Flattener {
    var objects: seq<Slot>
    var slots: map<Address, nat>
    var keySlots: map<Bytes, nat>

    ghost function Contents(): Table
      reads this
    {
      Table(objects, slots, keySlots)
    }

    constructor ()
      ensures Contents() == EMPTY
    {
      objects, slots, keySlots := [], map[], map[];
    }

    method Visit(value: Plist, at: Address)
      requires at.KeyObject? ==> value.String?
      modifies this
      ensures Contents() == Flatten(value, at, old(Contents()))
      decreases value.Container(), value
    {
      if at in slots {
        return;
      }
      var slot := |objects|;
      objects := objects + [Slot(at, value)];
      slots := slots[at := slot];
      ghost var own := Contents();

      if value.Array? {
        for i := 0 to |value.items|
          invariant FlattenElements(value, at, 0, own) == FlattenElements(value, at, i, Contents())
        {
          Visit(value.items[i], Child(at, i));
        }
      } else if value.Dictionary? {
        for i := 0 to |value.entries|
          invariant FlattenKeys(value.entries, own) == FlattenKeys(value.entries[i..], Contents())
        {
          var key := value.entries[i].key;
          ghost var before := Contents();
          if key !in keySlots {
            keySlots := keySlots[key := |objects|];
            Visit(String(key), KeyObject(key));
          }
          assert Contents() == FlattenKey(key, before);
          assert value.entries[i..][1..] == value.entries[i + 1..];
        }
        ghost var keyed := Contents();
        for i := 0 to |value.entries|
          invariant FlattenElements(value, at, 0, keyed) == FlattenElements(value, at, i, Contents())
        {
          Visit(value.entries[i].value, Child(at, i));
        }
      }
    }
  }
}
