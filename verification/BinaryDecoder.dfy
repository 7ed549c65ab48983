/**
 The binary plist decoder with its memo table and cycle guard. It decodes an object exactly
 when plain unfolding does, and to the same value.
 */
module BinaryDecoder {
  import opened Words
  import opened Dictionaries
  import opened Plists
  import opened BinaryFormat
  import opened BinaryWriter
  import opened BinaryReader

  /** The objects that are not being decoded, which shrink along every chain of calls. */
  ghost function Idle(active: seq<bool>): set<nat> {
    set i: nat | i < |active| && !active[i]
  }

  lemma ActivatingShrinksIdle(active: seq<bool>, index: nat)
    requires index < |active| && !active[index]
    ensures Idle(active[index := true]) < Idle(active)
  {
    assert index in Idle(active) && index !in Idle(active[index := true]);
  }

  /** Every filled cache slot equals its plain decoding. */
  ghost predicate CacheSound(f: File, cache: seq<Option<Plist>>)
    requires f.refSize > 0
  {
    forall j | 0 <= j < |cache| && cache[j].Some? :: Unfolds(f, j, cache[j].value)
  }

  /** `index` unfolds within `n` levels, and no object being decoded does. */
  ghost predicate Unblocked(f: File, index: nat, n: nat, active: seq<bool>)
    requires f.refSize > 0
  {
    Unfold(f, index, n).Some? && forall a | 0 <= a < |active| && active[a] :: Unfold(f, a, n) == None
  }

  /** `index` unfolds within `n` levels below itself, and no object being decoded does within `n`. */
  ghost predicate BodyUnblocked(f: File, index: nat, n: nat, active: seq<bool>)
    requires f.refSize > 0
  {
    Unfold(f, index, n + 1).Some? && forall a | 0 <= a < |active| && active[a] :: Unfold(f, a, n) == None
  }

  /**
   Marking an object active never blocks its own decoding: at its least depth the object
   itself does not unfold one level earlier, so its elements do not reach back to it.
   */
  lemma ActivatingKeepsUnblocked(f: File, index: nat, m: nat, active: seq<bool>) returns (n: nat)
    requires f.refSize > 0 && index < |active| && Unblocked(f, index, m, active)
    ensures BodyUnblocked(f, index, n, active[index := true])
  {
    var least := LeastDepth(f, index, m);
    n := least - 1;
    forall a | 0 <= a < |active| && active[index := true][a] ensures Unfold(f, a, n) == None {
      if a != index && Unfold(f, a, n).Some? {
        UnfoldMonotone(f, a, n, m);
      }
    }
  }

  // ---------------------------------------------------------------------------
  // Reading fields at a position
  // ---------------------------------------------------------------------------

  lemma WrappedShift(total: nat, b: Byte)
    ensures (total % TWO_TO_THE_64 * 256 + b) % TWO_TO_THE_64 == (total * 256 + b) % TWO_TO_THE_64
  {
    var q, m := total / TWO_TO_THE_64, total % TWO_TO_THE_64;
    var low := m * 256 + b;
    QuotientIs(total * 256 + b, TWO_TO_THE_64, 256 * q + low / TWO_TO_THE_64, low % TWO_TO_THE_64);
  }

  /** `read_be`: the big-endian value of `size` bytes, wrapped to 64 bits. */
  method ReadBigEndian(bytes: Bytes, position: nat, size: nat) returns (value: Word64)
    requires position + size <= |bytes|
    ensures value == Field(bytes[position..], size)
  {
    ghost var s := bytes[position..];
    value := 0;
    for i := 0 to size
      invariant value == FromBigEndian(s[..i]) % TWO_TO_THE_64
    {
      assert s[..i + 1][..i] == s[..i];
      WrappedShift(FromBigEndian(s[..i]), bytes[position + i]);
      value := (value * 256 + bytes[position + i]) % TWO_TO_THE_64;
    }
  }

  method ReadUint(bytes: Bytes, position: nat, size: nat) returns (r: Result<Word64>)
    requires position <= |bytes|
    ensures r == if size > |bytes| - position then Err(Protocol) else Ok(Field(bytes[position..], size))
  {
    if size > |bytes| - position {
      return Err(Protocol);
    }
    var value := ReadBigEndian(bytes, position, size);
    return Ok(value);
  }

  method ReadCount(bytes: Bytes, position: nat, info: nat) returns (r: Result<Word64>, next: nat)
    requires position <= |bytes| && info < 16
    ensures r.Ok? <==> HasCount(bytes[position..], info)
    ensures r.Ok? ==> r.value == CountOf(bytes[position..], info)
    ensures r.Ok? ==> next <= |bytes| && bytes[next..] == AfterCount(bytes[position..], info)
  {
    next := position;
    if info != COUNT_FOLLOWS {
      return Ok(info), position;
    }
    if position == |bytes| {
      return Err(Protocol), position;
    }
    var width := Width(bytes[position] % 16);
    assert bytes[position..][1..] == bytes[position + 1..];
    r := ReadUint(bytes, position + 1, width);
    next := position + 1 + width;
  }

  method ReadLowBytes(s: Bytes) returns (text: Bytes)
    ensures text == LowBytes(s)
  {
    text := [];
    var i := 0;
    while i + 2 <= |s|
      invariant i <= |s| && LowBytes(s) == text + LowBytes(s[i..])
    {
      assert s[i..][2..] == s[i + 2..];
      text := text + [s[i + 1]];
      i := i + 2;
    }
  }

  /** The body of an object that is not a container. */
  method ReadLeaf(f: File, kind: Byte, info: nat, position: nat) returns (r: Result<Plist>)
    requires position <= |f.bytes| && info < 16 && f.refSize > 0 && kind !in {MARKER_ARRAY, MARKER_DICTIONARY}
    ensures LeafOf(r) == ReadBody(kind, info, f.bytes[position..], f.refSize, f.doubles)
    ensures r.Err? ==> r == Err(Protocol)
  {
    hide Field, CountOf, AfterCount, HasCount, LowBytes;
    if kind == MARKER_NULL {
      return Ok(Null);
    }
    if kind in {MARKER_INT, MARKER_REAL, MARKER_DATE, MARKER_UID} {
      var size := if kind == MARKER_DATE then 8 else Width(info);
      var raw := ReadUint(f.bytes, position, size);
      if raw.Err? {
        return Err(Protocol);
      }
      if kind == MARKER_INT {
        return Ok(Integer(SignExtend(raw.value, size)));
      } else if kind == MARKER_UID {
        return Ok(Uid(raw.value));
      } else if kind == MARKER_DATE {
        return Ok(Date(f.doubles.toSeconds(raw.value)));
      }
      return Ok(Real(if size == 8 then raw.value
                     else if size == 4 then f.doubles.widen(raw.value % TWO_TO_THE_32)
                     else 0));
    }
    if kind !in {MARKER_DATA, MARKER_ASCII, MARKER_UTF16} {
      return Err(Protocol);
    }
    var count, start := ReadCount(f.bytes, position, info);
    if count.Err? {
      return Err(Protocol);
    }
    r := ReadBytes(f.bytes, kind, start, count.value);
  }

  /** The bytes of a data or string object, bounds-checked before they are copied. */
  method ReadBytes(bytes: Bytes, kind: Byte, start: nat, count: nat) returns (r: Result<Plist>)
    requires start <= |bytes| && kind in {MARKER_DATA, MARKER_ASCII, MARKER_UTF16}
    ensures r == ReadRun(kind, bytes[start..], count)
  {
    if count > (if kind == MARKER_UTF16 then (|bytes| - start) / 2 else |bytes| - start) {
      return Err(Protocol);
    }
    if kind == MARKER_DATA {
      assert bytes[start..][..count] == bytes[start..start + count];
      return Ok(Data(bytes[start..start + count]));
    } else if kind == MARKER_ASCII {
      assert bytes[start..][..count] == bytes[start..start + count];
      return Ok(String(bytes[start..start + count]));
    }
    assert bytes[start..][..2 * count] == bytes[start..start + 2 * count];
    var text := ReadLowBytes(bytes[start..start + 2 * count]);
    return Ok(String(text));
  }

  /** The reference at place `i` is the field after the first `i`, or the list ends there. */
  lemma AfterNoRefs(s: Bytes, refSize: nat)
    ensures AfterRefs(s, 0, refSize) == s
  {
  }

  lemma {:induction false} RefsStep(s: Bytes, count: nat, i: nat, refSize: nat)
    requires i < count && i <= |Refs(s, count, refSize)|
    ensures var rest := AfterRefs(s, i, refSize);
            if |rest| < refSize then |Refs(s, count, refSize)| == i
            else && |Refs(s, count, refSize)| > i && Refs(s, count, refSize)[i] == Field(rest, refSize)
                 && AfterRefs(s, i + 1, refSize) == rest[refSize..]
    decreases i
  {
    if i > 0 {
      RefsStep(s[refSize..], count - 1, i - 1, refSize);
    }
  }

  /** Reads up to `count` references; fewer come back when the bytes end first. */
  method ReadKeys(bytes: Bytes, start: nat, count: nat, refSize: nat) returns (keys: seq<nat>, position: nat)
    requires start <= |bytes|
    ensures keys == Refs(bytes[start..], count, refSize)
    ensures |keys| == count ==>
              position <= |bytes| && bytes[position..] == AfterRefs(bytes[start..], count, refSize)
  {
    hide Refs, AfterRefs, Field;
    ghost var s := bytes[start..];
    ghost var refs := Refs(s, count, refSize);
    AfterNoRefs(s, refSize);
    keys, position := [], start;
    for i := 0 to count
      invariant position <= |bytes| && bytes[position..] == AfterRefs(s, i, refSize)
      invariant i <= |refs| && keys == refs[..i]
    {
      RefsStep(s, count, i, refSize);
      var key := ReadUint(bytes, position, refSize);
      if key.Err? {
        return keys, position;
      }
      assert bytes[position..][refSize..] == bytes[position + refSize..];
      keys, position := keys + [key.value], position + refSize;
    }
  }

  // ---------------------------------------------------------------------------
  // What a shape says about unfolding
  // ---------------------------------------------------------------------------

  lemma MalformedNeverUnfolds(f: File, index: nat)
    requires f.refSize > 0 && ShapeAt(f, index).Err?
    ensures forall n: nat :: Unfold(f, index, n) == None
  {
    hide ShapeAt;
  }

  lemma LeafUnfolds(f: File, index: nat, value: Plist)
    requires f.refSize > 0 && ShapeAt(f, index) == Ok(Leaf(value))
    ensures Unfolds(f, index, value)
  {
    hide ShapeAt;
    assert Unfold(f, index, 1) == Some(value);
  }

  lemma ArrayUnfolds(f: File, index: nat, refs: seq<nat>, items: seq<Plist>)
    requires f.refSize > 0 && ShapeAt(f, index) == Ok(ArrayOf(refs)) && FirstUnfoldTo(f, refs, |refs|, items)
    ensures Unfolds(f, index, Array(items))
  {
    hide ShapeAt;
    var m: nat :| UnfoldFirst(f, refs, |refs|, m) == Some(items);
    assert Unfold(f, index, m + 1) == Some(Array(items));
  }

  lemma DictionaryUnfolds(f: File, index: nat, keys: seq<nat>, values: seq<nat>, entries: seq<Entry<Plist>>)
    requires f.refSize > 0 && ShapeAt(f, index) == Ok(DictionaryOf(keys, values)) && |keys| == |values|
    requires PairsUnfoldTo(f, keys, values, |keys|, entries)
    ensures Unfolds(f, index, Dictionary(entries))
  {
    hide ShapeAt;
    var m: nat :| UnfoldPairs(f, keys, values, |keys|, m) == Some(entries);
    assert Unfold(f, index, m + 1) == Some(Dictionary(entries));
  }

  /** When an array's body is unblocked, so is each of its elements. */
  lemma ElementUnblocked(f: File, index: nat, refs: seq<nat>, k: nat, n: nat, active: seq<bool>)
    requires f.refSize > 0 && k < |refs| && BodyUnblocked(f, index, n, active)
    requires ShapeAt(f, index).Ok? ==> ShapeAt(f, index) == Ok(ArrayOf(refs))
    ensures Unblocked(f, refs[k], n, active)
  {
    hide ShapeAt;
    FirstUnfolds(f, refs, |refs|, k, n);
  }

  lemma EntryUnblocked(f: File, index: nat, keys: seq<nat>, values: seq<nat>, k: nat, n: nat, active: seq<bool>)
    requires f.refSize > 0 && k < |keys| == |values| && BodyUnblocked(f, index, n, active)
    requires ShapeAt(f, index).Ok? ==> ShapeAt(f, index) == Ok(DictionaryOf(keys, values))
    ensures Unblocked(f, keys[k], n, active) && Unblocked(f, values[k], n, active)
  {
    hide ShapeAt;
    PairsUnfold(f, keys, values, |keys|, k, n);
  }

  ghost predicate FirstUnfoldTo(f: File, refs: seq<nat>, count: nat, items: seq<Plist>)
    requires f.refSize > 0 && count <= |refs|
  {
    exists m: nat :: UnfoldFirst(f, refs, count, m) == Some(items)
  }

  ghost predicate PairsUnfoldTo(f: File, keys: seq<nat>, values: seq<nat>, count: nat, entries: seq<Entry<Plist>>)
    requires f.refSize > 0 && count <= |keys| == |values|
  {
    exists m: nat :: UnfoldPairs(f, keys, values, count, m) == Some(entries)
  }

  lemma NoElementsYet(f: File, keys: seq<nat>, values: seq<nat>)
    requires f.refSize > 0
    ensures FirstUnfoldTo(f, values, 0, [])
    ensures |keys| == |values| ==> PairsUnfoldTo(f, keys, values, 0, [])
  {
    assert UnfoldFirst(f, values, 0, 0) == Some([]);
    assert |keys| == |values| ==> UnfoldPairs(f, keys, values, 0, 0) == Some([]);
  }

  /** One more element: the depth that serves all of them is the larger of the two. */
  lemma FirstExtends(f: File, refs: seq<nat>, i: nat, items: seq<Plist>, item: Plist)
    requires f.refSize > 0 && i < |refs| && Unfolds(f, refs[i], item)
    requires FirstUnfoldTo(f, refs, i, items)
    ensures FirstUnfoldTo(f, refs, i + 1, items + [item])
  {
    hide ShapeAt;
    var m: nat :| UnfoldFirst(f, refs, i, m) == Some(items);
    var n: nat :| Unfold(f, refs[i], n) == Some(item);
    var depth := if m >= n then m else n;
    UnfoldFirstMonotone(f, refs, i, m, depth);
    UnfoldMonotone(f, refs[i], n, depth);
    assert UnfoldFirst(f, refs, i + 1, depth) == Some(items + [item]);
  }

  lemma PairsExtend(f: File, keys: seq<nat>, values: seq<nat>, i: nat,
                    entries: seq<Entry<Plist>>, key: Plist, item: Plist)
    requires f.refSize > 0 && i < |keys| == |values| && Unfolds(f, keys[i], key) && Unfolds(f, values[i], item)
    requires PairsUnfoldTo(f, keys, values, i, entries)
    ensures PairsUnfoldTo(f, keys, values, i + 1, Emplace(entries, key.StringOr(), item))
  {
    hide ShapeAt, Emplace;
    var m: nat :| UnfoldPairs(f, keys, values, i, m) == Some(entries);
    var n: nat :| Unfold(f, keys[i], n) == Some(key);
    var o: nat :| Unfold(f, values[i], o) == Some(item);
    var depth := Max(m, Max(n, o));
    UnfoldPairsMonotone(f, keys, values, i, m, depth);
    UnfoldMonotone(f, keys[i], n, depth);
    UnfoldMonotone(f, values[i], o, depth);
    assert UnfoldPairs(f, keys, values, i + 1, depth) == Some(Emplace(entries, key.StringOr(), item));
  }

  // ---------------------------------------------------------------------------
  // The decoder
  // ---------------------------------------------------------------------------

  class Decoder {
    const file: File
    var cache: seq<Option<Plist>>
    var active: seq<bool>

    ghost predicate Valid()
      reads this
    {
      file.refSize > 0 && |cache| == |active| == |file.offsets| && CacheSound(file, cache)
    }

    constructor (f: File)
      requires f.refSize > 0
      ensures file == f && Valid() && forall a | 0 <= a < |active| :: !active[a]
    {
      file := f;
      cache := seq(|f.offsets|, _ => None);
      active := seq(|f.offsets|, _ => false);
    }

    /** Decodes object `index`, remembering its value and refusing one that is being decoded. */
    method Decode(index: nat) returns (r: Result<Plist>)
      requires Valid()
      modifies this
      ensures Valid() && active == old(active)
      ensures if r.Ok? then Unfolds(file, index, r.value) else r == Err(Protocol)
      ensures (exists n: nat :: Unblocked(file, index, n, active)) ==> r.Ok?
      decreases Idle(active), 0
    {
      hide Unfold;
      if index >= |file.offsets| {
        OutOfRange(index);
        return Err(Protocol);
      }
      if cache[index].Some? {
        return Ok(cache[index].value);
      }
      if active[index] {
        return Err(Protocol);
      }
      ghost var before := active;
      ActivatingShrinksIdle(active, index);
      active := active[index := true];
      forall m: nat | Unblocked(file, index, m, before)
        ensures exists n: nat :: BodyUnblocked(file, index, n, active)
      {
        var n := ActivatingKeepsUnblocked(file, index, m, before);
      }
      r := DecodeUncached(index);
      active := active[index := false];
      assert active == before;
      if r.Ok? {
        cache := cache[index := Some(r.value)];
      }
    }

    lemma OutOfRange(index: nat)
      requires file.refSize > 0 && index >= |file.offsets|
      ensures forall n: nat :: Unfold(file, index, n) == None
    {
    }

    /** Decodes object `index` from its bytes. */
    method DecodeUncached(index: nat) returns (r: Result<Plist>)
      requires Valid() && index < |file.offsets|
      modifies this
      ensures Valid() && active == old(active)
      ensures if r.Ok? then Unfolds(file, index, r.value) else r == Err(Protocol)
      ensures (exists n: nat :: BodyUnblocked(file, index, n, active)) ==> r.Ok?
      decreases Idle(active), 2
    {
      hide Unfold, ReadBody, Field, CountOf, AfterCount, HasCount, ReadArray, ReadDictionary;
      var position := file.offsets[index];
      if position >= |file.bytes| {
        MalformedNeverUnfolds(file, index);
        return Err(Protocol);
      }
      var marker := file.bytes[position];
      position := position + 1;
      assert file.bytes[position - 1..][1..] == file.bytes[position..];
      if marker == MARKER_FALSE || marker == MARKER_TRUE {
        LeafUnfolds(file, index, Boolean(marker == MARKER_TRUE));
        return Ok(Boolean(marker == MARKER_TRUE));
      }
      var kind, info := marker / 16 * 16, marker % 16;
      if kind == MARKER_ARRAY || kind == MARKER_DICTIONARY {
        r := DecodeContainer(index, kind, info, position);
      } else {
        r := ReadLeaf(file, kind, info, position);
        if r.Ok? {
          LeafUnfolds(file, index, r.value);
        } else {
          MalformedNeverUnfolds(file, index);
        }
      }
    }

    method DecodeContainer(index: nat, kind: Byte, info: nat, position: nat) returns (r: Result<Plist>)
      requires Valid() && position <= |file.bytes| && info < 16 && kind in {MARKER_ARRAY, MARKER_DICTIONARY}
      requires ShapeAt(file, index) == ReadBody(kind, info, file.bytes[position..], file.refSize, file.doubles)
      modifies this
      ensures Valid() && active == old(active)
      ensures if r.Ok? then Unfolds(file, index, r.value) else r == Err(Protocol)
      ensures (exists n: nat :: BodyUnblocked(file, index, n, active)) ==> r.Ok?
      decreases Idle(active), 1, 2
    {
      hide Unfold, ShapeAt, CountOf, AfterCount, HasCount, ReadArray, ReadDictionary;
      var count, start := ReadCount(file.bytes, position, info);
      if count.Err? {
        MalformedNeverUnfolds(file, index);
        return Err(Protocol);
      }
      if kind == MARKER_ARRAY {
        r := DecodeArray(index, start, count.value);
      } else {
        r := DecodeDictionary(index, start, count.value);
      }
    }

    method DecodeArray(index: nat, start: nat, count: nat) returns (r: Result<Plist>)
      requires Valid() && start <= |file.bytes|
      requires ShapeAt(file, index) == ReadArray(file.bytes[start..], count, file.refSize)
      modifies this
      ensures Valid() && active == old(active)
      ensures if r.Ok? then Unfolds(file, index, r.value) else r == Err(Protocol)
      ensures (exists n: nat :: BodyUnblocked(file, index, n, active)) ==> r.Ok?
      decreases Idle(active), 1, 0
    {
      hide Unfold, ShapeAt, Refs, AfterRefs, Field;
      if count > (|file.bytes| - start) / file.refSize {
        MalformedNeverUnfolds(file, index);
        return Err(Protocol);
      }
      ghost var s := file.bytes[start..];
      ghost var refs := Refs(s, count, file.refSize);
      NoElementsYet(file, [], refs);
      AfterNoRefs(s, file.refSize);
      var position: nat := start;
      var items: seq<Plist> := [];
      for i := 0 to count
        invariant Valid() && active == old(active)
        invariant position <= |file.bytes| && file.bytes[position..] == AfterRefs(s, i, file.refSize)
        invariant i <= |refs| && FirstUnfoldTo(file, refs, i, items)
      {
        RefsStep(s, count, i, file.refSize);
        var reference := ReadUint(file.bytes, position, file.refSize);
        if reference.Err? {
          MalformedNeverUnfolds(file, index);
          return Err(Protocol);
        }
        assert file.bytes[position..][file.refSize..] == file.bytes[position + file.refSize..];
        position := position + file.refSize;
        var item := Decode(reference.value);
        if item.Err? {
          forall n: nat | BodyUnblocked(file, index, n, active) ensures Unblocked(file, reference.value, n, active) {
            ElementUnblocked(file, index, refs, i, n, active);
          }
          return Err(Protocol);
        }
        FirstExtends(file, refs, i, items, item.value);
        items := items + [item.value];
      }
      ArrayUnfolds(file, index, refs, items);
      return Ok(Array(items));
    }

    method DecodeDictionary(index: nat, start: nat, count: nat) returns (r: Result<Plist>)
      requires Valid() && start <= |file.bytes|
      requires ShapeAt(file, index) == ReadDictionary(file.bytes[start..], count, file.refSize)
      modifies this
      ensures Valid() && active == old(active)
      ensures if r.Ok? then Unfolds(file, index, r.value) else r == Err(Protocol)
      ensures (exists n: nat :: BodyUnblocked(file, index, n, active)) ==> r.Ok?
      decreases Idle(active), 1, 1
    {
      hide Unfold, ShapeAt, Refs, AfterRefs, Field;
      if count > (|file.bytes| - start) / (2 * file.refSize) {
        MalformedNeverUnfolds(file, index);
        return Err(Protocol);
      }
      ghost var s := file.bytes[start..];
      var keys, position := ReadKeys(file.bytes, start, count, file.refSize);
      if |keys| < count {
        MalformedNeverUnfolds(file, index);
        return Err(Protocol);
      }
      r := DecodeEntries(index, keys, position);
    }

    /** Decodes the entries of a dictionary whose key references are read and whose value references follow. */
    method DecodeEntries(index: nat, keys: seq<nat>, start: nat) returns (r: Result<Plist>)
      requires Valid() && start <= |file.bytes|
      requires var values := Refs(file.bytes[start..], |keys|, file.refSize);
               ShapeAt(file, index) == if |values| < |keys| then Err(Protocol) else Ok(DictionaryOf(keys, values))
      modifies this
      ensures Valid() && active == old(active)
      ensures if r.Ok? then Unfolds(file, index, r.value) else r == Err(Protocol)
      ensures (exists n: nat :: BodyUnblocked(file, index, n, active)) ==> r.Ok?
      decreases Idle(active), 1, 0
    {
      hide Unfold, ShapeAt, Refs, AfterRefs, Field, Emplace;
      ghost var s := file.bytes[start..];
      ghost var read := Refs(s, |keys|, file.refSize);
      ghost var values := read + seq(|keys| - |read|, _ => 0);
      assert |read| == |keys| ==> values == read;
      NoElementsYet(file, keys, values);
      AfterNoRefs(s, file.refSize);
      var position: nat := start;
      var entries: seq<Entry<Plist>> := [];
      for i := 0 to |keys|
        invariant Valid() && active == old(active)
        invariant position <= |file.bytes| && file.bytes[position..] == AfterRefs(s, i, file.refSize)
        invariant i <= |read| && PairsUnfoldTo(file, keys, values, i, entries)
      {
        var key := Decode(keys[i]);
        if key.Err? {
          EntryBlocked(index, keys, values, i);
          return Err(Protocol);
        }
        RefsStep(s, |keys|, i, file.refSize);
        var reference := ReadUint(file.bytes, position, file.refSize);
        if reference.Err? {
          MalformedNeverUnfolds(file, index);
          return Err(Protocol);
        }
        assert file.bytes[position..][file.refSize..] == file.bytes[position + file.refSize..];
        position := position + file.refSize;
        var item := Decode(reference.value);
        if item.Err? {
          EntryBlocked(index, keys, values, i);
          return Err(Protocol);
        }
        PairsExtend(file, keys, values, i, entries, key.value, item.value);
        entries := Emplace(entries, key.value.StringOr(), item.value);
      }
      DictionaryUnfolds(file, index, keys, values, entries);
      return Ok(Dictionary(entries));
    }

    /** When an entry's key or value cannot be decoded, the dictionary's body is blocked. */
    lemma EntryBlocked(index: nat, keys: seq<nat>, values: seq<nat>, i: nat)
      requires file.refSize > 0 && i < |keys| == |values|
      requires ShapeAt(file, index).Ok? ==> ShapeAt(file, index) == Ok(DictionaryOf(keys, values))
      requires (forall n: nat :: !Unblocked(file, keys[i], n, active))
            || (forall n: nat :: !Unblocked(file, values[i], n, active))
      ensures forall n: nat :: !BodyUnblocked(file, index, n, active)
    {
      forall n: nat ensures !BodyUnblocked(file, index, n, active) {
        if BodyUnblocked(file, index, n, active) {
          EntryUnblocked(file, index, keys, values, i, n, active);
        }
      }
    }
  }

  // ---------------------------------------------------------------------------
  // Whole files
  // ---------------------------------------------------------------------------

  /** The trailer's fields, checked the way `parse_binary` checks them, and the offset table. */
  function Locate(bytes: Bytes, doubles: Doubles): (r: Result<(File, nat)>)
    ensures r.Ok? ==> r.value.0.refSize > 0
  {
    if |bytes| < 8 + TRAILER_SIZE || bytes[..8] != HEADER then Err(Protocol)
    else
      var trailer := bytes[|bytes| - TRAILER_SIZE..];
      var offsetSize, refSize := trailer[6], trailer[7];
      var count, top, tableOffset := Field(trailer[8..], 8), Field(trailer[16..], 8), Field(trailer[24..], 8);
      if offsetSize == 0 || refSize == 0 || count == 0 || tableOffset > |bytes|
         || count > (|bytes| - tableOffset) / offsetSize
      then Err(Protocol)
      else Ok((File(bytes, Refs(bytes[tableOffset..], count, offsetSize), refSize, doubles), top))
  }

  /** What a file means: its top object, unfolded plainly. */
  function Parsed(bytes: Bytes, doubles: Doubles): Result<Plist> {
    match Locate(bytes, doubles)
    case Err(e) => Err(e)
    case Ok((f, top)) =>
      var value := Unfold(f, top, |f.offsets|);
      if value.Some? then Ok(value.value) else Err(Protocol)
  }

  lemma {:induction false} GuardedRefsAreWhole(s: Bytes, count: nat, refSize: nat)
    requires count * refSize <= |s|
    ensures |Refs(s, count, refSize)| == count
    decreases count
  {
    if count > 0 {
      assert count * refSize == refSize + (count - 1) * refSize;
      assert (count - 1) * refSize >= 0;
      GuardedRefsAreWhole(s[refSize..], count - 1, refSize);
    }
  }

  lemma GuardBoundsProduct(count: nat, room: nat, unit: nat)
    requires unit > 0 && count <= room / unit
    ensures count * unit <= room
  {
    assert room == unit * (room / unit) + room % unit;
    assert count * unit <= (room / unit) * unit;
  }

  /** Reads the offset table, whose guard makes every read in bounds. */
  method ReadOffsets(bytes: Bytes, tableOffset: nat, count: nat, offsetSize: nat) returns (offsets: seq<nat>)
    requires offsetSize > 0 && tableOffset <= |bytes| && count <= (|bytes| - tableOffset) / offsetSize
    ensures offsets == Refs(bytes[tableOffset..], count, offsetSize)
  {
    hide Refs, AfterRefs, Field;
    ghost var s := bytes[tableOffset..];
    ghost var refs := Refs(s, count, offsetSize);
    GuardBoundsProduct(count, |s|, offsetSize);
    GuardedRefsAreWhole(s, count, offsetSize);
    AfterNoRefs(s, offsetSize);
    offsets := [];
    var position: nat := tableOffset;
    for i := 0 to count
      invariant position <= |bytes| && bytes[position..] == AfterRefs(s, i, offsetSize)
      invariant offsets == refs[..i]
    {
      RefsStep(s, count, i, offsetSize);
      var offset := ReadBigEndian(bytes, position, offsetSize);
      assert bytes[position..][offsetSize..] == bytes[position + offsetSize..];
      offsets, position := offsets + [offset], position + offsetSize;
    }
  }

  /** `parse_binary`: the memoised decoder gives exactly the plain meaning of the file. */
  method ParseBinary(bytes: Bytes, doubles: Doubles) returns (r: Result<Plist>)
    ensures r == Parsed(bytes, doubles)
  {
    hide Unfold, Refs, Field;
    if |bytes| < 8 + TRAILER_SIZE || bytes[..8] != HEADER {
      return Err(Protocol);
    }
    var trailer := bytes[|bytes| - TRAILER_SIZE..];
    var offsetSize, refSize := trailer[6], trailer[7];
    var count := ReadBigEndian(trailer, 8, 8);
    var top := ReadBigEndian(trailer, 16, 8);
    var tableOffset := ReadBigEndian(trailer, 24, 8);
    if offsetSize == 0 || refSize == 0 || count == 0 || tableOffset > |bytes|
       || count > (|bytes| - tableOffset) / offsetSize {
      return Err(Protocol);
    }
    var offsets := ReadOffsets(bytes, tableOffset, count, offsetSize);
    var f := File(bytes, offsets, refSize, doubles);
    var decoder := new Decoder(f);
    r := decoder.Decode(top);
    DecodeMeansUnfold(f, top, r, decoder.active);
  }

  /** A sound and complete answer with nothing active is the plain decoding. */
  lemma DecodeMeansUnfold(f: File, top: nat, r: Result<Plist>, active: seq<bool>)
    requires f.refSize > 0 && forall a | 0 <= a < |active| :: !active[a]
    requires r.Ok? ==> Unfolds(f, top, r.value)
    requires (exists n: nat :: Unblocked(f, top, n, active)) ==> r.Ok?
    ensures r.Ok? <==> Unfold(f, top, |f.offsets|).Some?
    ensures r.Ok? ==> Unfold(f, top, |f.offsets|) == Some(r.value)
  {
    if r.Ok? {
      UnfoldsWithinTable(f, top, r.value);
    } else if Unfold(f, top, |f.offsets|).Some? {
      assert Unblocked(f, top, |f.offsets|, active);
    }
  }
}
