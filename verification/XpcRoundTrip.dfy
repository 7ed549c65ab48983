/**
 The `xpc` codec undoes itself: decoding an encoding gives the value back, and decoding any
 accepted input gives a value whose encoding decodes to it.
 */
module XpcRoundTrip {
  import opened Words
  import opened Dictionaries
  import opened Fields
  import opened XpcFormat

  /** Values whose lengths fit their words, whose strings end before a NUL and whose keys hold none. */
  ghost predicate Encodable(value: Xpc)
    decreases value
  {
    match value
    case Data(data) => |data| < TWO_TO_THE_32
    case String(text) => |text| + 1 < TWO_TO_THE_32 && (text != [] ==> text[|text| - 1] != 0)
    case Array(items) =>
      && |items| < TWO_TO_THE_32 && 4 + |EncodeItems(items, 0)| < TWO_TO_THE_32
      && forall i | 0 <= i < |items| :: Encodable(items[i])
    case Dictionary(entries) =>
      && |entries| < TWO_TO_THE_32 && 4 + |EncodeEntries(entries, 0)| < TWO_TO_THE_32
      && Sorted(entries)
      && forall i | 0 <= i < |entries| :: NulFree(entries[i].key) && Encodable(entries[i].value)
    case _ => true
  }

  ghost predicate NulFree(key: Bytes) {
    forall i | 0 <= i < |key| :: key[i] != 0
  }

  // ---------------------------------------------------------------------------
  // Decoding an encoding
  // ---------------------------------------------------------------------------

  lemma RunBack(run: Bytes, rest: Bytes, offset: nat)
    requires |run| < TWO_TO_THE_32 && offset % 4 == 0
    ensures DecodeRun(Word(|run|) + Padded(run) + rest, offset) == Got(run, 4 + |Padded(run)|)
  {
    hide Word, U32, Zeros, Gap;
    var after := Zeros(Gap(|run|)) + rest;
    var s := Word(|run|) + Padded(run) + rest;
    assert s == Word(|run|) + (run + after);
    WordBack(|run|, run + after);
    assert s[4..4 + |run|] == run;
    GapIsLocal(offset, 4 + |run|);
    GapIsLocal(4, |run|);
  }

  lemma {:induction false} KeyLengthAt(key: Bytes, rest: Bytes)
    requires NulFree(key)
    ensures KeyLength(key + [0] + rest) == |key|
  {
    var s := key + [0] + rest;
    if key != [] {
      KeyLengthAt(key[1..], rest);
      assert s[1..] == key[1..] + [0] + rest;
    }
  }

  lemma KeyBack(key: Bytes, rest: Bytes, offset: nat)
    requires NulFree(key) && offset % 4 == 0
    ensures DecodeKey(EncodeKey(key) + rest, offset) == Got(key, |EncodeKey(key)|)
  {
    var s := EncodeKey(key) + rest;
    var after := Zeros(Gap(|key| + 1)) + rest;
    assert s == key + [0] + after;
    KeyLengthAt(key, after);
    assert s[..|key|] == key;
    GapIsLocal(offset, |key| + 1);
  }

  lemma TrimmedTerminator(text: Bytes)
    requires text != [] ==> text[|text| - 1] != 0
    ensures Trimmed(text + [0]) == text
  {
    assert (text + [0])[..|text|] == text;
  }

  lemma ScalarBack(value: Xpc, rest: Bytes, offset: nat)
    requires !value.Array? && !value.Dictionary? && Encodable(value) && offset % 4 == 0
    ensures DecodeScalar(TypeOf(value), EncodeBody(value) + rest, offset) == Got(value, |EncodeBody(value)|)
  {
    hide Word, LongWord, U32, U64, Padded, DecodeRun, Trimmed, Unsigned64;
    match value
    case Null =>
    case Boolean(flag) => WordBack(if flag then 1 else 0, rest);
    case Int64(number) => LongWordBack(Unsigned64(number), rest); SignedBack(number);
    case Uint64(word) => LongWordBack(word, rest);
    case Double(bits) => LongWordBack(bits, rest);
    case Date(nanoseconds) => LongWordBack(nanoseconds, rest);
    case Data(data) => RunBack(data, rest, offset);
    case String(text) => RunBack(text + [0], rest, offset); TrimmedTerminator(text);
    case Uuid(uuid) => assert (uuid + rest)[..UUID_SIZE] == uuid;
  }

  lemma SignedBack(number: Words.Int64)
    ensures Signed64(Unsigned64(number)) == number
  {
  }

  /**
   Decoding at any aligned offset consumes exactly the encoding and returns the value, whatever
   follows it; in particular the array-count guard never rejects an encoding.
   */
  lemma {:induction false} DecodeBack(value: Xpc, rest: Bytes, offset: nat)
    requires Encodable(value) && offset % 4 == 0
    ensures Decode(Encode(value) + rest, offset) == Got(value, |Encode(value)|)
    decreases value, 1
  {
    hide Word, U32, DecodeScalar, EncodeBody, DecodeItems, DecodeEntries, Encodable;
    var kind, body := TypeOf(value), EncodeBody(value);
    assert Encode(value) + rest == Word(kind) + (body + rest);
    WordBack(kind, body + rest);
    if value.Array? {
      ListBack(value, rest, offset + 4);
    } else if value.Dictionary? {
      ListBack(value, rest, offset + 4);
    } else {
      ScalarBack(value, rest, offset + 4);
    }
  }

  /** The body of a container: its length and count words and then its elements. */
  lemma {:induction false} ListBack(value: Xpc, rest: Bytes, offset: nat)
    requires (value.Array? || value.Dictionary?) && Encodable(value) && offset % 4 == 0
    ensures var body := EncodeBody(value) + rest;
            && |body| >= 8 && U32(body) == |EncodeBody(value)| - 4
            && (value.Array? ==> U32(body[4..]) <= (|body| - 8) / 4)
            && (value.Array? ==>
                  DecodeItems(body[8..], offset + 8, U32(body[4..])) == Got(value.items, |EncodeBody(value)| - 8))
            && (value.Dictionary? ==>
                  DecodeEntries(body[8..], offset + 8, U32(body[4..]), []) ==
                  Got(value.entries, |EncodeBody(value)| - 8))
    decreases value, 0
  {
    hide Word, U32, DecodeItems, DecodeEntries, EncodeItems, EncodeEntries;
    var count := if value.Array? then |value.items| else |value.entries|;
    var elements := if value.Array? then EncodeItems(value.items, 0) else EncodeEntries(value.entries, 0);
    var body := EncodeBody(value) + rest;
    assert body == Word(4 + |elements|) + (Word(count) + (elements + rest));
    WordBack(4 + |elements|, Word(count) + (elements + rest));
    WordBack(count, elements + rest);
    assert body[8..] == body[4..][4..] == elements + rest;
    if value.Array? {
      ItemsAreAligned(value.items, 0);
      ItemsBack(value.items, 0, rest, offset + 8);
      assert value.items[0..] == value.items;
    } else {
      EntriesBack(value.entries, 0, rest, offset + 8);
      assert value.entries[..0] == [];
    }
  }

  lemma {:induction false} ItemsBack(items: seq<Xpc>, index: nat, rest: Bytes, offset: nat)
    requires index <= |items| && offset % 4 == 0 && forall i | index <= i < |items| :: Encodable(items[i])
    ensures DecodeItems(EncodeItems(items, index) + rest, offset, |items| - index)
         == Got(items[index..], |EncodeItems(items, index)|)
    decreases items, |items| - index
  {
    hide Decode, Encode, Encodable, EncodeItems, DecodeItems;
    ItemsFrom(items, index);
    NoItemsLeft(EncodeItems(items, index) + rest, offset);
    if index < |items| {
      var first, more := Encode(items[index]), EncodeItems(items, index + 1);
      ItemSlices(first, more, rest);
      EncodingIsAligned(items[index]);
      DecodeBack(items[index], more + rest, offset);
      ItemsStep(first + more + rest, offset, |items| - index);
      ItemsBack(items, index + 1, rest, offset + |first|);
      assert items[index..] == [items[index]] + items[index + 1..];
    } else {
      assert items[index..] == [];
    }
  }

  lemma ItemsFrom(items: seq<Xpc>, index: nat)
    requires index <= |items|
    ensures EncodeItems(items, index)
         == if index == |items| then [] else Encode(items[index]) + EncodeItems(items, index + 1)
  {
    hide Encode;
  }

  lemma ItemSlices(first: Bytes, more: Bytes, rest: Bytes)
    ensures first + more + rest == first + (more + rest) && (first + more + rest)[|first|..] == more + rest
  {
  }

  lemma {:induction false} EntriesBack(entries: seq<Entry<Xpc>>, index: nat, rest: Bytes, offset: nat)
    requires index <= |entries| && offset % 4 == 0 && Sorted(entries)
    requires forall i | index <= i < |entries| :: NulFree(entries[i].key) && Encodable(entries[i].value)
    ensures DecodeEntries(EncodeEntries(entries, index) + rest, offset, |entries| - index, entries[..index])
         == Got(entries, |EncodeEntries(entries, index)|)
    decreases entries, |entries| - index
  {
    hide Decode, Encode, Encodable, EncodeKey, DecodeKey, NulFree, Emplace, Less, EncodeEntry, EncodeEntries,
         DecodeEntries;
    EntriesFrom(entries, index);
    NoEntriesLeft(EncodeEntries(entries, index) + rest, offset, entries[..index]);
    if index < |entries| {
      var entry, tail := entries[index], EncodeEntries(entries, index + 1) + rest;
      var key, value := EncodeKey(entry.key), Encode(entry.value);
      EntrySlices(key, value, EncodeEntries(entries, index + 1), rest);
      KeyBack(entry.key, value + tail, offset);
      EncodingIsAligned(entry.value);
      KeyIsAligned(entry.key);
      DecodeBack(entry.value, tail, offset + |key|);
      EntriesStep(key + value + EncodeEntries(entries, index + 1) + rest, offset, |entries| - index, entries[..index]);
      EmplaceAppends(entries[..index], entry.key, entry.value);
      assert entries[..index] + [Entry(entry.key, entry.value)] == entries[..index + 1];
      EntriesBack(entries, index + 1, rest, offset + |key| + |value|);
    } else {
      assert entries[..index] == entries;
    }
  }

  lemma EntrySlices(key: Bytes, value: Bytes, more: Bytes, rest: Bytes)
    ensures var s := key + value + more + rest;
            && s == key + (value + (more + rest))
            && s[|key|..] == value + (more + rest)
            && s[|key| + |value|..] == more + rest
  {
    var s := key + value + more + rest;
    assert s == key + (value + (more + rest));
    assert s == (key + value) + (more + rest);
    assert |key + value| == |key| + |value|;
  }

  /** The round trip of one whole object. */
  lemma ParseBack(value: Xpc)
    requires Encodable(value)
    ensures Parse(Encode(value)) == Ok(value)
  {
    hide Decode, Encode, Encodable;
    DecodeBack(value, [], 0);
    assert Encode(value) + [] == Encode(value);
  }
}
