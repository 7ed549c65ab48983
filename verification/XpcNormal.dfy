/**
 `xpc` parsing normalises. Extra NULs, arbitrary padding, repeated keys and any non-zero
 boolean are accepted, and what is read is a value the encoder writes back faithfully.
 */
module XpcNormal {
  import opened Words
  import opened Fields
  import opened Dictionaries
  import opened XpcFormat
  import opened XpcRoundTrip

  lemma {:induction false} TrimmedEndsBeforeNul(text: Bytes)
    ensures var t := Trimmed(text); |t| <= |text| && (t != [] ==> t[|t| - 1] != 0)
  {
    if text != [] && text[|text| - 1] == 0 {
      TrimmedEndsBeforeNul(text[..|text| - 1]);
    }
  }

  lemma DecodedRun(s: Bytes, offset: nat)
    requires offset % 4 == 0 && DecodeRun(s, offset).Got?
    ensures var r := DecodeRun(s, offset);
            r.size == 4 + |Padded(r.value)| && |r.value| < TWO_TO_THE_32 && r.size % 4 == 0
  {
    hide U32, Zeros;
    GapIsLocal(offset, 4 + U32(s));
    GapIsLocal(4, U32(s));
  }

  lemma DecodedKey(s: Bytes, offset: nat)
    requires offset % 4 == 0 && DecodeKey(s, offset).Got?
    ensures var r := DecodeKey(s, offset);
            r.size == |EncodeKey(r.value)| && NulFree(r.value) && r.size % 4 == 0
  {
    hide Zeros;
    GapIsLocal(offset, KeyLength(s) + 1);
  }

  /** A trimmed string is written back in at most four bytes more than it was read from. */
  lemma TrimmedSize(run: Bytes)
    ensures |Padded(Trimmed(run) + [0])| <= |Padded(run)| + 4
  {
    TrimmedEndsBeforeNul(run);
  }

  lemma DecodedScalar(kind: Word32, s: Bytes, offset: nat)
    requires offset % 4 == 0 && DecodeScalar(kind, s, offset).Got?
    requires DecodeScalar(kind, s, offset).size < TWO_TO_THE_31
    ensures var r := DecodeScalar(kind, s, offset);
            && Encodable(r.value) && r.size % 4 == 0 && |EncodeBody(r.value)| <= 2 * r.size
            && !r.value.Array? && !r.value.Dictionary?
  {
    hide U32, U64, Word, LongWord, Padded, Trimmed, DecodeRun, Signed64;
    if kind == DATA_TYPE {
      DecodedRun(s, offset);
    } else if kind == STRING_TYPE {
      DecodedRun(s, offset);
      var run := DecodeRun(s, offset);
      TrimmedEndsBeforeNul(run.value);
      TrimmedSize(run.value);
    }
  }

  /** Accepted objects are encodable, and at most twice as long when written back. */
  lemma {:induction false} DecodedIsEncodable(s: Bytes, offset: nat)
    requires offset % 4 == 0 && Decode(s, offset).Got? && Decode(s, offset).size < TWO_TO_THE_31
    ensures var r := Decode(s, offset);
            Encodable(r.value) && r.size % 4 == 0 && |Encode(r.value)| + 4 <= 2 * r.size
    decreases |s|, 0, 0
  {
    hide U32, Word, DecodeScalar, DecodeContainer, EncodeBody, Encodable;
    var kind, body := U32(s), s[4..];
    if kind == ARRAY_TYPE || kind == DICTIONARY_TYPE {
      DecodedContainer(kind, body, offset + 4);
    } else {
      DecodedScalar(kind, body, offset + 4);
    }
  }

  lemma {:induction false} DecodedContainer(kind: Word32, body: Bytes, offset: nat)
    requires kind in {ARRAY_TYPE, DICTIONARY_TYPE} && offset % 4 == 0
    requires DecodeContainer(kind, body, offset).Got? && DecodeContainer(kind, body, offset).size < TWO_TO_THE_31 - 4
    ensures var r := DecodeContainer(kind, body, offset);
            Encodable(r.value) && r.size % 4 == 0 && |EncodeBody(r.value)| <= 2 * r.size
    decreases |body|, 2, 0
  {
    hide U32, Word, DecodeItems, DecodeEntries, EncodeItems, EncodeEntries, Encodable, Collected;
    var count := U32(body[4..]);
    if kind == ARRAY_TYPE {
      DecodedItemsAreEncodable(body[8..], offset + 8, count);
      ArrayIsEncodable(DecodeItems(body[8..], offset + 8, count).value);
    } else {
      NoEntries();
      DecodedEntriesAreEncodable(body[8..], offset + 8, count, []);
      DictionaryIsEncodable(DecodeEntries(body[8..], offset + 8, count, []).value);
    }
  }

  lemma ArrayIsEncodable(items: seq<Xpc>)
    requires |items| < TWO_TO_THE_32 && 4 + |EncodeItems(items, 0)| < TWO_TO_THE_32
    requires forall i | 0 <= i < |items| :: Encodable(items[i])
    ensures Encodable(Array(items))
  {
  }

  /** Entries the decoder may have collected: sorted, NUL-free, encodable. */
  ghost predicate Collected(entries: seq<Entry<Xpc>>) {
    Sorted(entries) && forall i | 0 <= i < |entries| :: NulFree(entries[i].key) && Encodable(entries[i].value)
  }

  lemma NoEntries()
    ensures Collected([]) && EncodeEntries([], 0) == []
  {
  }

  lemma DictionaryIsEncodable(entries: seq<Entry<Xpc>>)
    requires |entries| < TWO_TO_THE_32 && 4 + |EncodeEntries(entries, 0)| < TWO_TO_THE_32 && Collected(entries)
    ensures Encodable(Dictionary(entries))
  {
  }

  lemma {:induction false} ItemsAfterFirst(first: Xpc, items: seq<Xpc>, index: nat)
    requires index <= |items|
    ensures EncodeItems([first] + items, index + 1) == EncodeItems(items, index)
    decreases |items| - index
  {
    hide Encode, EncodeItems;
    var all := [first] + items;
    ItemsFrom(items, index);
    ItemsFrom(all, index + 1);
    if index < |items| {
      ItemsAfterFirst(first, items, index + 1);
      assert all[index + 1] == items[index];
    }
  }

  lemma {:induction false} DecodedItemsAreEncodable(s: Bytes, offset: nat, count: nat)
    requires offset % 4 == 0 && DecodeItems(s, offset, count).Got? && DecodeItems(s, offset, count).size < TWO_TO_THE_31
    ensures var r := DecodeItems(s, offset, count);
            && r.size % 4 == 0 && |EncodeItems(r.value, 0)| <= 2 * r.size
            && forall i | 0 <= i < |r.value| :: Encodable(r.value[i])
    decreases |s|, 1, count
  {
    hide Decode, Encode, Encodable;
    if count > 0 {
      var first := Decode(s, offset);
      var rest := DecodeItems(s[first.size..], offset + first.size, count - 1);
      DecodedIsEncodable(s, offset);
      DecodedItemsAreEncodable(s[first.size..], offset + first.size, count - 1);
      ItemsAfterFirst(first.value, rest.value, 0);
    }
  }

  // ---------------------------------------------------------------------------
  // Emplacing a repeated key drops it, so the encoding only shrinks
  // ---------------------------------------------------------------------------

  ghost function EntriesSize(entries: seq<Entry<Xpc>>): nat {
    if entries == [] then 0 else |EncodeEntry(entries[0])| + EntriesSize(entries[1..])
  }

  lemma {:induction false} SizeOfEntries(entries: seq<Entry<Xpc>>, index: nat)
    requires index <= |entries|
    ensures |EncodeEntries(entries, index)| == EntriesSize(entries[index..])
    decreases |entries| - index
  {
    hide EncodeEntry;
    if index < |entries| {
      SizeOfEntries(entries, index + 1);
      assert entries[index..][1..] == entries[index + 1..];
    }
  }

  lemma {:induction false} EmplaceSize(entries: seq<Entry<Xpc>>, key: Bytes, value: Xpc)
    ensures EntriesSize(Emplace(entries, key, value)) <= EntriesSize(entries) + |EncodeEntry(Entry(key, value))|
  {
    hide EncodeEntry, Less;
    if entries == [] {
      assert [Entry(key, value)][1..] == [];
    } else if Less(key, entries[0].key) {
      assert ([Entry(key, value)] + entries)[1..] == entries;
    } else if key != entries[0].key {
      EmplaceSize(entries[1..], key, value);
      var rest := Emplace(entries[1..], key, value);
      assert ([entries[0]] + rest)[1..] == rest;
    }
  }

  lemma EmplaceGrows(entries: seq<Entry<Xpc>>, key: Bytes, value: Xpc)
    ensures |EncodeEntries(Emplace(entries, key, value), 0)|
         <= |EncodeEntries(entries, 0)| + |EncodeKey(key)| + |Encode(value)|
  {
    hide Emplace, EncodeKey, Encode, EncodeEntries;
    var more := Emplace(entries, key, value);
    EmplaceSize(entries, key, value);
    SizeOfEntries(entries, 0);
    SizeOfEntries(more, 0);
    assert entries[0..] == entries && more[0..] == more;
  }

  lemma EmplaceCollected(entries: seq<Entry<Xpc>>, key: Bytes, value: Xpc)
    requires Collected(entries) && NulFree(key) && Encodable(value)
    ensures Collected(Emplace(entries, key, value)) && |Emplace(entries, key, value)| <= |entries| + 1
  {
    hide Emplace, Less, Encodable, NulFree;
    EmplaceKeepsOrder(entries, key, value);
  }

  lemma {:induction false} DecodedEntriesAreEncodable(s: Bytes, offset: nat, count: nat, entries: seq<Entry<Xpc>>)
    requires offset % 4 == 0 && DecodeEntries(s, offset, count, entries).Got?
    requires DecodeEntries(s, offset, count, entries).size < TWO_TO_THE_31 && Collected(entries)
    ensures var r := DecodeEntries(s, offset, count, entries);
            && r.size % 4 == 0 && Collected(r.value) && |r.value| <= |entries| + count
            && |EncodeEntries(r.value, 0)| <= |EncodeEntries(entries, 0)| + 2 * r.size
    decreases |s|, 1, count
  {
    hide Decode, Encode, Encodable, Collected, DecodeKey, EncodeKey, Emplace, EncodeEntries, EncodeEntry, NulFree,
         DecodeEntries;
    NoEntriesLeft(s, offset, entries);
    if count > 0 {
      EntriesStep(s, offset, count, entries);
      var key := DecodeKey(s, offset);
      var value := Decode(s[key.size..], offset + key.size);
      var size := key.size + value.size;
      var more := Emplace(entries, key.value, value.value);
      DecodedKey(s, offset);
      DecodedIsEncodable(s[key.size..], offset + key.size);
      EmplaceCollected(entries, key.value, value.value);
      EmplaceGrows(entries, key.value, value.value);
      DecodedEntriesAreEncodable(s[size..], offset + size, count - 1, more);
    }
  }

  /**
   Whatever is accepted below 2^31 bytes is read as a value that its own encoding parses back
   to, so a second encoding gives the same bytes as the first.
   */
  lemma ParseNormalises(bytes: Bytes)
    requires Parse(bytes).Ok? && |bytes| < TWO_TO_THE_31
    ensures var value := Parse(bytes).value;
            Encodable(value) && |Encode(value)| < TWO_TO_THE_32 && Parse(Encode(value)) == Ok(value)
  {
    hide Decode, Encode, Encodable;
    DecodedIsEncodable(bytes, 0);
    ParseBack(Parse(bytes).value);
  }

  /** The exact domain of the round trip, among encodings below 2^31 bytes. */
  lemma ParseBackExactly(value: Xpc)
    requires |Encode(value)| < TWO_TO_THE_31
    ensures Parse(Encode(value)) == Ok(value) <==> Encodable(value)
  {
    hide Parse, Encode, Encodable;
    if Parse(Encode(value)) == Ok(value) {
      ParseNormalises(Encode(value));
    } else if Encodable(value) {
      ParseBack(value);
    }
  }
}
