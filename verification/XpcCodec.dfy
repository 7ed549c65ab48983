/** The RemoteXPC codec: encoders that append to a buffer and a reader that advances an offset. */
module XpcCodec {
  import opened Words
  import opened Dictionaries
  import opened Fields
  import opened XpcFormat

  // ---------------------------------------------------------------------------
  // Encoders
  // ---------------------------------------------------------------------------

  /** Pads the buffer itself to a 4-byte boundary. */
  method Pad(out: ByteVector)
    modifies out
    ensures out.bytes == Padded(old(out.bytes))
  {
    ghost var start := out.bytes;
    ghost var added: nat := 0;
    while |out.bytes| % 4 != 0
      invariant added <= Gap(|start|) && out.bytes == start + Zeros(added)
      decreases Gap(|start|) - added
    {
      out.Push(0);
      added := added + 1;
    }
  }

  /** Padding an aligned buffer after a run pads the run. */
  lemma PaddedAfterAligned(before: Bytes, run: Bytes)
    requires |before| % 4 == 0
    ensures Padded(before + run) == before + Padded(run)
  {
    hide Zeros;
    assert Gap(|before + run|) == Gap(|run|);
  }

  method EncodeKeyInto(key: Bytes, out: ByteVector)
    requires |out.bytes| % 4 == 0
    modifies out
    ensures out.bytes == old(out.bytes) + EncodeKey(key)
  {
    hide Padded;
    for i := 0 to |key|
      invariant out.bytes == old(out.bytes) + key[..i]
    {
      out.Push(key[i]);
    }
    out.Push(0);
    assert out.bytes == old(out.bytes) + (key + [0]);
    Pad(out);
    PaddedAfterAligned(old(out.bytes), key + [0]);
  }

  /** Appends a length word and a run of bytes, and pads. */
  method EncodeRun(run: Bytes, out: ByteVector)
    requires |out.bytes| % 4 == 0
    modifies out
    ensures out.bytes == old(out.bytes) + (Word(|run|) + Padded(run))
  {
    hide Padded, Word;
    AppendU32(out, |run|);
    ghost var before := out.bytes;
    out.Insert(run);
    Pad(out);
    PaddedAfterAligned(before, run);
  }

  /** Appends the object; the buffer is aligned before and after, which every caller keeps. */
  method EncodeObject(value: Xpc, out: ByteVector)
    requires |out.bytes| % 4 == 0
    modifies out
    ensures out.bytes == old(out.bytes) + Encode(value) && |out.bytes| % 4 == 0
    decreases value, 1
  {
    hide Word, EncodeBody;
    EncodingIsAligned(value);
    AppendU32(out, TypeOf(value));
    EncodeValue(value, out);
  }

  method EncodeValue(value: Xpc, out: ByteVector)
    requires |out.bytes| % 4 == 0
    modifies out
    ensures out.bytes == old(out.bytes) + EncodeBody(value)
    decreases value, 0
  {
    hide Word, LongWord, Padded, EncodeItems, EncodeEntries, EncodeList, Unsigned64;
    match value
    case Null =>
    case Boolean(flag) => AppendU32(out, if flag then 1 else 0);
    case Int64(number) => AppendU64(out, Unsigned64(number));
    case Uint64(word) => AppendU64(out, word);
    case Double(bits) => AppendU64(out, bits);
    case Date(nanoseconds) => AppendU64(out, nanoseconds);
    case Data(data) => EncodeRun(data, out);
    case String(text) => EncodeText(text, out);
    case Uuid(uuid) => out.Insert(uuid);
    case Array(items) => EncodeArray(items, out);
    case Dictionary(entries) => EncodeDictionary(entries, out);
  }

  /** A string with its terminator: the length word counts the NUL. */
  method EncodeText(text: Bytes, out: ByteVector)
    requires |out.bytes| % 4 == 0
    modifies out
    ensures out.bytes == old(out.bytes) + (Word(|text| + 1) + Padded(text + [0]))
  {
    hide Padded, Word;
    AppendU32(out, |text| + 1);
    ghost var before := out.bytes;
    for i := 0 to |text|
      invariant out.bytes == before + text[..i]
    {
      out.Push(text[i]);
    }
    out.Push(0);
    assert out.bytes == before + (text + [0]);
    Pad(out);
    PaddedAfterAligned(before, text + [0]);
  }

  /** Encodes an array's elements in a buffer of its own, whose size is written before it. */
  method EncodeArray(items: seq<Xpc>, out: ByteVector)
    modifies out
    ensures out.bytes == old(out.bytes) + EncodeList(|items|, EncodeItems(items, 0))
    decreases items, 0
  {
    hide Word, Encode;
    var body := new ByteVector();
    AppendU32(body, |items|);
    for i := 0 to |items|
      invariant body.bytes + EncodeItems(items, i) == Word(|items|) + EncodeItems(items, 0)
      invariant |body.bytes| % 4 == 0 && out.bytes == old(out.bytes)
    {
      EncodeObject(items[i], body);
    }
    AppendU32(out, |body.bytes|);
    out.Insert(body.bytes);
  }

  method EncodeDictionary(entries: seq<Entry<Xpc>>, out: ByteVector)
    modifies out
    ensures out.bytes == old(out.bytes) + EncodeList(|entries|, EncodeEntries(entries, 0))
    decreases entries, 0
  {
    hide Word, Encode, EncodeKey, EncodeEntries, EncodeEntry;
    var body := new ByteVector();
    AppendU32(body, |entries|);
    for i := 0 to |entries|
      invariant body.bytes + EncodeEntries(entries, i) == Word(|entries|) + EncodeEntries(entries, 0)
      invariant |body.bytes| % 4 == 0 && out.bytes == old(out.bytes)
    {
      EntriesFrom(entries, i);
      KeyIsAligned(entries[i].key);
      EncodeKeyInto(entries[i].key, body);
      EncodeObject(entries[i].value, body);
    }
    EntriesFrom(entries, |entries|);
    AppendU32(out, |body.bytes|);
    out.Insert(body.bytes);
  }

  // ---------------------------------------------------------------------------
  // The reader
  // ---------------------------------------------------------------------------

  class Reader {
    const bytes: Bytes
    var offset: nat

    ghost predicate Valid()
      reads this
    {
      offset <= |bytes|
    }

    ghost function Rest(): Bytes
      requires Valid()
      reads this
    {
      bytes[offset..]
    }

    constructor (source: Bytes)
      ensures bytes == source && offset == 0 && Valid()
    {
      bytes, offset := source, 0;
    }

    predicate Has(count: nat)
      requires Valid()
      reads this
    {
      count <= |bytes| - offset
    }

    method ReadU32() returns (r: Result<Word32>)
      requires Valid()
      modifies this
      ensures Valid()
      ensures if |old(Rest())| < 4 then r == Err(Protocol) && offset == old(offset)
              else r == Ok(U32(old(Rest()))) && offset == old(offset) + 4
    {
      if !Has(4) {
        return Err(Protocol);
      }
      ghost var s := Rest();
      var value := 0;
      for i := 0 to 4
        invariant offset == old(offset) && value == FromLittleEndian(s[..4][..i])
      {
        LittleEndianStep(s[..4], i);
        value := value + bytes[offset + i] * Pow256(i);
      }
      assert s[..4][..4] == s[..4];
      FromLittleEndianBound(s[..4]);
      Pow256Values();
      offset := offset + 4;
      return Ok(value);
    }

    method ReadU64() returns (r: Result<Word64>)
      requires Valid()
      modifies this
      ensures Valid()
      ensures if |old(Rest())| < 8 then r == Err(Protocol) && offset == old(offset)
              else r == Ok(U64(old(Rest()))) && offset == old(offset) + 8
    {
      if !Has(8) {
        return Err(Protocol);
      }
      ghost var s := Rest();
      var value := 0;
      for i := 0 to 8
        invariant offset == old(offset) && value == FromLittleEndian(s[..8][..i])
      {
        LittleEndianStep(s[..8], i);
        value := value + bytes[offset + i] * Pow256(i);
      }
      assert s[..8][..8] == s[..8];
      FromLittleEndianBound(s[..8]);
      Pow256Values();
      offset := offset + 8;
      return Ok(value);
    }

    method Take(count: nat) returns (r: Result<Bytes>)
      requires Valid()
      modifies this
      ensures Valid()
      ensures if count > |old(Rest())| then r == Err(Protocol) && offset == old(offset)
              else r == Ok(old(Rest())[..count]) && offset == old(offset) + count
    {
      if !Has(count) {
        return Err(Protocol);
      }
      r := Ok(bytes[offset..offset + count]);
      assert bytes[offset..offset + count] == Rest()[..count];
      offset := offset + count;
    }

    method SkipPadding() returns (ok: bool)
      requires Valid()
      modifies this
      ensures Valid() && ok == (Gap(old(offset)) <= |old(Rest())|)
      ensures offset == if ok then old(offset) + Gap(old(offset)) else old(offset)
    {
      var remainder := offset % 4;
      if remainder == 0 {
        return true;
      }
      if !Has(4 - remainder) {
        return false;
      }
      offset := offset + (4 - remainder);
      return true;
    }

    method ReadKey() returns (r: Result<Bytes>)
      requires Valid()
      modifies this
      ensures Valid()
      ensures var d := DecodeKey(old(Rest()), old(offset));
              if d.Bad? then r == Err(Protocol) else r == Ok(d.value) && offset == old(offset) + d.size
    {
      hide Gap;
      ghost var s := Rest();
      var key: Bytes := [];
      while true
        invariant Valid() && offset == old(offset) + |key| && s == old(Rest())
        invariant |key| <= KeyLength(s) && key == s[..|key|]
        decreases |bytes| - offset
      {
        var byte := Take(1);
        if byte.Err? {
          return Err(Protocol);
        }
        assert byte.value[0] == s[|key|];
        if byte.value[0] == 0 {
          break;
        }
        key := key + [byte.value[0]];
      }
      var aligned := SkipPadding();
      return if aligned then Ok(key) else Err(Protocol);
    }

    method ReadRun() returns (r: Result<Bytes>)
      requires Valid()
      modifies this
      ensures Valid()
      ensures var d := DecodeRun(old(Rest()), old(offset));
              if d.Bad? then r == Err(Protocol) else r == Ok(d.value) && offset == old(offset) + d.size
    {
      hide Gap, U32;
      ghost var s := Rest();
      var length := ReadU32();
      if length.Err? {
        return Err(Protocol);
      }
      assert Rest() == s[4..];
      var payload := Take(length.value);
      if payload.Err? {
        return Err(Protocol);
      }
      assert payload.value == s[4..4 + length.value];
      var aligned := SkipPadding();
      return if aligned then payload else Err(Protocol);
    }

    method Trim(run: Bytes) returns (text: Bytes)
      ensures text == Trimmed(run)
    {
      text := run;
      while text != [] && text[|text| - 1] == 0
        invariant Trimmed(text) == Trimmed(run)
      {
        text := text[..|text| - 1];
      }
    }

    method ReadScalar(kind: Word32) returns (r: Result<Xpc>)
      requires Valid()
      modifies this
      ensures Valid()
      ensures var d := DecodeScalar(kind, old(Rest()), old(offset));
              if d.Bad? then r == Err(Protocol) else r == Ok(d.value) && offset == old(offset) + d.size
    {
      hide U32, U64, DecodeRun, Trimmed;
      if kind == NULL_TYPE {
        return Ok(Null);
      } else if kind == BOOLEAN_TYPE {
        var value := ReadU32();
        return if value.Ok? then Ok(Boolean(value.value != 0)) else Err(Protocol);
      } else if kind in {INT64_TYPE, UINT64_TYPE, DOUBLE_TYPE, DATE_TYPE} {
        var value := ReadU64();
        if value.Err? {
          return Err(Protocol);
        }
        return Ok(if kind == INT64_TYPE then Int64(Signed64(value.value))
                  else if kind == UINT64_TYPE then Uint64(value.value)
                  else if kind == DOUBLE_TYPE then Double(value.value) else Date(value.value));
      } else if kind == UUID_TYPE {
        var value := Take(UUID_SIZE);
        return if value.Ok? then Ok(Uuid(value.value)) else Err(Protocol);
      } else if kind == DATA_TYPE {
        var run := ReadRun();
        return if run.Ok? then Ok(Data(run.value)) else Err(Protocol);
      } else if kind == STRING_TYPE {
        var run := ReadRun();
        if run.Err? {
          return Err(Protocol);
        }
        var text := Trim(run.value);
        return Ok(String(text));
      }
      return Err(Protocol);
    }

    /** Reads one object. Each call advances the offset by at least 4, so the recursion ends. */
    method ReadObject() returns (r: Result<Xpc>)
      requires Valid()
      modifies this
      ensures Valid()
      ensures var d := Decode(old(Rest()), old(offset));
              if d.Bad? then r == Err(Protocol) else r == Ok(d.value) && offset == old(offset) + d.size
      decreases |bytes| - offset, 0, 0
    {
      hide U32, DecodeScalar, DecodeItems, DecodeEntries;
      ghost var s := Rest();
      var kind := ReadU32();
      if kind.Err? {
        return Err(Protocol);
      }
      assert Rest() == s[4..];
      if kind.value == ARRAY_TYPE || kind.value == DICTIONARY_TYPE {
        r := ReadContainer(kind.value);
      } else {
        r := ReadScalar(kind.value);
      }
    }

    method ReadContainer(kind: Word32) returns (r: Result<Xpc>)
      requires Valid() && kind in {ARRAY_TYPE, DICTIONARY_TYPE}
      modifies this
      ensures Valid()
      ensures var d := DecodeContainer(kind, old(Rest()), old(offset));
              if d.Bad? then r == Err(Protocol) else r == Ok(d.value) && offset == old(offset) + d.size
      decreases |bytes| - offset, 2, 0
    {
      hide U32, DecodeItems, DecodeEntries;
      ghost var body := Rest();
      var length := ReadU32();
      if length.Err? {
        return Err(Protocol);
      }
      assert Rest() == body[4..];
      var start := offset;
      var count := ReadU32();
      if count.Err? {
        return Err(Protocol);
      }
      assert Rest() == body[8..];
      if kind == ARRAY_TYPE {
        if count.value > (|bytes| - offset) / 4 {
          return Err(Protocol);
        }
        var items := ReadItems(count.value);
        if items.Err? || offset - start != length.value {
          return Err(Protocol);
        }
        return Ok(Array(items.value));
      }
      var entries := ReadEntries(count.value);
      if entries.Err? || offset - start != length.value {
        return Err(Protocol);
      }
      return Ok(Dictionary(entries.value));
    }

    method ReadItems(count: nat) returns (r: Result<seq<Xpc>>)
      requires Valid()
      modifies this
      ensures Valid()
      ensures var d := DecodeItems(old(Rest()), old(offset), count);
              if d.Bad? then r == Err(Protocol) else r == Ok(d.value) && offset == old(offset) + d.size
      decreases |bytes| - offset, 1, count
    {
      hide Decode, DecodeItems;
      var items: seq<Xpc> := [];
      ghost var whole := DecodeItems(Rest(), offset, count);
      NothingBefore(whole);
      for i := 0 to count
        invariant Valid() && old(offset) <= offset
        invariant whole == After(items, offset - old(offset), DecodeItems(Rest(), offset, count - i))
      {
        ghost var s, start := Rest(), offset;
        ItemsStep(s, start, count - i);
        var element := ReadObject();
        if element.Err? {
          return Err(Protocol);
        }
        assert Rest() == s[offset - start..];
        AfterAfter(items, start - old(offset), [element.value], offset - start,
                   DecodeItems(Rest(), offset, count - i - 1));
        items := items + [element.value];
      }
      NoItemsLeft(Rest(), offset);
      assert items + [] == items;
      return Ok(items);
    }

    method ReadEntries(count: nat) returns (r: Result<seq<Entry<Xpc>>>)
      requires Valid()
      modifies this
      ensures Valid()
      ensures var d := DecodeEntries(old(Rest()), old(offset), count, []);
              if d.Bad? then r == Err(Protocol) else r == Ok(d.value) && offset == old(offset) + d.size
      decreases |bytes| - offset, 1, count
    {
      hide Decode, DecodeKey, Emplace, DecodeEntries;
      var entries: seq<Entry<Xpc>> := [];
      ghost var whole := DecodeEntries(Rest(), offset, count, []);
      for i := 0 to count
        invariant Valid() && old(offset) <= offset
        invariant whole == Past(offset - old(offset), DecodeEntries(Rest(), offset, count - i, entries))
      {
        ghost var s, start := Rest(), offset;
        EntriesStep(s, start, count - i, entries);
        var key := ReadKey();
        if key.Err? {
          return Err(Protocol);
        }
        assert Rest() == s[offset - start..];
        var value := ReadObject();
        if value.Err? {
          return Err(Protocol);
        }
        assert Rest() == s[offset - start..];
        entries := Emplace(entries, key.value, value.value);
      }
      NoEntriesLeft(Rest(), offset, entries);
      return Ok(entries);
    }
  }
}
