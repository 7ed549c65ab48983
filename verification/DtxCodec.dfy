/** The DTX codec: encoders that append to a buffer and a reader that advances an offset. */
module DtxCodec {
  import opened Words
  import opened Fields
  import opened DtxFormat

  // ---------------------------------------------------------------------------
  // Encoders
  // ---------------------------------------------------------------------------

  method AppendU16(out: ByteVector, value: Word16)
    modifies out
    ensures out.bytes == old(out.bytes) + HalfWord(value)
  {
    out.PutLittleEndian(value, 2);
  }

  method EncodeValueInto(v: DtxValue, out: ByteVector)
    modifies out
    ensures out.bytes == old(out.bytes) + EncodeValue(v)
  {
    hide Word, LongWord, Unsigned32, Unsigned64;
    AppendU32(out, TypeOf(v));
    match v
    case Null =>
    case Int32(n) => AppendU32(out, Unsigned32(n));
    case Int64(n) => AppendU64(out, Unsigned64(n));
    case Double(bits) => AppendU64(out, bits);
    case String(text) =>
      AppendU32(out, |text|);
      for i := 0 to |text|
        invariant out.bytes == old(out.bytes) + Word(STRING_TYPE) + Word(|text|) + text[..i]
      {
        out.Push(text[i]);
      }
      assert text[..|text|] == text;
    case Buffer(data) =>
      AppendU32(out, |data|);
      out.Insert(data);
  }

  method EncodeAuxiliaryBody(values: seq<DtxValue>) returns (body: Bytes)
    ensures body == EncodeEntries(values)
  {
    hide Word, EncodeValue;
    var out := new ByteVector();
    assert values[0..] == values;
    for i := 0 to |values|
      invariant out.bytes + EncodeEntries(values[i..]) == EncodeEntries(values)
    {
      assert values[i..][1..] == values[i + 1..];
      AppendU32(out, NULL_TYPE);
      EncodeValueInto(values[i], out);
    }
    body := out.bytes;
  }

  method AppendHeader(h: Header, out: ByteVector)
    modifies out
    ensures out.bytes == old(out.bytes) + h.Encode()
  {
    hide Word, HalfWord;
    AppendU16(out, h.fragmentIndex);
    AppendU16(out, h.fragmentCount);
    AppendU32(out, h.length);
    AppendU32(out, h.identifier);
    AppendU32(out, h.conversationIndex);
    AppendU32(out, h.channel);
    AppendU32(out, h.flags);
  }

  method AppendSizes(z: Sizes, out: ByteVector)
    modifies out
    ensures out.bytes == old(out.bytes) + z.Encode()
  {
    hide Word;
    out.Push(z.messageType);
    out.Push(0);
    out.Push(0);
    out.Push(0);
    AppendU32(out, z.auxiliarySize);
    AppendU32(out, z.totalSize);
    AppendU32(out, 0);
  }

  method AppendAuxiliary(values: seq<DtxValue>, body: Bytes, out: ByteVector)
    requires body == EncodeEntries(values)
    modifies out
    ensures out.bytes == old(out.bytes) + EncodeAuxiliary(values)
  {
    hide Word, LongWord, EncodeEntries;
    if values != [] {
      AppendU32(out, AUXILIARY_MAGIC);
      AppendU32(out, 0);
      AppendU64(out, |body|);
      out.Insert(body);
    }
  }

  /** The whole frame: the lengths and the header size are derived. */
  method EncodeMessage(m: Dtx) returns (frame: Bytes)
    ensures frame == Encode(m)
  {
    hide Word, EncodeEntries, Header.Encode, Sizes.Encode, Unsigned32;
    var body := EncodeAuxiliaryBody(m.auxiliary);
    var auxiliarySize := if m.auxiliary == [] then 0 else AUXILIARY_HEADER_SIZE + |body|;
    var totalSize := auxiliarySize + |m.payload|;
    var out := new ByteVector();
    AppendU32(out, MAGIC);
    AppendU32(out, HEADER_SIZE);
    AppendHeader(Header(m.fragmentIndex, m.fragmentCount, PAYLOAD_HEADER_SIZE + totalSize, m.identifier,
                        m.conversationIndex, Unsigned32(m.channelCode), if m.expectsReply then 1 else 0), out);
    AppendSizes(Sizes(m.messageType % 256, auxiliarySize, totalSize), out);
    AuxiliarySize(m.auxiliary);
    hide EncodeAuxiliary;
    AppendAuxiliary(m.auxiliary, body, out);
    out.Insert(m.payload);
    frame := out.bytes;
    Regrouped(Word(MAGIC), Word(HEADER_SIZE), HeaderOf(m).Encode(), SizesOf(m).Encode(), EncodeAuxiliary(m.auxiliary),
              m.payload);
  }

  lemma Regrouped(a: Bytes, b: Bytes, c: Bytes, d: Bytes, e: Bytes, f: Bytes)
    ensures [] + a + b + c + d + e + f == a + (b + (c + (d + (e + f))))
  {
  }

  lemma AuxiliarySize(values: seq<DtxValue>)
    ensures |EncodeAuxiliary(values)| ==
            if values == [] then 0 else AUXILIARY_HEADER_SIZE + |EncodeEntries(values)|
  {
    hide Word, LongWord, EncodeEntries;
  }

  // ---------------------------------------------------------------------------
  // The reader
  // ---------------------------------------------------------------------------

  /** A bounds-checked reader over a message; a failed read consumes nothing. */
  class Reader {
    const bytes: Bytes
    var offset: nat

    ghost predicate Valid()
      reads this
    {
      offset <= |bytes|
    }

    ghost function Rest(): Bytes
      requires Valid()
      reads this
    {
      bytes[offset..]
    }

    constructor (source: Bytes)
      ensures bytes == source && offset == 0 && Valid() && Rest() == source
    {
      bytes, offset := source, 0;
    }

    predicate Has(count: nat)
      requires Valid()
      reads this
    {
      count <= |bytes| - offset
    }

    /** Reads a little-endian word of `size` bytes. */
    method ReadWord(size: nat) returns (r: Result<nat>)
      requires Valid()
      modifies this
      ensures Valid()
      ensures if |old(Rest())| < size then r == Err(Protocol) && offset == old(offset)
              else r == Ok(FromLittleEndian(old(Rest())[..size])) && Rest() == old(Rest())[size..]
                   && offset == old(offset) + size
    {
      if !Has(size) {
        return Err(Protocol);
      }
      ghost var s := Rest()[..size];
      var value: nat := 0;
      for i := 0 to size
        invariant offset == old(offset) && value == FromLittleEndian(s[..i])
      {
        LittleEndianStep(s, i);
        value := value + bytes[offset + i] * Pow256(i);
      }
      assert s[..size] == s;
      offset := offset + size;
      return Ok(value);
    }

    method Take(count: nat) returns (r: Result<Bytes>)
      requires Valid()
      modifies this
      ensures Valid()
      ensures if count > |old(Rest())| then r == Err(Protocol) && offset == old(offset)
              else r == Ok(old(Rest())[..count]) && Rest() == old(Rest())[count..] && offset == old(offset) + count
    {
      if !Has(count) {
        return Err(Protocol);
      }
      r := Ok(bytes[offset..offset + count]);
      assert bytes[offset..offset + count] == Rest()[..count];
      offset := offset + count;
    }

    /** Reads the value of one type. */
    method ReadBody(kind: Word32) returns (r: Result<DtxValue>)
      requires Valid()
      modifies this
      ensures Valid()
      ensures var d := DecodeBody(kind, old(Rest()));
              if d.Bad? then r == Err(Protocol) else r == Ok(d.value) && offset == old(offset) + d.size
    {
      hide FromLittleEndian, Signed32, Signed64;
      ghost var s := Rest();
      if kind == NULL_TYPE {
        return Ok(Null);
      } else if kind == INT32_TYPE {
        var word := ReadWord(4);
        return if word.Err? then Err(Protocol) else (assert word.value == U32(s); Ok(Int32(Signed32(word.value))));
      } else if kind == INT64_TYPE {
        var word := ReadWord(8);
        return if word.Err? then Err(Protocol) else (assert word.value == U64(s); Ok(Int64(Signed64(word.value))));
      } else if kind == DOUBLE_TYPE {
        var word := ReadWord(8);
        return if word.Err? then Err(Protocol) else (assert word.value == U64(s); Ok(Double(word.value)));
      } else if kind == STRING_TYPE || kind == BUFFER_TYPE {
        var length := ReadWord(4);
        if length.Err? {
          return Err(Protocol);
        }
        var run := Take(length.value);
        if run.Err? {
          return Err(Protocol);
        }
        assert s[4..][..length.value] == s[4..4 + length.value];
        return Ok(if kind == STRING_TYPE then String(run.value) else Buffer(run.value));
      }
      return Err(Protocol);
    }

    method ReadValue() returns (r: Result<DtxValue>)
      requires Valid()
      modifies this
      ensures Valid()
      ensures var d := DecodeValue(old(Rest()));
              if d.Bad? then r == Err(Protocol)
              else r == Ok(d.value) && offset == old(offset) + d.size && Rest() == old(Rest())[d.size..]
    {
      hide FromLittleEndian, DecodeBody;
      var kind := ReadWord(4);
      if kind.Err? {
        return Err(Protocol);
      }
      assert kind.value == U32(old(Rest()));
      r := ReadBody(kind.value);
    }

    /** Reads keys and values to the end; the keys are dropped. */
    method ReadEntries() returns (r: Result<seq<DtxValue>>)
      requires Valid()
      modifies this
      ensures Valid()
      ensures var d := DecodeEntries(old(Rest()));
              if d.None? then r == Err(Protocol) else r == Ok(d.value)
    {
      hide DecodeValue, DecodeEntries;
      var values: seq<DtxValue> := [];
      ghost var whole := DecodeEntries(Rest());
      PrependTwice([], [], whole);
      while offset < |bytes|
        invariant Valid() && whole == Prepend(values, DecodeEntries(Rest()))
        decreases |bytes| - offset
      {
        ghost var s := Rest();
        EntriesStep(s);
        var key := ReadValue();
        if key.Err? {
          return Err(Protocol);
        }
        var value := ReadValue();
        if value.Err? {
          return Err(Protocol);
        }
        PrependTwice(values, [value.value], DecodeEntries(Rest()));
        values := values + [value.value];
      }
      assert Rest() == [] && values + [] == values;
      NoEntries();
      return Ok(values);
    }

    method ReadAuxiliary() returns (r: Result<seq<DtxValue>>)
      requires Valid()
      modifies this
      ensures Valid()
      ensures var d := DecodeAuxiliary(old(Rest()));
              if d.Bad? then r == Err(Protocol)
              else r == Ok(d.value) && offset == old(offset) + d.size && Rest() == old(Rest())[d.size..]
    {
      hide FromLittleEndian, DecodeEntries;
      ghost var s := Rest();
      var magic := ReadWord(4);
      if magic.Err? || magic.value % 256 != AUXILIARY_TYPE {
        return Err(Protocol);
      }
      var reserved := Take(4);
      if reserved.Err? {
        return Err(Protocol);
      }
      assert Rest() == s[8..];
      var length := ReadWord(8);
      if length.Err? {
        return Err(Protocol);
      }
      assert Rest() == s[16..] && length.value == U64(s[8..]);
      var body := Take(length.value);
      if body.Err? {
        return Err(Protocol);
      }
      assert body.value == s[16..16 + length.value];
      var entries := new Reader(body.value);
      r := entries.ReadEntries();
    }

    /** The message header after its magic and its size. */
    method ReadHeader() returns (r: Result<Header>)
      requires Valid()
      modifies this
      ensures Valid()
      ensures if |old(Rest())| < 24 then r == Err(Protocol)
              else r == Ok(HeaderAt(old(Rest()))) && Rest() == old(Rest())[24..] && offset == old(offset) + 24
    {
      hide FromLittleEndian;
      ghost var s := Rest();
      if !Has(24) {
        return Err(Protocol);
      }
      var index := ReadWord(2);
      assert index.value == U16(s) && Rest() == s[2..];
      var count := ReadWord(2);
      assert count.value == U16(s[2..]) && Rest() == s[4..];
      var length := ReadWord(4);
      assert length.value == U32(s[4..]) && Rest() == s[8..];
      var identifier := ReadWord(4);
      assert identifier.value == U32(s[8..]) && Rest() == s[12..];
      var conversation := ReadWord(4);
      assert conversation.value == U32(s[12..]) && Rest() == s[16..];
      var channel := ReadWord(4);
      assert channel.value == U32(s[16..]) && Rest() == s[20..];
      var flags := ReadWord(4);
      assert flags.value == U32(s[20..]) && Rest() == s[24..];
      return Ok(Header(index.value, count.value, length.value, identifier.value, conversation.value, channel.value,
                       flags.value));
    }

    /** The payload header; its flag bytes are passed over. */
    method ReadSizes() returns (r: Result<Sizes>)
      requires Valid()
      modifies this
      ensures Valid()
      ensures if |old(Rest())| < 16 then r == Err(Protocol)
              else r == Ok(SizesAt(old(Rest()))) && Rest() == old(Rest())[16..] && offset == old(offset) + 16
    {
      hide FromLittleEndian;
      ghost var s := Rest();
      if !Has(PAYLOAD_HEADER_SIZE) {
        return Err(Protocol);
      }
      var kind := Take(1);
      var flags := Take(3);
      assert Rest() == s[4..];
      var auxiliarySize := ReadWord(4);
      assert auxiliarySize.value == U32(s[4..]) && Rest() == s[8..];
      var totalSize := ReadWord(4);
      assert totalSize.value == U32(s[8..]) && Rest() == s[12..];
      var unused := Take(4);
      return Ok(Sizes(kind.value[0], auxiliarySize.value, totalSize.value));
    }

    method ReadContent(sizes: Sizes) returns (r: Option<(seq<DtxValue>, Bytes)>)
      requires Valid() && sizes.auxiliarySize <= sizes.totalSize
      modifies this
      ensures r == ParsedContent(old(Rest()), sizes)
    {
      hide DecodeAuxiliary;
      var values: seq<DtxValue> := [];
      if sizes.auxiliarySize > 0 {
        var auxiliary := ReadAuxiliary();
        if auxiliary.Err? {
          return None;
        }
        values := auxiliary.value;
      }
      ghost var s := Rest();
      var payload := Take(sizes.totalSize - sizes.auxiliarySize);
      if payload.Err? || offset != |bytes| {
        return None;
      }
      assert payload.value == s;
      return Some((values, payload.value));
    }
  }

  /** Decodes one message, which must consume `bytes` exactly. */
  method ParseMessage(bytes: Bytes) returns (r: Result<Dtx>)
    ensures r == Parsed(bytes)
  {
    hide FromLittleEndian, HeaderAt, SizesAt, ParsedContent, Signed32;
    var reader := new Reader(bytes);
    var magic := reader.ReadWord(4);
    if magic.Err? || magic.value != MAGIC {
      return Err(Protocol);
    }
    assert magic.value == U32(bytes);
    var size := reader.ReadWord(4);
    if size.Err? || size.value < HEADER_SIZE {
      return Err(Protocol);
    }
    assert size.value == U32(bytes[4..]) && reader.Rest() == bytes[8..];
    if size.value > HEADER_SIZE {
      var extra := reader.Take(size.value - HEADER_SIZE);
      if extra.Err? {
        return Err(Protocol);
      }
    }
    r := ParseFields(reader);
  }

  method ParseFields(reader: Reader) returns (r: Result<Dtx>)
    requires reader.Valid()
    modifies reader
    ensures r == ParsedFields(old(reader.Rest()))
  {
    hide FromLittleEndian, HeaderAt, SizesAt, ParsedContent, Signed32;
    ghost var s := reader.Rest();
    var header := reader.ReadHeader();
    if header.Err? || header.value.fragmentCount > 1 || header.value.length > MAX_MESSAGE_SIZE {
      return Err(Protocol);
    }
    var sizes := reader.ReadSizes();
    if sizes.Err? || sizes.value.totalSize < sizes.value.auxiliarySize
       || header.value.length != PAYLOAD_HEADER_SIZE + sizes.value.totalSize {
      return Err(Protocol);
    }
    assert reader.Rest() == s[40..];
    var content := reader.ReadContent(sizes.value);
    if content.None? {
      return Err(Protocol);
    }
    var h := header.value;
    return Ok(Dtx(h.fragmentIndex, h.fragmentCount, h.identifier, h.conversationIndex, Signed32(h.channel),
                  h.flags != 0, sizes.value.messageType, content.value.0, content.value.1));
  }

  ghost function Prepend(values: seq<DtxValue>, rest: Option<seq<DtxValue>>): Option<seq<DtxValue>> {
    if rest.None? then None else Some(values + rest.value)
  }

  lemma PrependTwice(a: seq<DtxValue>, b: seq<DtxValue>, rest: Option<seq<DtxValue>>)
    ensures Prepend(a, Prepend(b, rest)) == Prepend(a + b, rest)
    ensures Prepend([], rest) == rest
  {
    assert rest.Some? ==> a + (b + rest.value) == a + b + rest.value;
    assert rest.Some? ==> [] + rest.value == rest.value;
  }

  lemma EntriesStep(s: Bytes)
    requires s != []
    ensures var key := DecodeValue(s);
            if key.Bad? then DecodeEntries(s).None?
            else
              var value := DecodeValue(s[key.size..]);
              DecodeEntries(s) ==
              if value.Bad? then None else Prepend([value.value], DecodeEntries(s[key.size..][value.size..]))
  {
    hide DecodeValue, DecodeEntries;
    EntriesUnfold(s);
    var key := DecodeValue(s);
    if key.Got? {
      var value := DecodeValue(s[key.size..]);
      if value.Got? {
        DropTwice(s, key.size, value.size);
      }
    }
  }

  lemma EntriesUnfold(s: Bytes)
    requires s != []
    ensures var key := DecodeValue(s);
            DecodeEntries(s) ==
            if key.Bad? then None
            else
              var value := DecodeValue(s[key.size..]);
              if value.Bad? then None else Prepend([value.value], DecodeEntries(s[key.size + value.size..]))
  {
    hide DecodeValue;
  }

  lemma DropTwice(s: Bytes, m: nat, n: nat)
    requires m + n <= |s|
    ensures s[m..][n..] == s[m + n..]
  {
  }

  lemma NoEntries()
    ensures DecodeEntries([]) == Some([])
  {
  }
}
