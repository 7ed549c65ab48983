/** The RemoteXPC payload and wrapper around an `xpc` object. */
module XpcMessage {
  import opened Words
  import opened Fields
  import opened XpcFormat
  import opened XpcRoundTrip
  import opened XpcNormal
  import opened XpcCodec

  const WRAPPER_MAGIC: Word32 := 0x29B00B92
  const PAYLOAD_MAGIC: Word32 := 0x42133742
  const PAYLOAD_VERSION: Word32 := 5

  datatype Wrapper = Wrapper(flags: Word32, messageId: Word64, payload: Option<Xpc>)

  function EncodePayload(body: Xpc): Bytes {
    Word(PAYLOAD_MAGIC) + (Word(PAYLOAD_VERSION) + Encode(body))
  }

  function ParsedPayload(bytes: Bytes): Result<Xpc> {
    if |bytes| < 8 || U32(bytes) != PAYLOAD_MAGIC || U32(bytes[4..]) != PAYLOAD_VERSION then Err(Protocol)
    else
      var r := Decode(bytes[8..], 8);
      if r.Got? && 8 + r.size == |bytes| then Ok(r.value) else Err(Protocol)
  }

  function WrapperBody(w: Wrapper): Bytes {
    if w.payload.Some? then EncodePayload(w.payload.value) else []
  }

  function EncodeWrapper(w: Wrapper): Bytes {
    Word(WRAPPER_MAGIC) + (Word(w.flags) + (LongWord(|WrapperBody(w)|) + (LongWord(w.messageId) + WrapperBody(w))))
  }

  function ParsedWrapper(bytes: Bytes): Result<Wrapper> {
    if |bytes| < 24 || U32(bytes) != WRAPPER_MAGIC then Err(Protocol)
    else
      var flags, length, id, body := U32(bytes[4..]), U64(bytes[8..]), U64(bytes[16..]), bytes[24..];
      if length != |body| then Err(Protocol)
      else if length == 0 then Ok(Wrapper(flags, id, None))
      else
        var payload := ParsedPayload(body);
        if payload.Ok? then Ok(Wrapper(flags, id, Some(payload.value))) else Err(Protocol)
  }

  // ---------------------------------------------------------------------------
  // The codecs
  // ---------------------------------------------------------------------------

  method ToBytes(value: Xpc) returns (bytes: Bytes)
    ensures bytes == Encode(value)
  {
    var out := new ByteVector();
    EncodeObject(value, out);
    bytes := out.bytes;
  }

  method ParseObject(bytes: Bytes) returns (r: Result<Xpc>)
    ensures r == Parse(bytes)
  {
    hide Decode;
    var reader := new Reader(bytes);
    assert reader.Rest() == bytes;
    var value := reader.ReadObject();
    if value.Err? || reader.offset != |bytes| {
      return Err(Protocol);
    }
    return value;
  }

  method PayloadToBytes(body: Xpc) returns (bytes: Bytes)
    ensures bytes == EncodePayload(body)
  {
    hide Word, Encode;
    var out := new ByteVector();
    AppendU32(out, PAYLOAD_MAGIC);
    AppendU32(out, PAYLOAD_VERSION);
    var encoded := ToBytes(body);
    out.Insert(encoded);
    bytes := out.bytes;
  }

  method ParsePayload(bytes: Bytes) returns (r: Result<Xpc>)
    ensures r == ParsedPayload(bytes)
  {
    hide Decode, U32;
    var reader := new Reader(bytes);
    assert reader.Rest() == bytes;
    var magic := reader.ReadU32();
    if magic.Err? || magic.value != PAYLOAD_MAGIC {
      return Err(Protocol);
    }
    var version := reader.ReadU32();
    if version.Err? || version.value != PAYLOAD_VERSION {
      return Err(Protocol);
    }
    assert reader.Rest() == bytes[8..];
    var value := reader.ReadObject();
    if value.Err? || reader.offset != |bytes| {
      return Err(Protocol);
    }
    return value;
  }

  method WrapperToBytes(w: Wrapper) returns (bytes: Bytes)
    ensures bytes == EncodeWrapper(w)
  {
    hide Word, LongWord, EncodePayload;
    var body: Bytes := [];
    if w.payload.Some? {
      body := PayloadToBytes(w.payload.value);
    }
    var out := new ByteVector();
    AppendU32(out, WRAPPER_MAGIC);
    AppendU32(out, w.flags);
    AppendU64(out, |body|);
    AppendU64(out, w.messageId);
    out.Insert(body);
    bytes := out.bytes;
  }

  method ParseWrapper(bytes: Bytes) returns (r: Result<Wrapper>)
    ensures r == ParsedWrapper(bytes)
  {
    hide ParsedPayload, U32, U64;
    var reader := new Reader(bytes);
    assert reader.Rest() == bytes;
    var magic := reader.ReadU32();
    if magic.Err? || magic.value != WRAPPER_MAGIC {
      return Err(Protocol);
    }
    var flags := reader.ReadU32();
    if flags.Err? {
      return Err(Protocol);
    }
    assert reader.Rest() == bytes[8..];
    var length := reader.ReadU64();
    if length.Err? {
      return Err(Protocol);
    }
    assert reader.Rest() == bytes[16..];
    var id := reader.ReadU64();
    if id.Err? {
      return Err(Protocol);
    }
    if length.value == 0 {
      return if reader.offset == |bytes| then Ok(Wrapper(flags.value, id.value, None)) else Err(Protocol);
    }
    assert reader.Rest() == bytes[24..];
    var body := reader.Take(length.value);
    if body.Err? || reader.offset != |bytes| {
      return Err(Protocol);
    }
    assert body.value == bytes[24..];
    var payload := ParsePayload(body.value);
    return if payload.Ok? then Ok(Wrapper(flags.value, id.value, Some(payload.value))) else Err(Protocol);
  }

  // ---------------------------------------------------------------------------
  // The round trips lift through both layers
  // ---------------------------------------------------------------------------

  /** An encodable value is far shorter than a 64-bit length allows. */
  lemma EncodableSize(value: Xpc)
    requires Encodable(value)
    ensures 4 <= |Encode(value)| < 2 * TWO_TO_THE_32
  {
    hide Word, LongWord, EncodeItems, EncodeEntries, Zeros;
    match value
    case Array(items) =>
    case Dictionary(entries) =>
    case _ =>
  }

  lemma PayloadBack(body: Xpc)
    requires Encodable(body)
    ensures ParsedPayload(EncodePayload(body)) == Ok(body)
  {
    hide Word, U32, Encode, Decode, Encodable;
    var bytes := EncodePayload(body);
    WordBack(PAYLOAD_MAGIC, Word(PAYLOAD_VERSION) + Encode(body));
    WordBack(PAYLOAD_VERSION, Encode(body));
    assert bytes[8..] == bytes[4..][4..] == Encode(body) + [];
    DecodeBack(body, [], 8);
  }

  lemma WrapperBack(w: Wrapper)
    requires w.payload.Some? ==> Encodable(w.payload.value)
    ensures ParsedWrapper(EncodeWrapper(w)) == Ok(w)
  {
    hide Word, LongWord, U32, U64, Encodable, ParsedPayload, Encode;
    var body := WrapperBody(w);
    var afterLength := LongWord(w.messageId) + body;
    var afterFlags := LongWord(|body|) + afterLength;
    if w.payload.Some? {
      EncodableSize(w.payload.value);
      PayloadBack(w.payload.value);
    }
    var bytes := EncodeWrapper(w);
    WordBack(WRAPPER_MAGIC, Word(w.flags) + afterFlags);
    WordBack(w.flags, afterFlags);
    LongWordBack(|body|, afterLength);
    LongWordBack(w.messageId, body);
    assert bytes[8..] == bytes[4..][4..] == afterFlags;
    assert bytes[16..] == bytes[8..][8..] == afterLength;
    assert bytes[24..] == bytes[16..][8..] == body;
  }

  /** A wrapper that was accepted is encodable, so encoding it again and parsing gives the same wrapper. */
  lemma WrapperNormalises(bytes: Bytes)
    requires ParsedWrapper(bytes).Ok? && |bytes| < TWO_TO_THE_31
    ensures ParsedWrapper(EncodeWrapper(ParsedWrapper(bytes).value)) == Ok(ParsedWrapper(bytes).value)
  {
    hide U32, U64, Encodable, EncodeWrapper, Decode;
    var w := ParsedWrapper(bytes).value;
    if w.payload.Some? {
      DecodedIsEncodable(bytes[24..][8..], 8);
    }
    WrapperBack(w);
  }
}
