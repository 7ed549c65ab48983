/**
 The DTX message frame: a 32-byte message header, a 16-byte payload header, an optional
 auxiliary dictionary and the payload.
 */
module DtxFormat {
  import opened Words
  import opened Fields

  const MAGIC: Word32 := 0x1F3D5B79
  const HEADER_SIZE: nat := 32
  const PAYLOAD_HEADER_SIZE: nat := 16
  const AUXILIARY_HEADER_SIZE: nat := 16
  const AUXILIARY_TYPE: Word32 := 0xF0
  const AUXILIARY_MAGIC: Word32 := 0x1F0
  const MAX_MESSAGE_SIZE: nat := 128 * 1024 * 1024

  const NULL_TYPE: Word32 := 0x0A
  const STRING_TYPE: Word32 := 0x01
  const BUFFER_TYPE: Word32 := 0x02
  const INT32_TYPE: Word32 := 0x03
  const INT64_TYPE: Word32 := 0x06
  const DOUBLE_TYPE: Word32 := 0x09

  datatype DtxValue =
    | Null
    | Int32(small: Words.Int32)
    | Int64(large: Words.Int64)
    | Double(bits: Word64)
    | String(text: Bytes)
    | Buffer(data: Bytes)

  datatype Dtx = Dtx(
    fragmentIndex: Word16,
    fragmentCount: Word16,
    identifier: Word32,
    conversationIndex: Word32,
    channelCode: Words.Int32,
    expectsReply: bool,
    messageType: Word32,
    auxiliary: seq<DtxValue>,
    payload: Bytes)

  /** The acknowledgement that a message expecting a reply must receive. */
  function AckOf(m: Dtx): Dtx {
    Dtx(0, 1, m.identifier, (m.conversationIndex + 1) % TWO_TO_THE_32, m.channelCode, false, 0, [], [])
  }

  // ---------------------------------------------------------------------------
  // Encoding
  // ---------------------------------------------------------------------------

  function HalfWord(n: Word16): (s: Bytes)
    ensures |s| == 2
  {
    LittleEndian(n, 2)
  }

  function TypeOf(v: DtxValue): Word32 {
    match v
    case Null => NULL_TYPE
    case Int32(_) => INT32_TYPE
    case Int64(_) => INT64_TYPE
    case Double(_) => DOUBLE_TYPE
    case String(_) => STRING_TYPE
    case Buffer(_) => BUFFER_TYPE
  }

  function EncodeBody(v: DtxValue): Bytes {
    match v
    case Null => []
    case Int32(n) => Word(Unsigned32(n))
    case Int64(n) => LongWord(Unsigned64(n))
    case Double(bits) => LongWord(bits)
    case String(text) => Word(|text|) + text
    case Buffer(data) => Word(|data|) + data
  }

  function EncodeValue(v: DtxValue): Bytes {
    Word(TypeOf(v)) + EncodeBody(v)
  }

  /** The auxiliary values, each after a null key. */
  function EncodeEntries(values: seq<DtxValue>): Bytes {
    if values == [] then [] else Word(NULL_TYPE) + (EncodeValue(values[0]) + EncodeEntries(values[1..]))
  }

  function EncodeAuxiliary(values: seq<DtxValue>): Bytes {
    if values == [] then []
    else
      var body := EncodeEntries(values);
      Word(AUXILIARY_MAGIC) + (Word(0) + (LongWord(|body|) + body))
  }

  /** The fields of the message header that follow its magic and its size. */
  datatype Header = Header(fragmentIndex: Word16, fragmentCount: Word16, length: nat, identifier: Word32,
                           conversationIndex: Word32, channel: Word32, flags: Word32)
  {
    function Encode(): (s: Bytes)
      ensures |s| == 24
    {
      HalfWord(fragmentIndex) + (HalfWord(fragmentCount) +
        (Word(length) + (Word(identifier) + (Word(conversationIndex) + (Word(channel) + Word(flags))))))
    }
  }

  /** The payload header: the message type and the two sizes. */
  datatype Sizes = Sizes(messageType: Byte, auxiliarySize: nat, totalSize: nat) {
    function Encode(): (s: Bytes)
      ensures |s| == PAYLOAD_HEADER_SIZE
    {
      [messageType, 0, 0, 0] + (Word(auxiliarySize) + (Word(totalSize) + Word(0)))
    }
  }

  function TotalSize(m: Dtx): nat {
    |EncodeAuxiliary(m.auxiliary)| + |m.payload|
  }

  function HeaderOf(m: Dtx): Header {
    Header(m.fragmentIndex, m.fragmentCount, PAYLOAD_HEADER_SIZE + TotalSize(m), m.identifier, m.conversationIndex,
           Unsigned32(m.channelCode), if m.expectsReply then 1 else 0)
  }

  function SizesOf(m: Dtx): Sizes {
    Sizes(m.messageType % 256, |EncodeAuxiliary(m.auxiliary)|, TotalSize(m))
  }

  function Encode(m: Dtx): Bytes {
    Word(MAGIC) + (Word(HEADER_SIZE) +
      (HeaderOf(m).Encode() + (SizesOf(m).Encode() + (EncodeAuxiliary(m.auxiliary) + m.payload))))
  }

  // ---------------------------------------------------------------------------
  // Decoding
  // ---------------------------------------------------------------------------

  function U16(s: Bytes): Word16
    requires |s| >= 2
  {
    FromLittleEndianBound(s[..2]);
    Pow256Values();
    FromLittleEndian(s[..2])
  }

  function DecodeBody(kind: Word32, s: Bytes): (r: Read<DtxValue>)
    ensures r.Got? ==> r.size <= |s|
  {
    if kind == NULL_TYPE then Got(Null, 0)
    else if kind == INT32_TYPE then
      if |s| < 4 then Bad else Got(Int32(Signed32(U32(s))), 4)
    else if kind == INT64_TYPE then
      if |s| < 8 then Bad else Got(Int64(Signed64(U64(s))), 8)
    else if kind == DOUBLE_TYPE then
      if |s| < 8 then Bad else Got(Double(U64(s)), 8)
    else if kind == STRING_TYPE || kind == BUFFER_TYPE then
      if |s| < 4 || |s| < 4 + U32(s) then Bad
      else
        var run := s[4..4 + U32(s)];
        Got(if kind == STRING_TYPE then String(run) else Buffer(run), 4 + U32(s))
    else Bad
  }

  function DecodeValue(s: Bytes): (r: Read<DtxValue>)
    ensures r.Got? ==> 4 <= r.size <= |s|
  {
    if |s| < 4 then Bad
    else
      var body := DecodeBody(U32(s), s[4..]);
      if body.Bad? then Bad else Got(body.value, 4 + body.size)
  }

  /** All of `s` as keys and values; the keys are read and dropped. */
  function DecodeEntries(s: Bytes): (r: Option<seq<DtxValue>>)
    decreases |s|
  {
    if s == [] then Some([])
    else
      var key := DecodeValue(s);
      if key.Bad? then None
      else
        var value := DecodeValue(s[key.size..]);
        if value.Bad? then None
        else
          var rest := DecodeEntries(s[key.size + value.size..]);
          if rest.None? then None else Some([value.value] + rest.value)
  }

  /** The auxiliary dictionary: only the low byte of its magic is checked. */
  function DecodeAuxiliary(s: Bytes): (r: Read<seq<DtxValue>>)
    ensures r.Got? ==> AUXILIARY_HEADER_SIZE <= r.size <= |s|
  {
    if |s| < 16 || U32(s) % 256 != AUXILIARY_TYPE || U64(s[8..]) > |s| - 16 then Bad
    else
      var length := U64(s[8..]);
      var values := DecodeEntries(s[16..16 + length]);
      if values.None? then Bad else Got(values.value, 16 + length)
  }

  function HeaderAt(s: Bytes): Header
    requires |s| >= 24
  {
    Header(U16(s), U16(s[2..]), U32(s[4..]), U32(s[8..]), U32(s[12..]), U32(s[16..]), U32(s[20..]))
  }

  function SizesAt(s: Bytes): Sizes
    requires |s| >= PAYLOAD_HEADER_SIZE
  {
    Sizes(s[0], U32(s[4..]), U32(s[8..]))
  }

  /** The two headers agree with each other and with the limits of this layer. */
  predicate Coherent(header: Header, sizes: Sizes) {
    && header.fragmentCount <= 1
    && header.length <= MAX_MESSAGE_SIZE
    && sizes.auxiliarySize <= sizes.totalSize
    && header.length == PAYLOAD_HEADER_SIZE + sizes.totalSize
  }

  /** The auxiliary dictionary and then exactly the payload. */
  function ParsedContent(s: Bytes, sizes: Sizes): Option<(seq<DtxValue>, Bytes)>
    requires sizes.auxiliarySize <= sizes.totalSize
  {
    var auxiliary := if sizes.auxiliarySize > 0 then DecodeAuxiliary(s) else Got([], 0);
    if auxiliary.Bad? || |s| - auxiliary.size != sizes.totalSize - sizes.auxiliarySize then None
    else Some((auxiliary.value, s[auxiliary.size..]))
  }

  /** Everything after the magic, the header size and the header's unknown extra bytes. */
  function ParsedFields(s: Bytes): Result<Dtx> {
    if |s| < 24 + PAYLOAD_HEADER_SIZE then Err(Protocol)
    else
      var header, sizes := HeaderAt(s), SizesAt(s[24..]);
      if !Coherent(header, sizes) then Err(Protocol)
      else
        var content := ParsedContent(s[40..], sizes);
        if content.None? then Err(Protocol)
        else Ok(Dtx(header.fragmentIndex, header.fragmentCount, header.identifier, header.conversationIndex,
                    Signed32(header.channel), header.flags != 0, sizes.messageType, content.value.0, content.value.1))
  }

  /** One whole message. */
  function Parsed(s: Bytes): Result<Dtx> {
    if |s| < 8 || U32(s) != MAGIC || U32(s[4..]) < HEADER_SIZE || U32(s[4..]) - HEADER_SIZE > |s| - 8 then Err(Protocol)
    else ParsedFields(s[8 + (U32(s[4..]) - HEADER_SIZE)..])
  }

  /** The size of the frame that a full message header announces. */
  function FrameSize(s: Bytes): nat
    requires |s| >= HEADER_SIZE
  {
    U32(s[4..]) + U32(s[12..])
  }

  /** The frame at the start of a stream, cut by its header alone. */
  predicate Announced(s: Bytes)
  {
    |s| >= HEADER_SIZE && U32(s) == MAGIC && U32(s[4..]) >= HEADER_SIZE && U32(s[12..]) <= MAX_MESSAGE_SIZE
  }

  /** The message at the start of a stream. */
  function FirstMessage(s: Bytes): (r: Read<Dtx>)
    ensures r.Got? ==> HEADER_SIZE <= r.size <= |s|
  {
    if !Announced(s) || |s| < FrameSize(s) then Bad
    else
      var m := Parsed(s[..FrameSize(s)]);
      if m.Err? then Bad else Got(m.value, FrameSize(s))
  }
}
