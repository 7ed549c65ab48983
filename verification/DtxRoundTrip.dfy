/** DTX frames undo themselves and delimit themselves in a stream. */
module DtxRoundTrip {
  import opened Words
  import opened Fields
  import opened DtxFormat

  ghost predicate Fits(v: DtxValue) {
    match v
    case String(text) => |text| < TWO_TO_THE_32
    case Buffer(data) => |data| < TWO_TO_THE_32
    case _ => true
  }

  lemma HalfWordBack(n: Word16, rest: Bytes)
    ensures U16(HalfWord(n) + rest) == n && (HalfWord(n) + rest)[2..] == rest
  {
    hide LittleEndian, FromLittleEndian, Pow256;
    Pow256Values();
    LittleEndianRoundTrip(n, 2);
    assert (HalfWord(n) + rest)[..2] == HalfWord(n);
  }

  lemma SignedBack()
    ensures forall n: Words.Int32 :: Signed32(Unsigned32(n)) == n
    ensures forall n: Words.Int64 :: Signed64(Unsigned64(n)) == n
  {
  }

  lemma BodyBack(v: DtxValue, rest: Bytes)
    requires Fits(v)
    ensures DecodeBody(TypeOf(v), EncodeBody(v) + rest) == Got(v, |EncodeBody(v)|)
  {
    hide Word, LongWord, U32, U64, Unsigned32, Unsigned64, Signed32, Signed64;
    match v
    case Null =>
    case Int32(n) =>
      WordBack(Unsigned32(n), rest);
      SignedBack();
    case Int64(n) =>
      LongWordBack(Unsigned64(n), rest);
      SignedBack();
    case Double(bits) => LongWordBack(bits, rest);
    case String(text) => RunBack(text, rest);
    case Buffer(data) => RunBack(data, rest);
  }

  lemma ValueBack(v: DtxValue, rest: Bytes)
    requires Fits(v)
    ensures DecodeValue(EncodeValue(v) + rest) == Got(v, |EncodeValue(v)|)
  {
    hide Word, U32, EncodeBody, DecodeBody, Fits;
    assert EncodeValue(v) + rest == Word(TypeOf(v)) + (EncodeBody(v) + rest);
    WordBack(TypeOf(v), EncodeBody(v) + rest);
    BodyBack(v, rest);
  }

  lemma RunBack(run: Bytes, rest: Bytes)
    requires |run| < TWO_TO_THE_32
    ensures var s := Word(|run|) + run + rest;
            U32(s) == |run| && |s| >= 4 + |run| && s[4..4 + |run|] == run
  {
    hide Word, U32;
    WordBack(|run|, run + rest);
    assert Word(|run|) + run + rest == Word(|run|) + (run + rest);
  }

  lemma {:induction false} EntriesBack(values: seq<DtxValue>)
    requires forall v :: v in values ==> Fits(v)
    ensures DecodeEntries(EncodeEntries(values)) == Some(values)
  {
    hide DecodeValue, EncodeValue, Fits, Word;
    if values != [] {
      var v, rest := values[0], EncodeEntries(values[1..]);
      var s := EncodeEntries(values);
      assert forall w :: w in values[1..] ==> w in values;
      EntriesBack(values[1..]);
      ValueBack(v, rest);
      NullKey(EncodeValue(v) + rest);
      assert s[4..] == EncodeValue(v) + rest;
      assert s[4 + |EncodeValue(v)|..] == rest;
      assert [v] + values[1..] == values;
    }
  }

  lemma NullKey(rest: Bytes)
    ensures DecodeValue(Word(NULL_TYPE) + rest) == Got(Null, 4)
  {
    hide Word, U32;
    WordBack(NULL_TYPE, rest);
  }

  lemma AuxiliaryBack(values: seq<DtxValue>, rest: Bytes)
    requires values != [] && |EncodeEntries(values)| < TWO_TO_THE_64 && forall v :: v in values ==> Fits(v)
    ensures DecodeAuxiliary(EncodeAuxiliary(values) + rest) == Got(values, |EncodeAuxiliary(values)|)
    ensures |EncodeAuxiliary(values)| == AUXILIARY_HEADER_SIZE + |EncodeEntries(values)|
  {
    hide Word, LongWord, U32, U64, EncodeEntries, DecodeEntries, Fits;
    var body := EncodeEntries(values);
    var s := EncodeAuxiliary(values) + rest;
    assert s == Word(AUXILIARY_MAGIC) + (Word(0) + (LongWord(|body|) + (body + rest)));
    WordBack(AUXILIARY_MAGIC, Word(0) + (LongWord(|body|) + (body + rest)));
    WordBack(0, LongWord(|body|) + (body + rest));
    LongWordBack(|body|, body + rest);
    assert s[8..] == s[4..][4..];
    assert s[16..] == s[8..][8..] == body + rest;
    assert s[16..16 + |body|] == (body + rest)[..|body|] == body;
    EntriesBack(values);
  }

  lemma {:induction false} EntriesFit(values: seq<DtxValue>)
    requires |EncodeEntries(values)| < TWO_TO_THE_32
    ensures forall v :: v in values ==> Fits(v)
  {
    hide Word, LongWord;
    if values != [] {
      EntriesFit(values[1..]);
      assert Fits(values[0]);
      assert forall v :: v in values ==> v == values[0] || v in values[1..];
    }
  }

  lemma HeaderBack(h: Header, rest: Bytes)
    requires h.length < TWO_TO_THE_32
    ensures HeaderAt(h.Encode() + rest) == h && (h.Encode() + rest)[24..] == rest
  {
    hide Word, HalfWord, U16, U32;
    var r6 := Word(h.flags) + rest;
    var r5 := Word(h.channel) + r6;
    var r4 := Word(h.conversationIndex) + r5;
    var r3 := Word(h.identifier) + r4;
    var r2 := Word(h.length) + r3;
    var r1 := HalfWord(h.fragmentCount) + r2;
    var s := h.Encode() + rest;
    assert s == HalfWord(h.fragmentIndex) + r1;
    HalfWordBack(h.fragmentIndex, r1);
    HalfWordBack(h.fragmentCount, r2);
    WordBack(h.length, r3);
    WordBack(h.identifier, r4);
    WordBack(h.conversationIndex, r5);
    WordBack(h.channel, r6);
    WordBack(h.flags, rest);
    assert s[2..] == r1 && s[4..] == r1[2..] && s[8..] == r2[4..] && s[12..] == r3[4..];
    assert s[16..] == r4[4..] && s[20..] == r5[4..] && s[24..] == r6[4..];
  }

  lemma SizesBack(z: Sizes, rest: Bytes)
    requires z.auxiliarySize < TWO_TO_THE_32 && z.totalSize < TWO_TO_THE_32
    ensures SizesAt(z.Encode() + rest) == z && (z.Encode() + rest)[16..] == rest
  {
    hide Word, U32;
    var s := z.Encode() + rest;
    assert s == [z.messageType, 0, 0, 0] + (Word(z.auxiliarySize) + (Word(z.totalSize) + (Word(0) + rest)));
    assert s[4..] == Word(z.auxiliarySize) + (Word(z.totalSize) + (Word(0) + rest));
    WordBack(z.auxiliarySize, Word(z.totalSize) + (Word(0) + rest));
    WordBack(z.totalSize, Word(0) + rest);
    WordBack(0, rest);
    assert s[8..] == s[4..][4..] && s[16..] == s[8..][4..][4..];
  }

  /** The length of a message's frame. */
  function FrameLength(m: Dtx): nat {
    HEADER_SIZE + PAYLOAD_HEADER_SIZE + TotalSize(m)
  }

  lemma ContentBack(m: Dtx)
    requires FrameLength(m) < TWO_TO_THE_32
    ensures ParsedContent(EncodeAuxiliary(m.auxiliary) + m.payload, SizesOf(m)) == Some((m.auxiliary, m.payload))
  {
    hide EncodeEntries, DecodeAuxiliary, Fits;
    if m.auxiliary != [] {
      hide Word, LongWord;
      EntriesFit(m.auxiliary);
      AuxiliaryBack(m.auxiliary, m.payload);
    }
    assert (EncodeAuxiliary(m.auxiliary) + m.payload)[|EncodeAuxiliary(m.auxiliary)|..] == m.payload;
  }

  /** A message comes back from its frame exactly when this layer accepts it. */
  predicate Sendable(m: Dtx) {
    m.fragmentCount <= 1 && PAYLOAD_HEADER_SIZE + TotalSize(m) <= MAX_MESSAGE_SIZE && m.messageType < 256
  }

  lemma FieldsBack(m: Dtx)
    requires FrameLength(m) < TWO_TO_THE_32
    ensures ParsedFields(Encode(m)[8..]) ==
            if m.fragmentCount <= 1 && PAYLOAD_HEADER_SIZE + TotalSize(m) <= MAX_MESSAGE_SIZE
            then Ok(m.(messageType := m.messageType % 256)) else Err(Protocol)
  {
    hide Word, Header.Encode, Sizes.Encode, EncodeAuxiliary, ParsedContent, HeaderAt, SizesAt, Signed32, Unsigned32;
    var content := EncodeAuxiliary(m.auxiliary) + m.payload;
    var s := Encode(m)[8..];
    assert s == HeaderOf(m).Encode() + (SizesOf(m).Encode() + content);
    SignedBack();
    HeaderBack(HeaderOf(m), SizesOf(m).Encode() + content);
    SizesBack(SizesOf(m), content);
    assert s[40..] == s[24..][16..] == content;
    ContentBack(m);
  }

  /** The round trip of every frame below 2^32 bytes, with its exact condition. */
  lemma ParseBackExactly(m: Dtx)
    requires FrameLength(m) < TWO_TO_THE_32
    ensures Parsed(Encode(m)) == Ok(m) <==> Sendable(m)
  {
    hide Word, U32, ParsedFields, TotalSize;
    FieldsBack(m);
    FrameStart(m, []);
    assert Encode(m) + [] == Encode(m);
  }

  lemma FrameStart(m: Dtx, rest: Bytes)
    requires FrameLength(m) < TWO_TO_THE_32
    ensures var s := Encode(m) + rest;
            && |s| >= 48 && U32(s) == MAGIC && U32(s[4..]) == HEADER_SIZE
            && U32(s[12..]) == PAYLOAD_HEADER_SIZE + TotalSize(m)
            && |Encode(m)| == FrameLength(m)
  {
    hide Word, U32, Header.Encode, Sizes.Encode, EncodeAuxiliary;
    var content := SizesOf(m).Encode() + (EncodeAuxiliary(m.auxiliary) + m.payload);
    var s := Encode(m) + rest;
    var afterSize := HeaderOf(m).Encode() + (content + rest);
    assert s == Word(MAGIC) + (Word(HEADER_SIZE) + afterSize);
    WordBack(MAGIC, Word(HEADER_SIZE) + afterSize);
    WordBack(HEADER_SIZE, afterSize);
    HeaderBack(HeaderOf(m), content + rest);
    LengthField(afterSize);
    assert s[12..] == s[4..][4..][4..] == afterSize[4..];
  }

  lemma LengthField(s: Bytes)
    requires |s| >= 24
    ensures HeaderAt(s).length == U32(s[4..])
  {
  }

  /** A frame is cut off the stream whole, whatever follows it. */
  lemma FirstMessageBack(m: Dtx, rest: Bytes)
    requires Sendable(m)
    ensures FirstMessage(Encode(m) + rest) == Got(m, |Encode(m)|)
  {
    hide Word, U32, Parsed, TotalSize, Header.Encode, Sizes.Encode, EncodeAuxiliary;
    EncodedSize(m);
    FrameStart(m, rest);
    ParseBackExactly(m);
    assert (Encode(m) + rest)[..|Encode(m)|] == Encode(m);
  }

  lemma EncodedSize(m: Dtx)
    ensures |Encode(m)| == FrameLength(m)
  {
    hide Word, EncodeAuxiliary;
  }

  /** A decoded value encodes to as many bytes as it was read from. */
  lemma ValueSize(s: Bytes)
    requires DecodeValue(s).Got?
    ensures |EncodeValue(DecodeValue(s).value)| == DecodeValue(s).size
  {
    hide Word, LongWord, U32, U64, Unsigned32, Unsigned64, Signed32, Signed64;
  }

  lemma {:induction false} EntriesShrink(s: Bytes)
    requires DecodeEntries(s).Some?
    ensures |EncodeEntries(DecodeEntries(s).value)| <= |s|
    decreases |s|
  {
    hide DecodeValue, EncodeValue, Word;
    if s != [] {
      var key := DecodeValue(s);
      var value := DecodeValue(s[key.size..]);
      var rest := s[key.size + value.size..];
      EntriesShrink(rest);
      ValueSize(s[key.size..]);
      var values := DecodeEntries(s).value;
      assert values[1..] == DecodeEntries(rest).value;
    }
  }

  lemma ContentShrinks(s: Bytes, sizes: Sizes)
    requires sizes.auxiliarySize <= sizes.totalSize == |s| && ParsedContent(s, sizes).Some?
    ensures var content := ParsedContent(s, sizes).value;
            |EncodeAuxiliary(content.0)| + |content.1| <= sizes.totalSize
  {
    hide DecodeEntries, EncodeEntries, Word, LongWord, U32, U64;
    if sizes.auxiliarySize > 0 {
      EntriesShrink(s[16..16 + U64(s[8..])]);
    }
  }

  /** The part of a received 32-byte-header frame after its magic and its size. */
  lemma FrameParts(s: Bytes) returns (t: Bytes)
    requires FirstMessage(s).Got? && U32(s[4..]) == HEADER_SIZE
    ensures |t| >= 40 && 8 + |t| <= |s| && t == s[8..8 + |t|]
    ensures ParsedFields(t) == Ok(FirstMessage(s).value)
    ensures Coherent(HeaderAt(t), SizesAt(t[24..])) && |t[40..]| == SizesAt(t[24..]).totalSize
  {
    hide U16, U32, U64, ParsedContent, Sizes.Encode, SizesAt;
    var f := s[..FrameSize(s)];
    Prefix32(s, f, 4);
    Prefix32(s, f, 12);
    t := f[8..];
    assert t[4..] == f[12..];
  }

  /** Dropping the keys never makes a message larger, so whatever is received can be sent. */
  lemma ReceivedIsSendable(s: Bytes)
    requires FirstMessage(s).Got? && U32(s[4..]) == HEADER_SIZE
    ensures Sendable(FirstMessage(s).value)
  {
    var t := FrameParts(s);
    hide U16, U32, U64, ParsedContent, EncodeAuxiliary, Encode, FirstMessage, HeaderAt, SizesAt;
    ContentShrinks(t[40..], SizesAt(t[24..]));
  }

  /** Encoding a received message and receiving it again gives the same message. */
  lemma ReceivingNormalises(s: Bytes)
    requires FirstMessage(s).Got? && U32(s[4..]) == HEADER_SIZE
    ensures var m := FirstMessage(s).value; FirstMessage(Encode(m)) == Got(m, |Encode(m)|)
  {
    hide U32, FirstMessage, Encode, Sendable;
    ReceivedIsSendable(s);
    var m := FirstMessage(s).value;
    FirstMessageBack(m, []);
    assert Encode(m) + [] == Encode(m);
  }

  /**
   No check compares them, yet every 32-byte-header frame that is accepted has an auxiliary
   size of zero or of exactly the auxiliary header and the body length inside it.
   */
  lemma AuxiliarySizeIsForced(s: Bytes)
    requires FirstMessage(s).Got? && U32(s[4..]) == HEADER_SIZE
    ensures var sizes := SizesAt(s[32..48]);
            sizes.auxiliarySize == 0 ||
            (|s| >= 64 && sizes.auxiliarySize == AUXILIARY_HEADER_SIZE + U64(s[56..64]))
  {
    var t := FrameParts(s);
    hide U16, U32, U64, DecodeEntries, FirstMessage, HeaderAt;
    var sizes := SizesAt(t[24..]);
    SameSizes(t[24..], s[32..48]);
    if sizes.auxiliarySize > 0 {
      assert DecodeAuxiliary(t[40..]).Got?;
      SameLong(t[40..][8..], s[56..64]);
    }
  }

  lemma Prefix32(s: Bytes, f: Bytes, i: nat)
    requires f <= s && i + 4 <= |f|
    ensures U32(s[i..]) == U32(f[i..])
    ensures s[0..] == s && f[0..] == f
  {
    assert s[i..][..4] == f[i..][..4];
  }

  lemma SameSizes(s: Bytes, t: Bytes)
    requires |s| >= 16 && |t| == 16 && t == s[..16]
    ensures SizesAt(s) == SizesAt(t)
  {
    assert s[4..][..4] == t[4..][..4] && s[8..][..4] == t[8..][..4];
  }

  lemma SameLong(s: Bytes, t: Bytes)
    requires |s| >= 8 && |t| == 8 && t == s[..8]
    ensures U64(s) == U64(t)
  {
    assert t[..8] == s[..8];
  }
}
