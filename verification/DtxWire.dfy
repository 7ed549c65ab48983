/**
 The bytes of DTX frames, written out. A frame is accepted if and only if it is laid out as
 `Print` says, and is read as what its layout means. Nothing here names a magic number or a
 value type, so the encoder and the parser are held to the format itself.
 */
module DtxWire {
  import opened Words
  import opened Fields
  import opened DtxFormat
  import opened DtxRoundTrip
  import opened DtxConnections

  function TwoBytes(n: nat): (s: Bytes)
    ensures |s| == 2
  {
    [n % 256, n / 256 % 256]
  }

  /** The fields of a frame; `extra`, `unknown` and `spare` are bytes nobody looks at. */
  datatype Layout = Layout(
    extra: Bytes, index: Word16, count: Word16, identifier: Word32, conversation: Word32, channel: Word32,
    flags: Word32, kind: Byte, unknown: Bytes, auxiliary: nat, total: nat, spare: Bytes,
    dictionary: Option<Auxiliary>, payload: Bytes)

  /** The auxiliary dictionary; only the first byte of its `magic` is looked at, and its keys are dropped. */
  datatype Auxiliary = Auxiliary(magic: Bytes, unknown: Bytes, pairs: seq<Pair>)

  datatype Pair = Pair(key: DtxValue, value: DtxValue)

  function PrintValue(v: DtxValue): Bytes {
    match v
    case Null => [0x0a, 0x00, 0x00, 0x00]
    case Int32(n) => [0x03, 0x00, 0x00, 0x00] + FourBytes(if n >= 0 then n else n + 0x1_0000_0000)
    case Int64(n) => [0x06, 0x00, 0x00, 0x00] + EightBytes(if n >= 0 then n else n + 0x1_0000_0000_0000_0000)
    case Double(bits) => [0x09, 0x00, 0x00, 0x00] + EightBytes(bits)
    case String(text) => [0x01, 0x00, 0x00, 0x00] + (FourBytes(|text|) + text)
    case Buffer(data) => [0x02, 0x00, 0x00, 0x00] + (FourBytes(|data|) + data)
  }

  function PrintPairs(pairs: seq<Pair>): Bytes {
    if pairs == [] then []
    else PrintValue(pairs[0].key) + (PrintValue(pairs[0].value) + PrintPairs(pairs[1..]))
  }

  function Values(pairs: seq<Pair>): seq<DtxValue> {
    if pairs == [] then [] else [pairs[0].value] + Values(pairs[1..])
  }

  function PrintDictionary(d: Option<Auxiliary>): Bytes {
    if d.None? then []
    else
      var body := PrintPairs(d.value.pairs);
      d.value.magic + (d.value.unknown + (EightBytes(|body|) + body))
  }

  function PrintHeader(l: Layout): Bytes {
    TwoBytes(l.index) + (TwoBytes(l.count) + (FourBytes(16 + l.total) +
      (FourBytes(l.identifier) + (FourBytes(l.conversation) + (FourBytes(l.channel) + FourBytes(l.flags))))))
  }

  function PrintSizes(l: Layout): Bytes {
    [l.kind] + l.unknown + (FourBytes(l.auxiliary) + (FourBytes(l.total) + l.spare))
  }

  function Print(l: Layout): Bytes
  {
    [0x79, 0x5b, 0x3d, 0x1f] + (FourBytes(32 + |l.extra|) +
      (l.extra + (PrintHeader(l) + (PrintSizes(l) + (PrintDictionary(l.dictionary) + l.payload)))))
  }

  ghost predicate AllFit(pairs: seq<Pair>) {
    pairs != [] ==> Fits(pairs[0].key) && Fits(pairs[0].value) && AllFit(pairs[1..])
  }

  ghost predicate GoodAuxiliary(d: Auxiliary) {
    && |d.magic| == 4 && d.magic[0] == 0xf0 && |d.unknown| == 4
    && AllFit(d.pairs) && |PrintPairs(d.pairs)| < 0x1_0000_0000_0000_0000
  }

  /** A frame of this layer: unfragmented, at most 128 MiB, with lengths that agree. */
  ghost predicate Good(l: Layout) {
    && 32 + |l.extra| < 0x1_0000_0000 && l.count <= 1 && 16 + l.total <= 134_217_728
    && |l.unknown| == 3 && |l.spare| == 4
    && l.auxiliary <= l.total && |l.payload| == l.total - l.auxiliary
    && (l.dictionary.Some? <==> l.auxiliary > 0) && (l.dictionary.Some? ==> GoodAuxiliary(l.dictionary.value))
  }

  function Meaning(l: Layout): Dtx {
    Dtx(l.index, l.count, l.identifier, l.conversation,
        if l.channel < 0x8000_0000 then l.channel else l.channel - 0x1_0000_0000,
        l.flags != 0, l.kind, if l.dictionary.Some? then Values(l.dictionary.value.pairs) else [], l.payload)
  }

  // ---------------------------------------------------------------------------
  // Values and auxiliary dictionaries
  // ---------------------------------------------------------------------------

  lemma PrintedValue(v: DtxValue)
    ensures EncodeValue(v) == PrintValue(v)
  {
    hide Word, LongWord, FourBytes, EightBytes;
    TypeWords();
    match v
    case Null =>
    case Int32(n) => WordIs(Unsigned32(n));
    case Int64(n) => LongWordIs(Unsigned64(n));
    case Double(bits) => LongWordIs(bits);
    case String(text) => WordIs(|text|);
    case Buffer(data) => WordIs(|data|);
  }

  lemma TypeWords()
    ensures Word(0x0a) == [0x0a, 0x00, 0x00, 0x00] && Word(0x03) == [0x03, 0x00, 0x00, 0x00]
    ensures Word(0x06) == [0x06, 0x00, 0x00, 0x00] && Word(0x09) == [0x09, 0x00, 0x00, 0x00]
    ensures Word(0x01) == [0x01, 0x00, 0x00, 0x00] && Word(0x02) == [0x02, 0x00, 0x00, 0x00]
  {
    hide Word;
    WordIs(0x0a);
    WordIs(0x03);
    WordIs(0x06);
    WordIs(0x09);
    WordIs(0x01);
    WordIs(0x02);
  }

  lemma BodyForth(kind: Word32, s: Bytes)
    requires DecodeBody(kind, s).Got?
    ensures var r := DecodeBody(kind, s);
            Fits(r.value) && TypeOf(r.value) == kind && r.size == |EncodeBody(r.value)| &&
            s[..r.size] == EncodeBody(r.value)
  {
    hide Word, LongWord, U32, U64;
    BackToBytes(s);
  }

  /** The value that `s` starts with, in `n` bytes. */
  lemma ValueExactly(s: Bytes, v: DtxValue, n: nat)
    ensures DecodeValue(s) == Got(v, n) <==> Fits(v) && n == |PrintValue(v)| && PrintValue(v) <= s
  {
    hide Word, U32, EncodeBody, DecodeBody, PrintValue, Fits;
    PrintedValue(v);
    if Fits(v) && PrintValue(v) <= s {
      ValueBack(v, s[|PrintValue(v)|..]);
      assert s == PrintValue(v) + s[|PrintValue(v)|..];
    }
    if DecodeValue(s) == Got(v, n) {
      BodyForth(U32(s), s[4..]);
      BackToBytes(s);
      assert s[..n] == s[..4] + s[4..][..n - 4];
    }
  }

  lemma {:induction false} PairsRead(pairs: seq<Pair>)
    requires AllFit(pairs)
    ensures DecodeEntries(PrintPairs(pairs)) == Some(Values(pairs))
  {
    hide DecodeValue, PrintValue, Fits;
    if pairs != [] {
      var s, rest := PrintPairs(pairs), PrintPairs(pairs[1..]);
      var k, v := PrintValue(pairs[0].key), PrintValue(pairs[0].value);
      ValueExactly(s, pairs[0].key, |k|);
      assert s[|k|..] == v + rest;
      ValueExactly(v + rest, pairs[0].value, |v|);
      assert s[|k| + |v|..] == rest;
      PairsRead(pairs[1..]);
      NoValue();
    }
  }

  lemma NoValue()
    ensures DecodeValue([]).Bad?
  {
  }

  lemma {:induction false} PairsForth(s: Bytes) returns (pairs: seq<Pair>)
    requires DecodeEntries(s).Some?
    ensures AllFit(pairs) && Values(pairs) == DecodeEntries(s).value && s == PrintPairs(pairs)
    decreases |s|
  {
    hide DecodeValue, PrintValue, Fits;
    if s == [] {
      pairs := [];
    } else {
      var key := DecodeValue(s);
      var value := DecodeValue(s[key.size..]);
      ValueExactly(s, key.value, key.size);
      ValueExactly(s[key.size..], value.value, value.size);
      var more := PairsForth(s[key.size + value.size..]);
      pairs := [Pair(key.value, value.value)] + more;
      assert pairs[1..] == more;
      InThree(s, key.size, value.size);
    }
  }

  lemma InThree(s: Bytes, a: nat, b: nat)
    requires a + b <= |s|
    ensures s == s[..a] + (s[a..][..b] + s[a + b..])
  {
  }

  // ---------------------------------------------------------------------------
  // Frames
  // ---------------------------------------------------------------------------

  lemma TwoBytesAre(n: Word16)
    ensures HalfWord(n) == TwoBytes(n)
  {
    Pow256Values();
    LittleEndianAt(n, 2, 0);
    LittleEndianAt(n, 2, 1);
  }

  lemma HeaderIs(l: Layout)
    ensures PrintHeader(l) ==
            Header(l.index, l.count, 16 + l.total, l.identifier, l.conversation, l.channel, l.flags).Encode()
  {
    hide Word, HalfWord, TwoBytes, FourBytes;
    TwoBytesAre(l.index);
    TwoBytesAre(l.count);
    WordIs(16 + l.total);
    WordIs(l.identifier);
    WordIs(l.conversation);
    WordIs(l.channel);
    WordIs(l.flags);
  }

  lemma SizesRead(l: Layout, rest: Bytes)
    requires Good(l)
    ensures var s := PrintSizes(l) + rest;
            |s| >= 16 && SizesAt(s) == Sizes(l.kind, l.auxiliary, l.total) && s[16..] == rest
  {
    hide FourBytes, U32, GoodAuxiliary;
    var s := PrintSizes(l) + rest;
    var third := FourBytes(l.total) + (l.spare + rest);
    assert s[4..] == FourBytes(l.auxiliary) + third;
    FourBack(l.auxiliary, third);
    FourBack(l.total, l.spare + rest);
    assert s[8..] == s[4..][4..] && s[16..] == third[4..][4..];
  }

  lemma DictionaryReads(d: Auxiliary, rest: Bytes)
    requires GoodAuxiliary(d)
    ensures var s := PrintDictionary(Some(d)) + rest;
            DecodeAuxiliary(s) == Got(Values(d.pairs), |PrintDictionary(Some(d))|) && |PrintDictionary(Some(d))| >= 16
  {
    hide U32, U64, EightBytes, PrintPairs, DecodeEntries, Fits;
    var pairs := PrintPairs(d.pairs);
    var s := PrintDictionary(Some(d)) + rest;
    assert s == d.magic + (d.unknown + (EightBytes(|pairs|) + (pairs + rest)));
    LowByte(s);
    assert s[8..] == EightBytes(|pairs|) + (pairs + rest);
    EightBack(|pairs|, pairs + rest);
    assert s[16..] == s[8..][8..];
    assert s[16..16 + |pairs|] == (pairs + rest)[..|pairs|] == pairs;
    PairsRead(d.pairs);
  }

  lemma LowByte(s: Bytes)
    requires |s| >= 4
    ensures U32(s) % 256 == s[0]
  {
    var v := FromLittleEndian(s[..4][1..]);
    QuotientIs(s[0] + 256 * v, 256, v, s[0]);
  }

  lemma ContentReads(l: Layout)
    requires Good(l)
    ensures ParsedContent(PrintDictionary(l.dictionary) + l.payload, Sizes(l.kind, l.auxiliary, l.total)) ==
            Some((Meaning(l).auxiliary, l.payload))
  {
    hide DecodeAuxiliary, PrintDictionary, GoodAuxiliary;
    if l.dictionary.Some? {
      DictionaryReads(l.dictionary.value, l.payload);
      var n := |PrintDictionary(l.dictionary)|;
      assert (PrintDictionary(l.dictionary) + l.payload)[n..] == l.payload;
    } else {
      NoDictionary();
      assert ([] + l.payload)[0..] == l.payload;
    }
  }

  lemma NoDictionary()
    ensures PrintDictionary(None) == []
  {
  }

  lemma FieldsRead(l: Layout)
    requires Good(l)
    ensures ParsedFields(PrintHeader(l) + (PrintSizes(l) + (PrintDictionary(l.dictionary) + l.payload))) ==
            Ok(Meaning(l))
  {
    hide HeaderAt, SizesAt, ParsedContent, PrintHeader, PrintSizes, PrintDictionary, GoodAuxiliary, Header.Encode;
    var header := Header(l.index, l.count, 16 + l.total, l.identifier, l.conversation, l.channel, l.flags);
    var content := PrintDictionary(l.dictionary) + l.payload;
    var s := PrintHeader(l) + (PrintSizes(l) + content);
    HeaderIs(l);
    HeaderBack(header, PrintSizes(l) + content);
    SizesRead(l, content);
    ContentReads(l);
    assert s[40..] == s[24..][16..];
  }

  lemma Magic()
    ensures FourBytes(0x1f3d5b79) == [0x79, 0x5b, 0x3d, 0x1f]
  {
  }

  lemma FrameReads(l: Layout)
    requires Good(l)
    ensures Parsed(Print(l)) == Ok(Meaning(l))
  {
    hide U32, FourBytes, ParsedFields, PrintHeader, PrintSizes, PrintDictionary, GoodAuxiliary, Meaning;
    var s, n := Print(l), 32 + |l.extra|;
    var fields := PrintHeader(l) + (PrintSizes(l) + (PrintDictionary(l.dictionary) + l.payload));
    Magic();
    assert s == FourBytes(0x1f3d5b79) + (FourBytes(n) + (l.extra + fields));
    FourBack(0x1f3d5b79, FourBytes(n) + (l.extra + fields));
    FourBack(n, l.extra + fields);
    assert s[8 + |l.extra|..] == s[4..][4..][|l.extra|..] == fields;
    FieldsRead(l);
  }

  // ---------------------------------------------------------------------------
  // Whatever is accepted has a layout
  // ---------------------------------------------------------------------------

  lemma HalfWordForth(s: Bytes)
    requires |s| >= 2
    ensures s == TwoBytes(U16(s)) + s[2..]
  {
    hide LittleEndian, FromLittleEndian, TwoBytes;
    LittleEndianOf(s[..2]);
    TwoBytesAre(U16(s));
    assert s == s[..2] + s[2..];
  }

  lemma HeaderForth(s: Bytes)
    requires |s| >= 24
    ensures var h := HeaderAt(s);
            s == TwoBytes(h.fragmentIndex) + (TwoBytes(h.fragmentCount) + (FourBytes(h.length) +
                 (FourBytes(h.identifier) + (FourBytes(h.conversationIndex) + (FourBytes(h.channel) +
                 (FourBytes(h.flags) + s[24..]))))))
  {
    hide U16, U32, TwoBytes, FourBytes;
    HalfWordForth(s);
    HalfWordForth(s[2..]);
    WordForth(s[4..]);
    WordForth(s[8..]);
    WordForth(s[12..]);
    WordForth(s[16..]);
    WordForth(s[20..]);
    assert s[2..][2..] == s[4..] && s[4..][4..] == s[8..] && s[8..][4..] == s[12..] && s[12..][4..] == s[16..];
    assert s[16..][4..] == s[20..] && s[20..][4..] == s[24..];
  }

  lemma SizesForth(s: Bytes)
    requires |s| >= 16
    ensures var z := SizesAt(s);
            s == [z.messageType] + s[1..4] +
                 (FourBytes(z.auxiliarySize) + (FourBytes(z.totalSize) + s[12..16])) + s[16..]
  {
    hide U32, FourBytes;
    WordForth(s[4..]);
    WordForth(s[8..]);
    assert s[4..][4..] == s[8..] && s[8..][4..] == s[12..];
    assert s == s[..4] + s[4..] && s[..4] == [s[0]] + s[1..4] && s[12..] == s[12..16] + s[16..];
  }

  lemma DictionaryForth(s: Bytes) returns (d: Auxiliary)
    requires DecodeAuxiliary(s).Got?
    ensures var r := DecodeAuxiliary(s);
            GoodAuxiliary(d) && Values(d.pairs) == r.value && s == PrintDictionary(Some(d)) + s[r.size..]
  {
    hide U32, U64, EightBytes, PrintPairs, DecodeEntries, AllFit;
    var length := U64(s[8..]);
    var pairs := PairsForth(s[16..16 + length]);
    d := Auxiliary(s[..4], s[4..8], pairs);
    LowByte(s);
    LongWordForth(s[8..]);
    assert s[8..][8..] == s[16..16 + length] + s[16 + length..];
    assert s == s[..4] + (s[4..8] + s[8..]);
  }

  lemma ContentForth(s: Bytes, sizes: Sizes) returns (d: Option<Auxiliary>)
    requires sizes.auxiliarySize <= sizes.totalSize && ParsedContent(s, sizes).Some?
    ensures var content := ParsedContent(s, sizes).value;
            && s == PrintDictionary(d) + content.1 && |content.1| == sizes.totalSize - sizes.auxiliarySize
            && (d.Some? <==> sizes.auxiliarySize > 0) && (d.Some? ==> GoodAuxiliary(d.value))
            && content.0 == if d.Some? then Values(d.value.pairs) else []
  {
    hide DecodeAuxiliary, PrintDictionary, GoodAuxiliary, Values;
    if sizes.auxiliarySize > 0 {
      var a := DictionaryForth(s);
      d := Some(a);
    } else {
      d := None;
      NoDictionary();
      assert [] + s[0..] == s;
    }
  }

  lemma FieldsForth(s: Bytes, extra: Bytes) returns (l: Layout)
    requires ParsedFields(s).Ok? && 32 + |extra| < 0x1_0000_0000
    ensures Good(l) && Meaning(l) == ParsedFields(s).value && l.extra == extra
    ensures s == PrintHeader(l) + (PrintSizes(l) + (PrintDictionary(l.dictionary) + l.payload))
  {
    hide HeaderAt, SizesAt, ParsedContent, PrintDictionary, GoodAuxiliary, Values, TwoBytes, FourBytes;
    var h, z := HeaderAt(s), SizesAt(s[24..]);
    var content := ParsedContent(s[40..], z).value;
    var d := ContentForth(s[40..], z);
    l := Layout(extra, h.fragmentIndex, h.fragmentCount, h.identifier, h.conversationIndex, h.channel, h.flags,
                z.messageType, s[25..28], z.auxiliarySize, z.totalSize, s[36..40], d, content.1);
    HeaderForth(s);
    SizesForth(s[24..]);
    assert s[24..][1..4] == s[25..28] && s[24..][12..16] == s[36..40] && s[24..][16..] == s[40..];
    Regrouped(TwoBytes(l.index), TwoBytes(l.count), FourBytes(16 + l.total), FourBytes(l.identifier),
              FourBytes(l.conversation), FourBytes(l.channel), FourBytes(l.flags), s[24..]);
  }

  lemma Regrouped(a: Bytes, b: Bytes, c: Bytes, d: Bytes, e: Bytes, f: Bytes, g: Bytes, rest: Bytes)
    ensures a + (b + (c + (d + (e + (f + (g + rest)))))) == a + (b + (c + (d + (e + (f + g))))) + rest
  {
  }

  lemma FrameForth(s: Bytes) returns (l: Layout)
    requires Parsed(s).Ok?
    ensures Good(l) && Meaning(l) == Parsed(s).value && Print(l) == s
  {
    hide U32, FourBytes, ParsedFields, PrintHeader, PrintSizes, PrintDictionary, GoodAuxiliary, Meaning;
    var n := U32(s[4..]) - 32;
    l := FieldsForth(s[8 + n..], s[8..8 + n]);
    Magic();
    WordForth(s);
    WordForth(s[4..]);
    assert s[4..][4..] == s[8..8 + n] + s[8 + n..];
  }

  /** The parser accepts the bytes of layouts and nothing else. */
  lemma ParsesExactly(s: Bytes, m: Dtx)
    ensures Parsed(s) == Ok(m) <==> exists l :: Good(l) && Print(l) == s && Meaning(l) == m
  {
    hide Parsed, Good, Print, Meaning;
    forall l | Good(l) && Print(l) == s
      ensures Parsed(s) == Ok(Meaning(l))
    {
      FrameReads(l);
    }
    if Parsed(s) == Ok(m) {
      var l := FrameForth(s);
    }
  }

  /**
   A stream is cut by the sum of two of its words: the header size at byte 4 and the length
   at byte 12, wherever a longer header puts its own length.
   */
  lemma CutExactly(s: Bytes, m: Dtx, n: nat)
    ensures FirstMessage(s) == Got(m, n) <==>
              && 32 <= n <= |s| && Parsed(s[..n]) == Ok(m)
              && exists size: Word32, length: Word32 ::
                   && s[4..8] == FourBytes(size) && s[12..16] == FourBytes(length)
                   && length <= 134_217_728 && n == size + length
  {
    hide U32, FourBytes, ParsedFields;
    if |s| >= 32 {
      WordAt(s, 4);
      WordAt(s, 12);
      if 32 <= n <= |s| {
        Prefix32(s, s[..n], 0);
        Prefix32(s, s[..n], 4);
      }
    }
  }

  lemma WordAt(s: Bytes, i: nat)
    requires i + 4 <= |s|
    ensures s[i..i + 4] == FourBytes(U32(s[i..]))
    ensures forall n: Word32 :: s[i..i + 4] == FourBytes(n) ==> U32(s[i..]) == n
  {
    hide U32, FourBytes;
    WordForth(s[i..]);
    assert s[i..i + 4] == s[i..][..4];
    forall n: Word32 | s[i..i + 4] == FourBytes(n)
      ensures U32(s[i..]) == n
    {
      FourBack(n, s[i + 4..]);
      assert s[i..] == FourBytes(n) + s[i + 4..];
    }
  }

  // ---------------------------------------------------------------------------
  // What is written
  // ---------------------------------------------------------------------------

  function NullKeyed(values: seq<DtxValue>): seq<Pair> {
    if values == [] then [] else [Pair(Null, values[0])] + NullKeyed(values[1..])
  }

  /** The layout of a message: null keys, zeros where nobody looks, and no dictionary without values. */
  function Plain(m: Dtx): Layout {
    var d := if m.auxiliary == [] then None
             else Some(Auxiliary([0xf0, 0x01, 0x00, 0x00], [0, 0, 0, 0], NullKeyed(m.auxiliary)));
    var size := |PrintDictionary(d)|;
    Layout([], m.fragmentIndex, m.fragmentCount, m.identifier, m.conversationIndex,
           if m.channelCode >= 0 then m.channelCode else m.channelCode + 0x1_0000_0000,
           if m.expectsReply then 1 else 0, m.messageType % 256, [0, 0, 0], size, size + |m.payload|, [0, 0, 0, 0],
           d, m.payload)
  }

  lemma {:induction false} PairsAre(values: seq<DtxValue>)
    ensures EncodeEntries(values) == PrintPairs(NullKeyed(values))
  {
    hide Word, EncodeValue, PrintValue;
    if values != [] {
      PairsAre(values[1..]);
      PrintedValue(values[0]);
      NullIs();
      assert NullKeyed(values)[1..] == NullKeyed(values[1..]);
    }
  }

  lemma NullIs()
    ensures Word(0x0a) == PrintValue(Null)
  {
    hide Word;
    TypeWords();
  }

  lemma DictionaryIs(m: Dtx)
    ensures EncodeAuxiliary(m.auxiliary) == PrintDictionary(Plain(m).dictionary)
  {
    hide Word, LongWord, EncodeEntries, PrintPairs, EightBytes, NullKeyed;
    PairsAre(m.auxiliary);
    LongWordIs(|EncodeEntries(m.auxiliary)|);
    WordIs(0x1f0);
    WordIs(0);
  }

  lemma SizesAre(m: Dtx)
    ensures SizesOf(m).Encode() == PrintSizes(Plain(m))
  {
    hide Word, FourBytes, EncodeAuxiliary, PrintDictionary;
    DictionaryIs(m);
    WordIs(|EncodeAuxiliary(m.auxiliary)|);
    WordIs(TotalSize(m));
    ZeroWord();
  }

  lemma ZeroWord()
    ensures Word(0) == [0, 0, 0, 0]
  {
    hide Word;
    WordIs(0);
  }

  /** The bytes of every message, whether or not it can be received. */
  lemma EncodingIs(m: Dtx)
    ensures Encode(m) == Print(Plain(m))
  {
    hide Word, FourBytes, EncodeAuxiliary, PrintDictionary, PrintHeader, PrintSizes, Header.Encode, Sizes.Encode;
    DictionaryIs(m);
    HeaderIs(Plain(m));
    SizesAre(m);
    Magic();
    WordIs(0x1f3d5b79);
    WordIs(32);
    assert [] + (PrintHeader(Plain(m)) + (PrintSizes(Plain(m)) + (PrintDictionary(Plain(m).dictionary) + m.payload))) ==
           PrintHeader(Plain(m)) + (PrintSizes(Plain(m)) + (PrintDictionary(Plain(m).dictionary) + m.payload));
  }

  // ---------------------------------------------------------------------------
  // The messages of a connection
  // ---------------------------------------------------------------------------

  /** The frame of a message to channel `channel`, in bytes; `tail` is its sizes, dictionary and payload. */
  function Framed(length: nat, identifier: Word32, conversation: Word32, channel: Word32, reply: Byte, tail: Bytes)
    : Bytes
  {
    [0x79, 0x5b, 0x3d, 0x1f, 0x20, 0x00, 0x00, 0x00, 0x00, 0x00, 0x01, 0x00] + (FourBytes(length) +
      (FourBytes(identifier) + (FourBytes(conversation) + (FourBytes(channel) + ([reply, 0x00, 0x00, 0x00] + tail)))))
  }

  function Tail(kind: Byte, dictionary: Bytes, payload: Bytes): Bytes {
    [kind, 0x00, 0x00, 0x00] + (FourBytes(|dictionary|) + (FourBytes(|dictionary| + |payload|) +
      ([0x00, 0x00, 0x00, 0x00] + (dictionary + payload))))
  }

  lemma FramedIs(m: Dtx)
    requires m.fragmentIndex == 0 && m.fragmentCount == 1
    ensures var l := Plain(m);
            Encode(m) == Framed(16 + l.total, m.identifier, m.conversationIndex, l.channel,
                                if m.expectsReply then 1 else 0,
                                Tail(l.kind, PrintDictionary(l.dictionary), m.payload))
  {
    hide Encode, PrintDictionary, FourBytes;
    var l := Plain(m);
    EncodingIs(m);
    SmallWords();
    var d, p := PrintDictionary(l.dictionary), m.payload;
    assert PrintSizes(l) + (d + p) == Tail(l.kind, d, p);
    HeaderFramed(l, Tail(l.kind, d, p));
  }

  lemma SmallWords()
    ensures FourBytes(32) == [0x20, 0x00, 0x00, 0x00]
    ensures FourBytes(0) == [0x00, 0x00, 0x00, 0x00] && FourBytes(1) == [0x01, 0x00, 0x00, 0x00]
    ensures FourBytes(16) == [0x10, 0x00, 0x00, 0x00]
    ensures TwoBytes(0) == [0x00, 0x00] && TwoBytes(1) == [0x01, 0x00]
  {
  }

  lemma HeaderFramed(l: Layout, tail: Bytes)
    requires l.index == 0 && l.count == 1 && l.flags <= 1
    ensures [0x79, 0x5b, 0x3d, 0x1f] + (FourBytes(32) + ([] + (PrintHeader(l) + tail))) ==
            Framed(16 + l.total, l.identifier, l.conversation, l.channel, l.flags, tail)
  {
    hide FourBytes, TwoBytes;
    SmallWords();
    var a, b, c, d := FourBytes(16 + l.total), FourBytes(l.identifier), FourBytes(l.conversation), FourBytes(l.channel);
    Regrouped(TwoBytes(0), TwoBytes(1), a, b, c, d, FourBytes(l.flags), tail);
  }

  /** The acknowledgement is on the same channel, and the conversation has gone on by one. */
  lemma AckBytes(m: Dtx)
    ensures Encode(AckOf(m)) ==
            Framed(16, m.identifier, (m.conversationIndex + 1) % 0x1_0000_0000,
                   if m.channelCode >= 0 then m.channelCode else m.channelCode + 0x1_0000_0000, 0,
                   Tail(0, [], []))
  {
    hide Encode, Framed, Tail, FourBytes;
    FramedIs(AckOf(m));
    NoDictionary();
  }

  /** A call is a dispatch (2) that opens a conversation, expects a reply and carries the selector. */
  lemma CallBytes(code: Words.Int32, selector: Bytes, auxiliary: seq<DtxValue>, identifier: Word32)
    ensures var request := Addressed(Call(code, selector, auxiliary), identifier);
            var d := PrintDictionary(Plain(request).dictionary);
            Encode(request) ==
            Framed(16 + (|d| + |selector|), identifier, 0, if code >= 0 then code else code + 0x1_0000_0000, 1,
                   Tail(2, d, selector))
  {
    hide Encode, Framed, Tail, FourBytes, PrintDictionary;
    FramedIs(Addressed(Call(code, selector, auxiliary), identifier));
  }

  /** Channels are opened on channel 0; a reply has the request's number and a conversation that went on. */
  lemma ConversationIs(l: Layout, identifier: Word32, selector: Bytes, auxiliary: seq<DtxValue>)
    ensures Answers(Meaning(l), identifier) <==> l.identifier == identifier && l.conversation != 0
    ensures Meaning(l).expectsReply <==> l.flags != 0
    ensures Call(GLOBAL_CHANNEL, selector, auxiliary).channelCode == 0
  {
  }
}
