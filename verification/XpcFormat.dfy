/**
 The `xpc` object encoding of RemoteXPC: a little-endian type word and then the value. Strings,
 data and dictionary keys end on a 4-byte boundary, which the encoder measures in its local
 buffer and the decoder by its absolute offset.
 */
module XpcFormat {
  import opened Words
  import opened Dictionaries
  import opened Fields

  const UUID_SIZE := 16

  type UuidBytes = s: Bytes | |s| == UUID_SIZE witness [0, 0, 0, 0, 0, 0, 0, 0, 0, 0, 0, 0, 0, 0, 0, 0]

  datatype Xpc =
    | Null
    | Boolean(flag: bool)
    | Int64(number: Words.Int64)
    | Uint64(word: Word64)
    | Double(bits: Word64)
    | Date(nanoseconds: Word64)
    | Data(data: Bytes)
    | String(text: Bytes)
    | Uuid(uuid: UuidBytes)
    | Array(items: seq<Xpc>)
    | Dictionary(entries: seq<Entry<Xpc>>)

  const NULL_TYPE: Word32 := 0x1000
  const BOOLEAN_TYPE: Word32 := 0x2000
  const INT64_TYPE: Word32 := 0x3000
  const UINT64_TYPE: Word32 := 0x4000
  const DOUBLE_TYPE: Word32 := 0x5000
  const DATE_TYPE: Word32 := 0x7000
  const DATA_TYPE: Word32 := 0x8000
  const STRING_TYPE: Word32 := 0x9000
  const UUID_TYPE: Word32 := 0xA000
  const ARRAY_TYPE: Word32 := 0xE000
  const DICTIONARY_TYPE: Word32 := 0xF000

  // ---------------------------------------------------------------------------
  // Encoding
  // ---------------------------------------------------------------------------

  function TypeOf(value: Xpc): Word32 {
    match value
    case Null => NULL_TYPE
    case Boolean(_) => BOOLEAN_TYPE
    case Int64(_) => INT64_TYPE
    case Uint64(_) => UINT64_TYPE
    case Double(_) => DOUBLE_TYPE
    case Date(_) => DATE_TYPE
    case Data(_) => DATA_TYPE
    case String(_) => STRING_TYPE
    case Uuid(_) => UUID_TYPE
    case Array(_) => ARRAY_TYPE
    case Dictionary(_) => DICTIONARY_TYPE
  }

  /** How many bytes lead from `offset` to the next 4-byte boundary. */
  function Gap(offset: nat): (gap: nat)
    ensures gap < 4 && (offset + gap) % 4 == 0
  {
    (4 - offset % 4) % 4
  }

  function Zeros(n: nat): (s: Bytes)
    ensures |s| == n && forall i | 0 <= i < n :: s[i] == 0
  {
    seq(n, _ => 0)
  }

  function Padded(s: Bytes): (r: Bytes)
    ensures |r| == |s| + Gap(|s|) && |r| % 4 == 0
  {
    s + Zeros(Gap(|s|))
  }

  function EncodeKey(key: Bytes): Bytes {
    Padded(key + [0])
  }

  function Encode(value: Xpc): Bytes
    decreases value, 1
  {
    Word(TypeOf(value)) + EncodeBody(value)
  }

  function EncodeBody(value: Xpc): Bytes
    decreases value, 0
  {
    match value
    case Null => []
    case Boolean(flag) => Word(if flag then 1 else 0)
    case Int64(number) => LongWord(Unsigned64(number))
    case Uint64(word) => LongWord(word)
    case Double(bits) => LongWord(bits)
    case Date(nanoseconds) => LongWord(nanoseconds)
    case Data(data) => Word(|data|) + Padded(data)
    case String(text) => Word(|text| + 1) + Padded(text + [0])
    case Uuid(uuid) => uuid
    case Array(items) => EncodeList(|items|, EncodeItems(items, 0))
    case Dictionary(entries) => EncodeList(|entries|, EncodeEntries(entries, 0))
  }

  /** A container: the length of what follows the length word, the count, and the elements. */
  function EncodeList(count: nat, elements: Bytes): Bytes {
    Word(4 + |elements|) + (Word(count) + elements)
  }

  /** The elements of an array from `index` on. */
  function EncodeItems(items: seq<Xpc>, index: nat): Bytes
    requires index <= |items|
    decreases items, |items| - index
  {
    if index == |items| then [] else Encode(items[index]) + EncodeItems(items, index + 1)
  }

  function EncodeEntry(entry: Entry<Xpc>): Bytes
    decreases entry, 0
  {
    EncodeKey(entry.key) + Encode(entry.value)
  }

  function EncodeEntries(entries: seq<Entry<Xpc>>, index: nat): Bytes
    requires index <= |entries|
    decreases entries, |entries| - index
  {
    if index == |entries| then [] else EncodeEntry(entries[index]) + EncodeEntries(entries, index + 1)
  }

  // ---------------------------------------------------------------------------
  // Decoding
  // ---------------------------------------------------------------------------

  /** A length word, that many bytes, and the bytes up to the next boundary. */
  function DecodeRun(s: Bytes, offset: nat): (r: Read<Bytes>)
    ensures r.Got? ==> 4 <= r.size <= |s|
  {
    if |s| < 4 || U32(s) > |s| - 4 then Bad
    else
      var end := 4 + U32(s);
      if Gap(offset + end) > |s| - end then Bad else Got(s[4..end], end + Gap(offset + end))
  }

  /** Drops the terminator and any further NULs. */
  function Trimmed(text: Bytes): Bytes {
    if text != [] && text[|text| - 1] == 0 then Trimmed(text[..|text| - 1]) else text
  }

  /** Where the first NUL is, or the end. */
  function KeyLength(s: Bytes): (k: nat)
    ensures k <= |s| && (k < |s| ==> s[k] == 0) && forall i | 0 <= i < k :: s[i] != 0
  {
    if s == [] || s[0] == 0 then 0 else 1 + KeyLength(s[1..])
  }

  function DecodeKey(s: Bytes, offset: nat): (r: Read<Bytes>)
    ensures r.Got? ==> 1 <= r.size <= |s|
  {
    var k := KeyLength(s);
    if k == |s| || Gap(offset + k + 1) > |s| - k - 1 then Bad
    else Got(s[..k], k + 1 + Gap(offset + k + 1))
  }

  /** The value of a type that is not a container. */
  function DecodeScalar(kind: Word32, s: Bytes, offset: nat): (r: Read<Xpc>)
    ensures r.Got? ==> r.size <= |s|
  {
    if kind == NULL_TYPE then Got(Null, 0)
    else if kind == BOOLEAN_TYPE then
      if |s| < 4 then Bad else Got(Boolean(U32(s) != 0), 4)
    else if kind in {INT64_TYPE, UINT64_TYPE, DOUBLE_TYPE, DATE_TYPE} then
      if |s| < 8 then Bad
      else
        var word := U64(s);
        Got(if kind == INT64_TYPE then Int64(Signed64(word)) else if kind == UINT64_TYPE then Uint64(word)
            else if kind == DOUBLE_TYPE then Double(word) else Date(word), 8)
    else if kind == UUID_TYPE then
      if |s| < UUID_SIZE then Bad else Got(Uuid(s[..UUID_SIZE]), UUID_SIZE)
    else if kind in {DATA_TYPE, STRING_TYPE} then
      var run := DecodeRun(s, offset);
      if run.Bad? then Bad else Got(if kind == DATA_TYPE then Data(run.value) else String(Trimmed(run.value)), run.size)
    else Bad
  }

  /** The object that `s` starts with, when `s` starts at `offset` of the stream. */
  function Decode(s: Bytes, offset: nat): (r: Read<Xpc>)
    ensures r.Got? ==> 4 <= r.size <= |s|
    decreases |s|, 0, 0
  {
    if |s| < 4 then Bad
    else
      var kind, body := U32(s), s[4..];
      var r := if kind == ARRAY_TYPE || kind == DICTIONARY_TYPE then DecodeContainer(kind, body, offset + 4)
               else DecodeScalar(kind, body, offset + 4);
      if r.Bad? then Bad else Got(r.value, 4 + r.size)
  }

  /** The length and count words of a container and then its elements. */
  function DecodeContainer(kind: Word32, body: Bytes, offset: nat): (r: Read<Xpc>)
    requires kind in {ARRAY_TYPE, DICTIONARY_TYPE}
    ensures r.Got? ==> r.size <= |body|
    decreases |body|, 2, 0
  {
    if |body| < 8 || (kind == ARRAY_TYPE && U32(body[4..]) > (|body| - 8) / 4) then Bad
    else if kind == ARRAY_TYPE then
      var items := DecodeItems(body[8..], offset + 8, U32(body[4..]));
      if items.Bad? || 4 + items.size != U32(body) then Bad else Got(Array(items.value), 8 + items.size)
    else
      var entries := DecodeEntries(body[8..], offset + 8, U32(body[4..]), []);
      if entries.Bad? || 4 + entries.size != U32(body) then Bad else Got(Dictionary(entries.value), 8 + entries.size)
  }

  function DecodeItems(s: Bytes, offset: nat, count: nat): (r: Read<seq<Xpc>>)
    ensures r.Got? ==> r.size <= |s| && |r.value| == count
    decreases |s|, 1, count
  {
    if count == 0 then Got([], 0)
    else
      var first := Decode(s, offset);
      if first.Bad? then Bad
      else
        var rest := DecodeItems(s[first.size..], offset + first.size, count - 1);
        if rest.Bad? then Bad else Got([first.value] + rest.value, first.size + rest.size)
  }

  function DecodeEntries(s: Bytes, offset: nat, count: nat, entries: seq<Entry<Xpc>>): (r: Read<seq<Entry<Xpc>>>)
    ensures r.Got? ==> r.size <= |s|
    decreases |s|, 1, count
  {
    if count == 0 then Got(entries, 0)
    else
      var key := DecodeKey(s, offset);
      if key.Bad? then Bad
      else
        var value := Decode(s[key.size..], offset + key.size);
        if value.Bad? then Bad
        else
          var size := key.size + value.size;
          var rest := DecodeEntries(s[size..], offset + size, count - 1, Emplace(entries, key.value, value.value));
          if rest.Bad? then Bad else Got(rest.value, size + rest.size)
  }

  /** One whole object. */
  function Parse(bytes: Bytes): Result<Xpc> {
    var r := Decode(bytes, 0);
    if r.Got? && r.size == |bytes| then Ok(r.value) else Err(Protocol)
  }

  // ---------------------------------------------------------------------------
  // Every object is a multiple of 4 bytes, so both ways of padding agree
  // ---------------------------------------------------------------------------

  lemma {:induction false} EncodingIsAligned(value: Xpc)
    ensures |Encode(value)| % 4 == 0 && |Encode(value)| >= 4
    decreases value, 1
  {
    hide Word, LongWord, EncodeItems, EncodeEntries, Zeros, Gap, TypeOf, Unsigned64;
    match value
    case Array(items) => ItemsAreAligned(items, 0);
    case Dictionary(entries) => EntriesAreAligned(entries, 0);
    case _ =>
  }

  lemma {:induction false} ItemsAreAligned(items: seq<Xpc>, index: nat)
    requires index <= |items|
    ensures |EncodeItems(items, index)| % 4 == 0 && |EncodeItems(items, index)| >= 4 * (|items| - index)
    decreases items, |items| - index
  {
    hide Encode;
    if index < |items| {
      EncodingIsAligned(items[index]);
      ItemsAreAligned(items, index + 1);
    }
  }

  lemma {:induction false} EntriesAreAligned(entries: seq<Entry<Xpc>>, index: nat)
    requires index <= |entries|
    ensures |EncodeEntries(entries, index)| % 4 == 0
    decreases entries, |entries| - index
  {
    hide Encode, EncodeKey;
    EntriesFrom(entries, index);
    if index < |entries| {
      KeyIsAligned(entries[index].key);
      EncodingIsAligned(entries[index].value);
      EntriesAreAligned(entries, index + 1);
    }
  }

  lemma EntriesFrom(entries: seq<Entry<Xpc>>, index: nat)
    requires index <= |entries|
    ensures EncodeEntries(entries, index)
         == if index == |entries| then []
            else EncodeKey(entries[index].key) + Encode(entries[index].value) + EncodeEntries(entries, index + 1)
  {
    hide Encode, EncodeKey;
    if index < |entries| {
      assert EncodeEntry(entries[index]) == EncodeKey(entries[index].key) + Encode(entries[index].value);
    }
  }

  lemma KeyIsAligned(key: Bytes)
    ensures |EncodeKey(key)| % 4 == 0 && |EncodeKey(key)| >= 4
  {
  }

  /** At an aligned offset, skipping to the absolute boundary skips the local padding. */
  lemma GapIsLocal(offset: nat, size: nat)
    requires offset % 4 == 0
    ensures Gap(offset + size) == Gap(size)
  {
  }

  // ---------------------------------------------------------------------------
  // Reading a list one element at a time
  // ---------------------------------------------------------------------------

  /** A list read so far, `size` bytes of it, and the rest of it. */
  ghost function After(items: seq<Xpc>, size: nat, rest: Read<seq<Xpc>>): Read<seq<Xpc>> {
    if rest.Bad? then Bad else Got(items + rest.value, size + rest.size)
  }

  ghost function Past(size: nat, rest: Read<seq<Entry<Xpc>>>): Read<seq<Entry<Xpc>>> {
    if rest.Bad? then Bad else Got(rest.value, size + rest.size)
  }

  lemma NothingBefore(whole: Read<seq<Xpc>>)
    ensures whole == After([], 0, whole)
  {
    assert whole.Got? ==> [] + whole.value == whole.value;
  }

  lemma AfterAfter(items: seq<Xpc>, size: nat, more: seq<Xpc>, moreSize: nat, rest: Read<seq<Xpc>>)
    ensures After(items, size, After(more, moreSize, rest)) == After(items + more, size + moreSize, rest)
  {
    assert rest.Got? ==> items + (more + rest.value) == items + more + rest.value;
  }

  lemma NoItemsLeft(s: Bytes, offset: nat)
    ensures DecodeItems(s, offset, 0) == Got([], 0)
  {
  }

  lemma NoEntriesLeft(s: Bytes, offset: nat, entries: seq<Entry<Xpc>>)
    ensures DecodeEntries(s, offset, 0, entries) == Got(entries, 0)
  {
  }

  lemma ItemsStep(s: Bytes, offset: nat, count: nat)
    requires count > 0
    ensures var first := Decode(s, offset);
            DecodeItems(s, offset, count)
            == if first.Bad? then Bad
               else After([first.value], first.size, DecodeItems(s[first.size..], offset + first.size, count - 1))
  {
    hide Decode;
  }

  lemma EntriesStep(s: Bytes, offset: nat, count: nat, entries: seq<Entry<Xpc>>)
    requires count > 0
    ensures DecodeKey(s, offset).Bad? ==> DecodeEntries(s, offset, count, entries).Bad?
    ensures var key := DecodeKey(s, offset);
            key.Got? ==>
              var value := Decode(s[key.size..], offset + key.size);
              var both := key.size + (if value.Got? then value.size else 0);
              DecodeEntries(s, offset, count, entries)
              == if value.Bad? then Bad
                 else Past(both, DecodeEntries(s[both..], offset + both, count - 1,
                                               Emplace(entries, key.value, value.value)))
  {
    hide Decode, DecodeKey, Emplace;
  }
}
