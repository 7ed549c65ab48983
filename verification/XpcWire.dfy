/**
 The bytes of `xpc` objects, written out. A layout is one way of writing an object down; the
 decoder accepts exactly the bytes of layouts, and reads each as what it means. Nothing here
 names a type word, so the encoder and the decoder are held to the format itself.
 */
module XpcWire {
  import opened Words
  import opened Dictionaries
  import opened Fields
  import opened XpcFormat
  import opened XpcRoundTrip
  import opened XpcMessage

  // ---------------------------------------------------------------------------
  // Layouts
  // ---------------------------------------------------------------------------

  /** `pad` is whatever stands between a run of bytes and the next 4-byte boundary. */
  datatype Layout =
    | NullAt
    | BooleanAt(word: nat)
    | Int64At(long: nat)
    | Uint64At(long: nat)
    | DoubleAt(long: nat)
    | DateAt(long: nat)
    | DataAt(data: Bytes, pad: Bytes)
    | StringAt(text: Bytes, nuls: nat, pad: Bytes)
    | UuidAt(uuid: UuidBytes)
    | ArrayAt(items: seq<Layout>)
    | DictionaryAt(members: seq<Member>)

  datatype Member = Member(key: Bytes, pad: Bytes, value: Layout)

  predicate Fills(pad: Bytes, size: nat) {
    |pad| < 4 && (size + |pad|) % 4 == 0
  }

  function Nuls(n: nat): (s: Bytes)
    ensures |s| == n
  {
    seq(n, _ => 0)
  }

  function Print(l: Layout): Bytes
    decreases l
  {
    match l
    case NullAt => [0x00, 0x10, 0x00, 0x00]
    case BooleanAt(word) => [0x00, 0x20, 0x00, 0x00] + FourBytes(word)
    case Int64At(long) => [0x00, 0x30, 0x00, 0x00] + EightBytes(long)
    case Uint64At(long) => [0x00, 0x40, 0x00, 0x00] + EightBytes(long)
    case DoubleAt(long) => [0x00, 0x50, 0x00, 0x00] + EightBytes(long)
    case DateAt(long) => [0x00, 0x70, 0x00, 0x00] + EightBytes(long)
    case DataAt(data, pad) => [0x00, 0x80, 0x00, 0x00] + PrintRun(data, pad)
    case StringAt(text, nuls, pad) => [0x00, 0x90, 0x00, 0x00] + PrintRun(text + Nuls(nuls), pad)
    case UuidAt(uuid) => [0x00, 0xa0, 0x00, 0x00] + uuid
    case ArrayAt(items) => [0x00, 0xe0, 0x00, 0x00] + PrintList(|items|, PrintItems(items))
    case DictionaryAt(members) => [0x00, 0xf0, 0x00, 0x00] + PrintList(|members|, PrintMembers(members))
  }

  function PrintRun(run: Bytes, pad: Bytes): Bytes {
    FourBytes(|run|) + (run + pad)
  }

  /** The length of all that follows the length word, the count, and the elements. */
  function PrintList(count: nat, elements: Bytes): Bytes {
    FourBytes(4 + |elements|) + (FourBytes(count) + elements)
  }

  function PrintItems(items: seq<Layout>): Bytes
    decreases items
  {
    if items == [] then [] else Print(items[0]) + PrintItems(items[1..])
  }

  function PrintMembers(members: seq<Member>): Bytes
    decreases members
  {
    if members == [] then []
    else PrintKey(members[0].key, members[0].pad) + (Print(members[0].value) + PrintMembers(members[1..]))
  }

  function PrintKey(key: Bytes, pad: Bytes): Bytes {
    key + ([0x00] + pad)
  }

  /** Lengths fit their words, padding ends at a boundary, and keys hold no NUL. */
  ghost predicate Good(l: Layout)
    decreases l
  {
    match l
    case NullAt => true
    case BooleanAt(word) => word < 0x1_0000_0000
    case Int64At(long) => long < 0x1_0000_0000_0000_0000
    case Uint64At(long) => long < 0x1_0000_0000_0000_0000
    case DoubleAt(long) => long < 0x1_0000_0000_0000_0000
    case DateAt(long) => long < 0x1_0000_0000_0000_0000
    case DataAt(data, pad) => |data| < 0x1_0000_0000 && Fills(pad, |data|)
    case StringAt(text, nuls, pad) =>
      && |text| + nuls < 0x1_0000_0000 && Fills(pad, |text| + nuls)
      && (text != [] ==> text[|text| - 1] != 0)
    case UuidAt(_) => true
    case ArrayAt(items) => 4 + |PrintItems(items)| < 0x1_0000_0000 && GoodItems(items)
    case DictionaryAt(members) => 4 + |PrintMembers(members)| < 0x1_0000_0000 && GoodMembers(members)
  }

  ghost predicate GoodItems(items: seq<Layout>)
    decreases items
  {
    items != [] ==> Good(items[0]) && GoodItems(items[1..])
  }

  ghost predicate GoodMembers(members: seq<Member>)
    decreases members
  {
    members != [] ==>
      GoodKey(members[0].key, members[0].pad) && Good(members[0].value) && GoodMembers(members[1..])
  }

  predicate GoodKey(key: Bytes, pad: Bytes) {
    (forall i :: 0 <= i < |key| ==> key[i] != 0) && Fills(pad, |key| + 1)
  }

  /** What a layout means: any non-zero boolean is true, trailing NULs do not count, the first of equal keys does. */
  ghost function Meaning(l: Layout): Xpc
    requires Good(l)
    decreases l
  {
    match l
    case NullAt => Null
    case BooleanAt(word) => Boolean(word != 0)
    case Int64At(long) => Int64(if long < 0x8000_0000_0000_0000 then long else long - 0x1_0000_0000_0000_0000)
    case Uint64At(long) => Uint64(long)
    case DoubleAt(long) => Double(long)
    case DateAt(long) => Date(long)
    case DataAt(data, _) => Data(data)
    case StringAt(text, _, _) => String(text)
    case UuidAt(uuid) => Uuid(uuid)
    case ArrayAt(items) => Array(ItemsMeaning(items))
    case DictionaryAt(members) => Dictionary(MembersMeaning(members, []))
  }

  ghost function ItemsMeaning(items: seq<Layout>): seq<Xpc>
    requires GoodItems(items)
    decreases items
  {
    if items == [] then [] else [Meaning(items[0])] + ItemsMeaning(items[1..])
  }

  ghost function MembersMeaning(members: seq<Member>, done: seq<Entry<Xpc>>): seq<Entry<Xpc>>
    requires GoodMembers(members)
    decreases members
  {
    if members == [] then done
    else MembersMeaning(members[1..], Emplace(done, members[0].key, Meaning(members[0].value)))
  }

  // ---------------------------------------------------------------------------
  // Layouts are read as what they mean
  // ---------------------------------------------------------------------------

  lemma FillsGap(pad: Bytes, size: nat, offset: nat)
    requires Fills(pad, size) && offset % 4 == 0
    ensures Gap(offset + size) == |pad|
  {
  }

  lemma RunReads(run: Bytes, pad: Bytes, rest: Bytes, offset: nat)
    requires |run| < 0x1_0000_0000 && Fills(pad, |run|) && offset % 4 == 0
    ensures DecodeRun(PrintRun(run, pad) + rest, offset) == Got(run, |PrintRun(run, pad)|)
    ensures |PrintRun(run, pad)| % 4 == 0
  {
    hide FourBytes, U32, Gap;
    var after := run + (pad + rest);
    var s := PrintRun(run, pad) + rest;
    assert s == FourBytes(|run|) + after;
    FourBack(|run|, after);
    assert s[4..4 + |run|] == after[..|run|] == run;
    FillsGap(pad, |run|, offset + 4);
  }

  lemma {:induction false} TrimsNuls(text: Bytes, nuls: nat)
    requires text != [] ==> text[|text| - 1] != 0
    ensures Trimmed(text + Nuls(nuls)) == text
  {
    if nuls == 0 {
      assert text + Nuls(0) == text;
    } else {
      var s := text + Nuls(nuls);
      assert s[..|s| - 1] == text + Nuls(nuls - 1);
      TrimsNuls(text, nuls - 1);
    }
  }

  lemma {:induction false} FirstNul(key: Bytes, rest: Bytes)
    requires forall i :: 0 <= i < |key| ==> key[i] != 0
    ensures KeyLength(key + ([0x00] + rest)) == |key|
  {
    var s := key + ([0x00] + rest);
    if key != [] {
      FirstNul(key[1..], rest);
      assert s[1..] == key[1..] + ([0x00] + rest);
    }
  }

  lemma KeyReads(key: Bytes, pad: Bytes, rest: Bytes, offset: nat)
    requires GoodKey(key, pad) && offset % 4 == 0
    ensures DecodeKey(PrintKey(key, pad) + rest, offset) == Got(key, |PrintKey(key, pad)|)
    ensures |PrintKey(key, pad)| % 4 == 0 && |PrintKey(key, pad)| >= 4
  {
    hide KeyLength, Gap;
    var s := PrintKey(key, pad) + rest;
    assert s == key + ([0x00] + (pad + rest));
    FirstNul(key, pad + rest);
    assert s[..|key|] == key;
    FillsGap(pad, |key| + 1, offset);
  }

  /** The type word of a layout. */
  function Kind(l: Layout): Word32 {
    match l
    case NullAt => 0x1000
    case BooleanAt(_) => 0x2000
    case Int64At(_) => 0x3000
    case Uint64At(_) => 0x4000
    case DoubleAt(_) => 0x5000
    case DateAt(_) => 0x7000
    case DataAt(_, _) => 0x8000
    case StringAt(_, _, _) => 0x9000
    case UuidAt(_) => 0xa000
    case ArrayAt(_) => 0xe000
    case DictionaryAt(_) => 0xf000
  }

  function Body(l: Layout): Bytes {
    match l
    case NullAt => []
    case BooleanAt(word) => FourBytes(word)
    case Int64At(long) => EightBytes(long)
    case Uint64At(long) => EightBytes(long)
    case DoubleAt(long) => EightBytes(long)
    case DateAt(long) => EightBytes(long)
    case DataAt(data, pad) => PrintRun(data, pad)
    case StringAt(text, nuls, pad) => PrintRun(text + Nuls(nuls), pad)
    case UuidAt(uuid) => uuid
    case ArrayAt(items) => PrintList(|items|, PrintItems(items))
    case DictionaryAt(members) => PrintList(|members|, PrintMembers(members))
  }

  lemma KindThenBody(l: Layout)
    ensures Print(l) == FourBytes(Kind(l)) + Body(l)
  {
    hide EightBytes, PrintRun, PrintList, PrintItems, PrintMembers, Nuls;
    assert Kind(l) % 256 == 0 && Kind(l) / 0x1_0000 == 0;
  }

  lemma ScalarReads(l: Layout, rest: Bytes, offset: nat)
    requires Good(l) && !l.ArrayAt? && !l.DictionaryAt? && offset % 4 == 0
    ensures DecodeScalar(Kind(l), Body(l) + rest, offset) == Got(Meaning(l), |Body(l)|)
    ensures |Body(l)| % 4 == 0
  {
    hide FourBytes, EightBytes, U32, U64, PrintRun, DecodeRun, Trimmed, Nuls, Fills;
    match l
    case NullAt =>
    case BooleanAt(word) => FourBack(word, rest);
    case Int64At(long) => EightBack(long, rest);
    case Uint64At(long) => EightBack(long, rest);
    case DoubleAt(long) => EightBack(long, rest);
    case DateAt(long) => EightBack(long, rest);
    case DataAt(data, pad) => RunReads(data, pad, rest, offset);
    case StringAt(text, nuls, pad) =>
      RunReads(text + Nuls(nuls), pad, rest, offset);
      TrimsNuls(text, nuls);
    case UuidAt(uuid) => assert (uuid + rest)[..16] == uuid;
  }

  lemma {:induction false} LayoutReads(l: Layout, rest: Bytes, offset: nat)
    requires Good(l) && offset % 4 == 0
    ensures Decode(Print(l) + rest, offset) == Got(Meaning(l), |Print(l)|)
    ensures |Print(l)| % 4 == 0 && |Print(l)| >= 4
    decreases l, 1
  {
    hide FourBytes, U32, DecodeScalar, DecodeContainer, Print, Body, Good, Meaning;
    KindThenBody(l);
    assert Print(l) + rest == FourBytes(Kind(l)) + (Body(l) + rest);
    FourBack(Kind(l), Body(l) + rest);
    if l.ArrayAt? || l.DictionaryAt? {
      ListReads(l, rest, offset + 4);
    } else {
      ScalarReads(l, rest, offset + 4);
    }
  }

  lemma ListBack(count: nat, elements: Bytes, rest: Bytes)
    requires 4 + |elements| < 0x1_0000_0000 && 4 * count <= |elements|
    ensures var s := PrintList(count, elements) + rest;
            && |s| >= 8 && |PrintList(count, elements)| == 8 + |elements|
            && U32(s) == 4 + |elements| && U32(s[4..]) == count && s[8..] == elements + rest
            && count <= (|s| - 8) / 4
  {
    hide FourBytes, U32;
    var s := PrintList(count, elements) + rest;
    assert s == FourBytes(4 + |elements|) + (FourBytes(count) + (elements + rest));
    FourBack(4 + |elements|, FourBytes(count) + (elements + rest));
    FourBack(count, elements + rest);
    assert s[8..] == s[4..][4..];
  }

  lemma {:induction false} ListReads(l: Layout, rest: Bytes, offset: nat)
    requires Good(l) && (l.ArrayAt? || l.DictionaryAt?) && offset % 4 == 0
    ensures DecodeContainer(Kind(l), Body(l) + rest, offset) == Got(Meaning(l), |Body(l)|) && |Body(l)| % 4 == 0
    decreases l, 0
  {
    hide U32, DecodeItems, DecodeEntries, PrintItems, PrintMembers, GoodItems, GoodMembers, ItemsMeaning, PrintList,
         MembersMeaning, FourBytes, DecodeContainer;
    if l.ArrayAt? {
      ItemsRead(l.items, rest, offset + 8);
      ListBack(|l.items|, PrintItems(l.items), rest);
      ArrayIs(Body(l) + rest, offset, PrintItems(l.items), rest, ItemsMeaning(l.items));
    } else {
      MembersRead(l.members, [], rest, offset + 8);
      ListBack(|l.members|, PrintMembers(l.members), rest);
      DictionaryIs(Body(l) + rest, offset, PrintMembers(l.members), rest, MembersMeaning(l.members, []));
    }
  }

  lemma ArrayIs(s: Bytes, offset: nat, elements: Bytes, rest: Bytes, items: seq<Xpc>)
    requires |s| >= 8 && U32(s) == 4 + |elements| && U32(s[4..]) <= (|s| - 8) / 4 && s[8..] == elements + rest
    requires DecodeItems(elements + rest, offset + 8, U32(s[4..])) == Got(items, |elements|)
    ensures DecodeContainer(0xe000, s, offset) == Got(Array(items), 8 + |elements|)
  {
    hide U32, DecodeItems, DecodeEntries;
  }

  lemma DictionaryIs(s: Bytes, offset: nat, elements: Bytes, rest: Bytes, entries: seq<Entry<Xpc>>)
    requires |s| >= 8 && U32(s) == 4 + |elements| && s[8..] == elements + rest
    requires DecodeEntries(elements + rest, offset + 8, U32(s[4..]), []) == Got(entries, |elements|)
    ensures DecodeContainer(0xf000, s, offset) == Got(Dictionary(entries), 8 + |elements|)
  {
    hide U32, DecodeItems, DecodeEntries;
  }

  lemma {:induction false} ItemsRead(items: seq<Layout>, rest: Bytes, offset: nat)
    requires GoodItems(items) && offset % 4 == 0
    ensures DecodeItems(PrintItems(items) + rest, offset, |items|) == Got(ItemsMeaning(items), |PrintItems(items)|)
    ensures |PrintItems(items)| % 4 == 0 && |PrintItems(items)| >= 4 * |items|
    decreases items
  {
    hide Decode, Print, Good, Meaning, DecodeItems;
    if items == [] {
      NoItemsLeft(PrintItems(items) + rest, offset);
    } else {
      var first, more := Print(items[0]), PrintItems(items[1..]);
      ItemSlices(first, more, rest);
      LayoutReads(items[0], more + rest, offset);
      ItemsStep(first + more + rest, offset, |items|);
      ItemsRead(items[1..], rest, offset + |first|);
    }
  }

  lemma {:induction false} MembersRead(members: seq<Member>, done: seq<Entry<Xpc>>, rest: Bytes, offset: nat)
    requires GoodMembers(members) && offset % 4 == 0
    ensures DecodeEntries(PrintMembers(members) + rest, offset, |members|, done) ==
            Got(MembersMeaning(members, done), |PrintMembers(members)|)
    ensures |PrintMembers(members)| % 4 == 0 && |PrintMembers(members)| >= 4 * |members|
    decreases members
  {
    hide Decode, DecodeKey, Print, PrintKey, GoodKey, Good, Meaning, DecodeEntries, Emplace, PrintMembers;
    if members == [] {
      NoMembers();
      NoEntriesLeft(PrintMembers(members) + rest, offset, done);
    } else {
      var m, more := members[0], PrintMembers(members[1..]);
      var size := |PrintKey(m.key, m.pad)| + |Print(m.value)|;
      PrintMembersStep(members);
      InOrder(PrintKey(m.key, m.pad), Print(m.value), more, rest);
      MemberReads(m, more + rest, |members|, done, offset);
      MembersRead(members[1..], Emplace(done, m.key, Meaning(m.value)), rest, offset + size);
    }
  }

  lemma {:induction false} MemberReads(m: Member, rest: Bytes, count: nat, done: seq<Entry<Xpc>>, offset: nat)
    requires GoodKey(m.key, m.pad) && Good(m.value) && offset % 4 == 0 && count > 0
    ensures var size := |PrintKey(m.key, m.pad)| + |Print(m.value)|;
            && size % 4 == 0 && size >= 4
            && DecodeEntries(PrintKey(m.key, m.pad) + (Print(m.value) + rest), offset, count, done) ==
               Past(size, DecodeEntries(rest, offset + size, count - 1, Emplace(done, m.key, Meaning(m.value))))
    decreases m, 0
  {
    hide Decode, DecodeKey, Print, PrintKey, GoodKey, Good, Meaning, DecodeEntries, Emplace;
    var key, value := PrintKey(m.key, m.pad), Print(m.value);
    var s := key + (value + rest);
    assert s[|key|..] == value + rest && s[|key| + |value|..] == rest;
    KeyReads(m.key, m.pad, value + rest, offset);
    LayoutReads(m.value, rest, offset + |key|);
    EntriesStep(s, offset, count, done);
  }

  lemma InOrder(key: Bytes, value: Bytes, more: Bytes, rest: Bytes)
    ensures key + (value + more) + rest == key + (value + (more + rest))
  {
  }

  // ---------------------------------------------------------------------------
  // Whatever is read has a layout
  // ---------------------------------------------------------------------------

  lemma RunForth(s: Bytes, offset: nat) returns (pad: Bytes)
    requires DecodeRun(s, offset).Got? && offset % 4 == 0
    ensures var r := DecodeRun(s, offset);
            && |r.value| < 0x1_0000_0000 && Fills(pad, |r.value|)
            && r.size == |PrintRun(r.value, pad)| && s[..r.size] == PrintRun(r.value, pad)
  {
    hide FourBytes, U32, Gap;
    var r := DecodeRun(s, offset);
    var end := 4 + U32(s);
    pad := s[end..r.size];
    GapFills(pad, U32(s), offset + 4);
    WordForth(s);
    RunParts(s, end, r.size);
  }

  lemma GapFills(pad: Bytes, size: nat, offset: nat)
    requires |pad| == Gap(offset + size) && offset % 4 == 0
    ensures Fills(pad, size)
  {
  }

  lemma RunParts(s: Bytes, end: nat, size: nat)
    requires 4 <= end <= size <= |s|
    ensures s[..size] == s[..4] + (s[4..end] + s[end..size])
  {
  }

  lemma {:induction false} TrimForth(run: Bytes)
    ensures var t := Trimmed(run);
            |t| <= |run| && run == t + Nuls(|run| - |t|) && (t != [] ==> t[|t| - 1] != 0)
  {
    if run != [] && run[|run| - 1] == 0 {
      var front := run[..|run| - 1];
      TrimForth(front);
      var t := Trimmed(run);
      assert run == front + [0];
      assert Nuls(|run| - |t|) == Nuls(|front| - |t|) + [0];
    } else {
      assert run == run + Nuls(0);
    }
  }

  lemma KeyForth(s: Bytes, offset: nat) returns (pad: Bytes)
    requires DecodeKey(s, offset).Got? && offset % 4 == 0
    ensures var r := DecodeKey(s, offset);
            GoodKey(r.value, pad) && r.size == |PrintKey(r.value, pad)| && s[..r.size] == PrintKey(r.value, pad)
  {
    var r := DecodeKey(s, offset);
    var k := KeyLength(s);
    pad := s[k + 1..r.size];
    assert s[..r.size] == s[..k] + ([s[k]] + s[k + 1..r.size]);
  }

  lemma ScalarForth(kind: Word32, s: Bytes, offset: nat) returns (l: Layout)
    requires DecodeScalar(kind, s, offset).Got? && offset % 4 == 0
    ensures var r := DecodeScalar(kind, s, offset);
            && Good(l) && Kind(l) == kind && Meaning(l) == r.value
            && r.size == |Body(l)| && s[..r.size] == Body(l)
  {
    hide FourBytes, EightBytes, U32, U64, PrintRun, DecodeRun, Trimmed, Nuls, Fills;
    if kind == 0x1000 {
      l := NullAt;
    } else if kind == 0x2000 {
      WordForth(s);
      l := BooleanAt(U32(s));
    } else if kind in {0x3000, 0x4000, 0x5000, 0x7000} {
      LongWordForth(s);
      var long := U64(s);
      l := if kind == 0x3000 then Int64At(long) else if kind == 0x4000 then Uint64At(long)
           else if kind == 0x5000 then DoubleAt(long) else DateAt(long);
    } else if kind == 0xa000 {
      l := UuidAt(s[..16]);
    } else {
      var run := DecodeRun(s, offset).value;
      var pad := RunForth(s, offset);
      TrimForth(run);
      l := if kind == 0x8000 then DataAt(run, pad) else StringAt(Trimmed(run), |run| - |Trimmed(run)|, pad);
    }
  }

  lemma {:induction false} LayoutForth(s: Bytes, offset: nat) returns (l: Layout)
    requires Decode(s, offset).Got? && offset % 4 == 0
    ensures var r := Decode(s, offset);
            Good(l) && Meaning(l) == r.value && r.size == |Print(l)| && s[..r.size] == Print(l) && r.size % 4 == 0
    decreases |s|, 0, 0
  {
    hide FourBytes, U32, DecodeScalar, DecodeContainer, Print, Body, Good, Meaning;
    var kind, body := U32(s), s[4..];
    WordForth(s);
    if kind == 0xe000 || kind == 0xf000 {
      l := ContainerForth(kind, body, offset + 4);
    } else {
      l := ScalarForth(kind, body, offset + 4);
    }
    KindThenBody(l);
    var r := Decode(s, offset);
    assert s[..r.size] == FourBytes(kind) + body[..r.size - 4];
    LayoutReads(l, [], offset);
  }

  lemma {:induction false} ContainerForth(kind: Word32, s: Bytes, offset: nat) returns (l: Layout)
    requires kind in {ARRAY_TYPE, DICTIONARY_TYPE} && DecodeContainer(kind, s, offset).Got? && offset % 4 == 0
    ensures var r := DecodeContainer(kind, s, offset);
            Good(l) && Kind(l) == kind && Meaning(l) == r.value && r.size == |Body(l)| && s[..r.size] == Body(l)
    decreases |s|, 2, 0
  {
    hide U32, FourBytes, DecodeItems, DecodeEntries, PrintItems, PrintMembers, GoodItems, GoodMembers, ItemsMeaning,
         MembersMeaning;
    var count := U32(s[4..]);
    TwoWordsForth(s);
    if kind == 0xe000 {
      var items := ItemsForth(s[8..], offset + 8, count);
      l := ArrayAt(items);
      Beginning(s, 8 + |PrintItems(items)|);
    } else {
      var members := MembersForth(s[8..], offset + 8, count, []);
      l := DictionaryAt(members);
      Beginning(s, 8 + |PrintMembers(members)|);
    }
  }

  lemma TwoWordsForth(s: Bytes)
    requires |s| >= 8
    ensures s[..8] == FourBytes(U32(s)) + FourBytes(U32(s[4..]))
  {
    hide U32, FourBytes;
    WordForth(s);
    WordForth(s[4..]);
    assert s[..8] == s[..4] + s[4..][..4];
  }

  lemma Beginning(s: Bytes, n: nat)
    requires 8 <= n <= |s|
    ensures s[..n] == s[..8] + s[8..][..n - 8]
  {
  }

  lemma {:induction false} ItemsForth(s: Bytes, offset: nat, count: nat) returns (items: seq<Layout>)
    requires DecodeItems(s, offset, count).Got? && offset % 4 == 0
    ensures var r := DecodeItems(s, offset, count);
            && GoodItems(items) && |items| == count && ItemsMeaning(items) == r.value
            && r.size == |PrintItems(items)| && s[..r.size] == PrintItems(items)
    decreases |s|, 1, count
  {
    hide Decode, Print, Good, Meaning, DecodeItems;
    if count == 0 {
      NoItemsLeft(s, offset);
      items := [];
    } else {
      ItemsStep(s, offset, count);
      var first := Decode(s, offset);
      var l := LayoutForth(s, offset);
      var more := ItemsForth(s[first.size..], offset + first.size, count - 1);
      items := [l] + more;
      assert items[1..] == more;
      TwoParts(s, first.size, |PrintItems(more)|);
    }
  }

  lemma TwoParts(s: Bytes, a: nat, b: nat)
    requires a + b <= |s|
    ensures s[..a + b] == s[..a] + s[a..][..b]
  {
  }

  lemma {:induction false} MembersForth(s: Bytes, offset: nat, count: nat, done: seq<Entry<Xpc>>)
    returns (members: seq<Member>)
    requires DecodeEntries(s, offset, count, done).Got? && offset % 4 == 0
    ensures var r := DecodeEntries(s, offset, count, done);
            && GoodMembers(members) && |members| == count && MembersMeaning(members, done) == r.value
            && r.size == |PrintMembers(members)| && s[..r.size] == PrintMembers(members)
    decreases |s|, 1, count
  {
    hide Decode, DecodeKey, Print, PrintKey, GoodKey, Good, Meaning, DecodeEntries, Emplace, PrintMembers;
    if count == 0 {
      NoEntriesLeft(s, offset, done);
      members := [];
      NoMembers();
    } else {
      EntriesStep(s, offset, count, done);
      var key := DecodeKey(s, offset);
      var pad := KeyForth(s, offset);
      KeySize(key.value, pad);
      var value := Decode(s[key.size..], offset + key.size);
      var l := LayoutForth(s[key.size..], offset + key.size);
      var size := key.size + value.size;
      var more := MembersForth(s[size..], offset + size, count - 1, Emplace(done, key.value, value.value));
      members := [Member(key.value, pad, l)] + more;
      assert members[1..] == more;
      PrintMembersStep(members);
      ThreeParts(s, key.size, value.size, |PrintMembers(more)|);
    }
  }

  lemma KeySize(key: Bytes, pad: Bytes)
    requires GoodKey(key, pad)
    ensures |PrintKey(key, pad)| % 4 == 0
  {
  }

  lemma ThreeParts(s: Bytes, a: nat, b: nat, c: nat)
    requires a + b + c <= |s|
    ensures s[..a + b + c] == s[..a] + (s[a..][..b] + s[a + b..][..c])
  {
  }

  lemma PrintMembersStep(members: seq<Member>)
    requires members != []
    ensures PrintMembers(members) == PrintKey(members[0].key, members[0].pad) +
                                     (Print(members[0].value) + PrintMembers(members[1..]))
  {
    hide Print, PrintKey;
  }

  /** The parser accepts the bytes of layouts and nothing else. */
  lemma ParsesExactly(bytes: Bytes, value: Xpc)
    ensures Parse(bytes) == Ok(value) <==> exists l :: Good(l) && Print(l) == bytes && Meaning(l) == value
  {
    hide Decode, Print, Good, Meaning;
    forall l | Good(l) && Print(l) == bytes
      ensures Parse(bytes) == Ok(Meaning(l))
    {
      LayoutReads(l, [], 0);
      assert bytes + [] == bytes;
    }
    if Parse(bytes) == Ok(value) {
      var l := LayoutForth(bytes, 0);
      assert bytes[..|bytes|] == bytes;
    }
  }

  // ---------------------------------------------------------------------------
  // What is written
  // ---------------------------------------------------------------------------

  /** The layout the encoder picks: no more NULs than the terminator, and padding of zeros. */
  function Plain(value: Xpc): Layout
    decreases value
  {
    match value
    case Null => NullAt
    case Boolean(flag) => BooleanAt(if flag then 1 else 0)
    case Int64(number) => Int64At(if number >= 0 then number else number + 0x1_0000_0000_0000_0000)
    case Uint64(word) => Uint64At(word)
    case Double(bits) => DoubleAt(bits)
    case Date(nanoseconds) => DateAt(nanoseconds)
    case Data(data) => DataAt(data, Filler(|data|))
    case String(text) => StringAt(text, 1, Filler(|text| + 1))
    case Uuid(uuid) => UuidAt(uuid)
    case Array(items) => ArrayAt(PlainItems(items))
    case Dictionary(entries) => DictionaryAt(PlainMembers(entries))
  }

  function Filler(size: nat): Bytes {
    Nuls((4 - size % 4) % 4)
  }

  function PlainItems(items: seq<Xpc>): (r: seq<Layout>)
    ensures |r| == |items|
    decreases items
  {
    if items == [] then [] else [Plain(items[0])] + PlainItems(items[1..])
  }

  function PlainMembers(entries: seq<Entry<Xpc>>): (r: seq<Member>)
    ensures |r| == |entries|
    decreases entries
  {
    if entries == [] then []
    else [Member(entries[0].key, Filler(|entries[0].key| + 1), Plain(entries[0].value))] + PlainMembers(entries[1..])
  }

  /** The bytes of every value, whether or not it can be read back. */
  lemma {:induction false} EncodingIs(value: Xpc)
    ensures Encode(value) == Print(Plain(value))
    decreases value, 1
  {
    hide Word, LongWord, FourBytes, EightBytes, Print, EncodeItems, EncodeEntries, PrintItems, PrintMembers, PlainItems,
         PlainMembers, Nuls, Zeros;
    KindThenBody(Plain(value));
    WordIs(Kind(Plain(value)));
    BodyIs(value);
    hide Kind;
  }

  lemma {:induction false} BodyIs(value: Xpc)
    ensures EncodeBody(value) == Body(Plain(value))
    decreases value, 0
  {
    hide Word, LongWord, FourBytes, EightBytes, EncodeItems, EncodeEntries, PrintItems, PrintMembers, PlainItems,
         PlainMembers, Nuls, Zeros;
    match value
    case Null =>
    case Boolean(flag) => WordIs(if flag then 1 else 0);
    case Int64(number) => LongWordIs(Unsigned64(number));
    case Uint64(word) => LongWordIs(word);
    case Double(bits) => LongWordIs(bits);
    case Date(nanoseconds) => LongWordIs(nanoseconds);
    case Data(data) => RunIs(data);
    case String(text) =>
      RunIs(text + [0]);
      OneNul();
    case Uuid(_) =>
    case Array(items) =>
      ItemsAre(items, 0);
      assert items[0..] == items;
      ListIs(|items|, EncodeItems(items, 0));
    case Dictionary(entries) =>
      EntriesAre(entries, 0);
      assert entries[0..] == entries;
      ListIs(|entries|, EncodeEntries(entries, 0));
  }

  lemma OneNul()
    ensures Nuls(1) == [0]
  {
  }

  lemma RunIs(run: Bytes)
    ensures Word(|run|) + Padded(run) == PrintRun(run, Filler(|run|))
  {
    hide Word, FourBytes;
    WordIs(|run|);
    assert Zeros(Gap(|run|)) == Filler(|run|);
  }

  lemma ListIs(count: nat, elements: Bytes)
    ensures EncodeList(count, elements) == PrintList(count, elements)
  {
    hide Word, FourBytes;
    WordIs(4 + |elements|);
    WordIs(count);
  }

  lemma {:induction false} ItemsAre(items: seq<Xpc>, index: nat)
    requires index <= |items|
    ensures EncodeItems(items, index) == PrintItems(PlainItems(items[index..]))
    decreases items, |items| - index
  {
    hide Encode, Print, Plain, EncodeItems;
    ItemsFrom(items, index);
    if index < |items| {
      EncodingIs(items[index]);
      ItemsAre(items, index + 1);
      assert items[index..][1..] == items[index + 1..];
      PlainItemsStep(items[index..]);
    }
  }

  lemma PlainItemsStep(items: seq<Xpc>)
    requires items != []
    ensures PrintItems(PlainItems(items)) == Print(Plain(items[0])) + PrintItems(PlainItems(items[1..]))
  {
    hide Print, Plain;
    assert PlainItems(items)[1..] == PlainItems(items[1..]);
  }

  lemma {:induction false} EntriesAre(entries: seq<Entry<Xpc>>, index: nat)
    requires index <= |entries|
    ensures EncodeEntries(entries, index) == PrintMembers(PlainMembers(entries[index..]))
    decreases entries, |entries| - index
  {
    hide *;
    if index < |entries| {
      EntriesAre(entries, index + 1);
      EntryIs(entries[index], EncodeEntries(entries, index + 1));
      FirstOfEntries(entries, index);
      PlainMembersStep(entries, index);
    } else {
      NoEntriesToWrite(entries);
    }
  }

  lemma FirstOfEntries(entries: seq<Entry<Xpc>>, index: nat)
    requires index < |entries|
    ensures EncodeEntries(entries, index) ==
            EncodeKey(entries[index].key) + Encode(entries[index].value) + EncodeEntries(entries, index + 1)
  {
    hide Encode, EncodeKey, EncodeEntries;
    EntriesFrom(entries, index);
  }

  lemma NoEntriesToWrite(entries: seq<Entry<Xpc>>)
    ensures EncodeEntries(entries, |entries|) == PrintMembers(PlainMembers(entries[|entries|..]))
  {
    hide Encode, EncodeKey;
    EntriesFrom(entries, |entries|);
    NoMembers();
    assert entries[|entries|..] == [];
  }

  lemma {:induction false} EntryIs(e: Entry<Xpc>, more: Bytes)
    ensures EncodeKey(e.key) + Encode(e.value) + more ==
            PrintKey(e.key, Filler(|e.key| + 1)) + (Print(Plain(e.value)) + more)
    decreases e, 0
  {
    hide Encode, EncodeKey, Print, PrintKey, Plain, Filler;
    EncodingIs(e.value);
    KeyIs(e.key);
    Regroup(EncodeKey(e.key), Encode(e.value), more);
  }

  lemma NoMembers()
    ensures PlainMembers([]) == [] && PrintMembers([]) == []
  {
  }

  lemma Regroup(a: Bytes, b: Bytes, c: Bytes)
    ensures a + b + c == a + (b + c)
  {
  }

  lemma KeyIs(key: Bytes)
    ensures EncodeKey(key) == PrintKey(key, Filler(|key| + 1))
  {
    assert Zeros(Gap(|key| + 1)) == Filler(|key| + 1);
  }

  lemma PlainMembersStep(entries: seq<Entry<Xpc>>, index: nat)
    requires index < |entries|
    ensures var e := entries[index];
            PrintMembers(PlainMembers(entries[index..])) ==
            PrintKey(e.key, Filler(|e.key| + 1)) +
            (Print(Plain(e.value)) + PrintMembers(PlainMembers(entries[index + 1..])))
  {
    hide Print, Plain, PrintKey, Filler;
    var all := PlainMembers(entries[index..]);
    assert entries[index..][1..] == entries[index + 1..];
    assert all[1..] == PlainMembers(entries[index + 1..]);
  }

  // ---------------------------------------------------------------------------
  // Payloads and wrappers
  // ---------------------------------------------------------------------------

  /** The magic 0x42133742, the version 5 and the object. */
  lemma PayloadIs(body: Xpc)
    ensures EncodePayload(body) == [0x42, 0x37, 0x13, 0x42, 0x05, 0x00, 0x00, 0x00] + Print(Plain(body))
  {
    hide Word, Encode, Print, Plain;
    WordIs(0x42133742);
    WordIs(5);
    EncodingIs(body);
  }

  ghost predicate IsPayload(bytes: Bytes, value: Xpc) {
    exists l :: Good(l) && Meaning(l) == value &&
                bytes == [0x42, 0x37, 0x13, 0x42, 0x05, 0x00, 0x00, 0x00] + Print(l)
  }

  lemma PayloadExactly(bytes: Bytes, value: Xpc)
    ensures ParsedPayload(bytes) == Ok(value) <==> IsPayload(bytes, value)
  {
    hide Decode, Print, Good, Meaning, U32;
    forall l | Good(l) && bytes == [0x42, 0x37, 0x13, 0x42, 0x05, 0x00, 0x00, 0x00] + Print(l)
      ensures ParsedPayload(bytes) == Ok(Meaning(l))
    {
      assert bytes == FourBytes(0x42133742) + (FourBytes(5) + Print(l));
      FourBack(0x42133742, FourBytes(5) + Print(l));
      FourBack(5, Print(l));
      LayoutReads(l, [], 8);
      assert bytes[8..] == Print(l) + [];
    }
    if ParsedPayload(bytes) == Ok(value) {
      TwoWordsForth(bytes);
      var l := LayoutForth(bytes[8..], 8);
      assert bytes[8..][..|bytes| - 8] == bytes[8..];
      assert bytes == bytes[..8] + bytes[8..];
      assert IsPayload(bytes, value);
    }
  }

  /** The magic 0x29b00b92, the flags, the length of the payload, the message number and the payload. */
  lemma WrapperIs(w: Wrapper)
    ensures EncodeWrapper(w) == [0x92, 0x0b, 0xb0, 0x29] +
            (FourBytes(w.flags) + (EightBytes(|WrapperBody(w)|) + (EightBytes(w.messageId) + WrapperBody(w))))
  {
    hide Word, LongWord, EightBytes, EncodePayload;
    WordIs(0x29b00b92);
    WordIs(w.flags);
    LongWordIs(|WrapperBody(w)|);
    LongWordIs(w.messageId);
  }

  ghost predicate WrapsBody(bytes: Bytes, w: Wrapper, body: Bytes) {
    && |body| < 0x1_0000_0000_0000_0000
    && bytes == [0x92, 0x0b, 0xb0, 0x29] +
                (FourBytes(w.flags) + (EightBytes(|body|) + (EightBytes(w.messageId) + body)))
    && if w.payload.Some? then IsPayload(body, w.payload.value) else body == []
  }

  lemma WrapperExactly(bytes: Bytes, w: Wrapper)
    ensures ParsedWrapper(bytes) == Ok(w) <==> exists body :: WrapsBody(bytes, w, body)
  {
    hide ParsedWrapper, WrapsBody;
    forall body | WrapsBody(bytes, w, body)
      ensures ParsedWrapper(bytes) == Ok(w)
    {
      WrapperReads(bytes, w, body);
    }
    if ParsedWrapper(bytes) == Ok(w) {
      var body := WrapperForth(bytes, w);
    }
  }

  lemma WrapperReads(bytes: Bytes, w: Wrapper, body: Bytes)
    requires WrapsBody(bytes, w, body)
    ensures ParsedWrapper(bytes) == Ok(w)
  {
    hide U32, U64, ParsedPayload, FourBytes, EightBytes, IsPayload;
    FieldsBack(bytes, w, body);
    if w.payload.Some? {
      PayloadExactly(body, w.payload.value);
      NotEmpty(body, w.payload.value);
    }
  }

  lemma WrapperForth(bytes: Bytes, w: Wrapper) returns (body: Bytes)
    requires ParsedWrapper(bytes) == Ok(w)
    ensures WrapsBody(bytes, w, body)
  {
    hide U32, U64, ParsedPayload, FourBytes, EightBytes, IsPayload;
    body := bytes[24..];
    if w.payload.Some? {
      PayloadExactly(body, w.payload.value);
    }
    FieldsForth(bytes);
    WrapperMagic();
  }

  lemma WrapperMagic()
    ensures FourBytes(0x29b00b92) == [0x92, 0x0b, 0xb0, 0x29]
  {
  }

  lemma NotEmpty(body: Bytes, value: Xpc)
    requires IsPayload(body, value)
    ensures body != []
  {
    hide Print, Good, Meaning;
  }

  lemma FieldsBack(bytes: Bytes, w: Wrapper, body: Bytes)
    requires |body| < 0x1_0000_0000_0000_0000
    requires bytes == [0x92, 0x0b, 0xb0, 0x29] +
                      (FourBytes(w.flags) + (EightBytes(|body|) + (EightBytes(w.messageId) + body)))
    ensures |bytes| >= 24 && U32(bytes) == 0x29b00b92 && U32(bytes[4..]) == w.flags
    ensures U64(bytes[8..]) == |body| && U64(bytes[16..]) == w.messageId && bytes[24..] == body
  {
    hide U32, U64, FourBytes, EightBytes;
    var afterLength := EightBytes(w.messageId) + body;
    var afterFlags := EightBytes(|body|) + afterLength;
    WrapperMagic();
    FourBack(0x29b00b92, FourBytes(w.flags) + afterFlags);
    FourBack(w.flags, afterFlags);
    EightBack(|body|, afterLength);
    EightBack(w.messageId, body);
    assert bytes[8..] == bytes[4..][4..] && bytes[16..] == bytes[8..][8..] && bytes[24..] == bytes[16..][8..];
  }

  lemma FieldsForth(bytes: Bytes)
    requires |bytes| >= 24
    ensures bytes == FourBytes(U32(bytes)) +
            (FourBytes(U32(bytes[4..])) + (EightBytes(U64(bytes[8..])) + (EightBytes(U64(bytes[16..])) + bytes[24..])))
  {
    hide U32, U64, FourBytes, EightBytes;
    WordForth(bytes);
    WordForth(bytes[4..]);
    LongWordForth(bytes[8..]);
    LongWordForth(bytes[16..]);
    assert bytes[8..] == bytes[4..][4..] && bytes[16..] == bytes[8..][8..] && bytes[24..] == bytes[16..][8..];
  }
}
