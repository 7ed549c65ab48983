/**
 Parsing printed XML gives the value back, up to what XML cannot carry: a uid comes back as
 an integer and a date only when its year has four digits.
 */
module XmlRoundTrip {
  import opened Words
  import opened Dictionaries
  import opened Plists
  import opened Decimal
  import opened Base64
  import opened PlistDate
  import opened XmlText
  import opened XmlFormat

  // ---------------------------------------------------------------------------
  // What comes back
  // ---------------------------------------------------------------------------

  /** The value that printing and parsing gives, if the text parses at all. */
  ghost function Normal(v: Plist, reals: Reals): Option<Plist>
    decreases v, 1
  {
    match v
    case Real(bits) => Some(Real(reals.scan(reals.show(bits))))
    case Date(seconds) =>
      ParsedDateFits(FormatDate(seconds));
      var back := ParsedDate(FormatDate(seconds));
      if back.Ok? then Some(Date(back.value)) else None
    case Uid(index) => Some(Integer(Clamp(index)))
    case Array(items) =>
      var normal := NormalItems(items, 0, reals);
      if normal.Some? then Some(Array(normal.value)) else None
    case Dictionary(entries) =>
      var normal := NormalEntries(entries, 0, reals);
      if normal.Some? then Some(Dictionary(normal.value)) else None
    case _ => Some(v)
  }

  ghost function NormalItems(items: seq<Plist>, index: nat, reals: Reals): (r: Option<seq<Plist>>)
    requires index <= |items|
    ensures r.Some? ==> |r.value| == |items| - index
    decreases items, |items| - index
  {
    if index == |items| then Some([])
    else
      var first := Normal(items[index], reals);
      var more := NormalItems(items, index + 1, reals);
      if first.Some? && more.Some? then Some([first.value] + more.value) else None
  }

  ghost function NormalEntries(entries: seq<Entry<Plist>>, index: nat, reals: Reals): (r: Option<seq<Entry<Plist>>>)
    requires index <= |entries|
    ensures r.Some? ==> |r.value| == |entries| - index
    ensures r.Some? ==> forall i :: 0 <= i < |r.value| ==> r.value[i].key == entries[index + i].key
    decreases entries, |entries| - index
  {
    if index == |entries| then Some([])
    else
      var first := Normal(entries[index].value, reals);
      var more := NormalEntries(entries, index + 1, reals);
      if first.Some? && more.Some? then Some([Entry(entries[index].key, first.value)] + more.value) else None
  }

  /** Printed reals hold no `<`, whatever else they are. */
  ghost predicate Plain(reals: Reals) {
    forall bits :: LESS !in reals.show(bits)
  }

  // ---------------------------------------------------------------------------
  // Tokens
  // ---------------------------------------------------------------------------

  lemma ConsumeHere(token: Bytes, rest: Bytes)
    requires token != [] && !IsSpace(token[0])
    ensures Consume(token + rest, token) == Some(rest)
  {
    assert (token + rest)[|token|..] == rest;
  }

  lemma ConsumeNothing(s: Bytes, token: Bytes, i: nat)
    requires s != [] && !IsSpace(s[0]) && i < |token| && i < |s| && s[i] != token[i]
    ensures Consume(s, token) == None
  {
  }

  /** The body of an element comes back when it holds no `<`. */
  lemma BodyBack(tag: Tag, body: Bytes, rest: Bytes)
    requires LESS !in body
    ensures ReadBody([GREATER] + body + Close(tag) + rest, tag) == Parsed(body, rest)
  {
    hide Name, Search, SkipSpace, Consume;
    var s := [GREATER] + body + Close(tag) + rest;
    var after := body + Close(tag) + rest;
    assert s == [GREATER] + after;
    ConsumeNothing(s, [SLASH, GREATER], 0);
    ConsumeHere([GREATER], after);
    SearchAfter(body, Close(tag), rest);
    assert after[..|body|] == body && after[|body| + |Close(tag)|..] == rest;
  }

  predicate Printed(tag: Tag) {
    tag != KeyTag
  }

  /** No element is taken for another that is tried before it. */
  lemma TagBack(tag: Tag, rest: Bytes)
    requires Printed(tag)
    ensures TagAt(Open(tag) + rest) == Some(tag)
    ensures (Open(tag) + rest)[|Start(tag)|..] == [GREATER] + rest
    ensures Open(tag)[0] == LESS && Open(tag)[1] != SLASH
  {
    StartOfOpen(tag, rest);
    TagOfStart(tag, Open(tag) + rest);
  }

  lemma StartOfOpen(tag: Tag, rest: Bytes)
    requires Printed(tag)
    ensures Open(tag) <= Open(tag) + rest && Start(tag) <= Open(tag) + rest
    ensures (Open(tag) + rest)[|Start(tag)|..] == [GREATER] + rest
    ensures Open(tag)[0] == LESS && Open(tag)[1] != SLASH
  {
    assert Name(tag)[0] != SLASH;
    hide Name;
    assert Open(tag) + rest == Start(tag) + ([GREATER] + rest);
  }

  lemma TagOfStart(tag: Tag, s: Bytes)
    requires Printed(tag) && Open(tag) <= s && Start(tag) <= s
    ensures TagAt(s) == Some(tag)
  {
    hide Name, Start, Open;
    Distinct(tag, s);
  }

  /** The names differ at their second or fourth letter at the latest. */
  lemma Distinct(tag: Tag, s: Bytes)
    requires Printed(tag) && Start(tag) <= s
    ensures forall other :: other != tag && Printed(other) ==> !(Start(other) <= s) && !(Open(other) <= s)
  {
    forall other | other != tag && Printed(other)
      ensures !(Start(other) <= s) && !(Open(other) <= s)
    {
      var a, b := Start(tag), Start(other);
      var k := if a[1] != b[1] then 1 else if a[2] != b[2] then 2 else 4;
      assert s[k] == a[k] && a[k] != b[k] && Open(other)[k] == b[k];
    }
  }

  // ---------------------------------------------------------------------------
  // Leaves
  // ---------------------------------------------------------------------------

  lemma {:induction false} Base64IsPlain(data: Bytes)
    ensures forall c :: c in Encode(data) ==> !IsSpace(c) && c != LESS
  {
    hide Triple;
    if |data| >= 3 {
      Base64IsPlain(data[3..]);
    }
  }

  lemma {:induction false} PlainIsCompact(text: Bytes)
    requires forall c :: c in text ==> !IsSpace(c)
    ensures Compact(text) == text
  {
    if text != [] {
      assert text[0] in text;
      assert forall c :: c in text[1..] ==> c in text;
      PlainIsCompact(text[1..]);
      assert [text[0]] + text[1..] == text;
    }
  }

  lemma DigitsHoldNoTag(s: Bytes)
    requires AllDigits(s)
    ensures LESS !in s
  {
  }

  lemma DateIsPlain(seconds: int)
    ensures LESS !in FormatDate(seconds)
  {
    hide FormatDate, DateOf, PadTo, Digits, AllDigits, DayOf;
    FormatIsYearAndTail(seconds);
    var date := DateOf(seconds);
    var r := seconds + EPOCH_SECONDS - DayOf(seconds + EPOCH_SECONDS) * SECONDS_PER_DAY;
    PaddedIsPlain(if date.year >= 0 then date.year else -date.year, 4);
    PaddedIsPlain(if date.year >= 0 then date.year else -date.year, 3);
    PaddedIsPlain(date.month, 2);
    PaddedIsPlain(date.day, 2);
    PaddedIsPlain(r / 3600, 2);
    PaddedIsPlain(r % 3600 / 60, 2);
    PaddedIsPlain(r % 60, 2);
  }

  lemma PaddedIsPlain(n: nat, width: nat)
    ensures LESS !in PadTo(Digits(n), width)
  {
    hide PadTo, Digits, AllDigits;
    PaddedBack(n, width);
    DigitsHoldNoTag(PadTo(Digits(n), width));
  }

  /** The text of a leaf holds no `<` and reads as the leaf's normal form. */
  lemma LeafBack(v: Plist, reals: Reals)
    requires Plain(reals) && !v.Container() && HasBody(LeafTag(v))
    ensures LESS !in LeafText(v, reals)
    ensures LeafOf(LeafTag(v), LeafText(v, reals), reals) == Normal(v, reals)
  {
    hide IntegerText, ReadInteger, Escape, Unescape, Encode, Decoded, Compact, FormatDate, ParsedDate, Clamp;
    match v
    case Integer(n) =>
      IntegerBack(n);
      ClampInside(n);
    case Uid(index) => IntegerBack(index);
    case String(text) => EscapeBack(text);
    case Data(data) =>
      Base64IsPlain(data);
      PlainIsCompact(Encode(data));
      EncodingBack(data);
    case Date(seconds) => DateIsPlain(seconds);
    case Real(bits) =>
  }

  lemma ClampInside(n: Int64)
    ensures Clamp(n) == n
  {
  }

  /** Parse result of a normal form that may not exist. */
  ghost function Outcome<T>(normal: Option<T>, rest: Bytes): Parse<T> {
    if normal.Some? then Parsed(normal.value, rest) else Failed
  }

  /** An element that is not a container is read by its start and then by `ParseLeaf`. */
  lemma ParseByTag(tag: Tag, inner: Bytes, reals: Reals)
    requires Printed(tag) && tag != ArrayTag && tag != DictTag
    ensures ParseValue(Open(tag) + inner, reals) == ParseLeaf([GREATER] + inner, tag, reals)
  {
    hide TagAt, Name, ParseLeaf, ParseContainer;
    TagBack(tag, inner);
  }

  lemma BodyLeafBack(v: Plist, rest: Bytes, reals: Reals)
    requires Plain(reals) && !v.Container() && HasBody(LeafTag(v))
    ensures ParseLeaf([GREATER] + LeafText(v, reals) + Close(LeafTag(v)) + rest, LeafTag(v), reals) ==
            Outcome(Normal(v, reals), rest)
  {
    hide Name, LeafText, LeafOf, ReadBody, Normal;
    LeafBack(v, reals);
    BodyBack(LeafTag(v), LeafText(v, reals), rest);
  }

  lemma LeafXml(v: Plist, reals: Reals)
    requires !v.Container()
    ensures Xml(v, reals) ==
            if HasBody(LeafTag(v)) then Open(LeafTag(v)) + LeafText(v, reals) + Close(LeafTag(v)) else Open(LeafTag(v))
  {
    hide Name, LeafText, Open, Close;
  }

  lemma EmptyLeafBack(v: Plist, rest: Bytes, reals: Reals)
    requires !v.Container() && !HasBody(LeafTag(v))
    ensures ParseLeaf([GREATER] + rest, LeafTag(v), reals) == Parsed(v, rest) && Normal(v, reals) == Some(v)
  {
    hide Name, ReadBody, LeafOf;
    assert ([GREATER] + rest)[1..] == rest;
  }

  lemma LeafValueBack(v: Plist, rest: Bytes, reals: Reals)
    requires Plain(reals) && !v.Container()
    ensures ParseValue(Xml(v, reals) + rest, reals) == Outcome(Normal(v, reals), rest)
  {
    hide Name, LeafText, ParseValue, Open, Close, ParseLeaf, Normal, Xml, Plain;
    var tag := LeafTag(v);
    LeafXml(v, reals);
    if HasBody(tag) {
      var inner := LeafText(v, reals) + Close(tag) + rest;
      assert Xml(v, reals) + rest == Open(tag) + inner;
      ParseByTag(tag, inner, reals);
      BodyLeafBack(v, rest, reals);
      assert [GREATER] + inner == [GREATER] + LeafText(v, reals) + Close(tag) + rest;
    } else {
      ParseByTag(tag, rest, reals);
      EmptyLeafBack(v, rest, reals);
    }
  }

  // ---------------------------------------------------------------------------
  // Trees
  // ---------------------------------------------------------------------------

  /** Every printed value opens with `<` and not with `</`. */
  lemma XmlStart(v: Plist, reals: Reals)
    ensures |Xml(v, reals)| >= 2 && Xml(v, reals)[0] == LESS && Xml(v, reals)[1] != SLASH
  {
    hide ItemsXml, EntriesXml, LeafText;
  }

  lemma NotTheEnd(v: Plist, rest: Bytes, tag: Tag, reals: Reals)
    ensures Consume(Xml(v, reals) + rest, Close(tag)) == None
  {
    hide Xml, Name;
    XmlStart(v, reals);
    ConsumeNothing(Xml(v, reals) + rest, Close(tag), 1);
  }

  lemma {:induction false} ValueBack(v: Plist, rest: Bytes, reals: Reals)
    requires Plain(reals) && v.WellFormed()
    ensures ParseValue(Xml(v, reals) + rest, reals) == Outcome(Normal(v, reals), rest)
    decreases v, 1
  {
    hide TagAt, Name, ParseItems, ParseEntries, ItemsXml, EntriesXml, NormalItems, NormalEntries, Consume;
    match v
    case Array(items) =>
      var inside := ItemsXml(items, 0, reals) + Close(ArrayTag) + rest;
      assert Xml(v, reals) + rest == Open(ArrayTag) + inside;
      TagBack(ArrayTag, inside);
      ConsumeHere([GREATER], inside);
      ItemsBack(items, 0, rest, reals);
    case Dictionary(entries) =>
      var inside := EntriesXml(entries, 0, reals) + Close(DictTag) + rest;
      assert Xml(v, reals) + rest == Open(DictTag) + inside;
      TagBack(DictTag, inside);
      ConsumeHere([GREATER], inside);
      EntriesBack(entries, 0, [], rest, reals);
      assert NormalEntries(entries, 0, reals).Some? ==>
               [] + NormalEntries(entries, 0, reals).value == NormalEntries(entries, 0, reals).value;
    case _ => LeafValueBack(v, rest, reals);
  }

  lemma {:induction false} ItemsBack(items: seq<Plist>, index: nat, rest: Bytes, reals: Reals)
    requires Plain(reals) && index <= |items| && forall i :: 0 <= i < |items| ==> items[i].WellFormed()
    ensures ParseItems(ItemsXml(items, index, reals) + Close(ArrayTag) + rest, reals) ==
            Outcome(NormalItems(items, index, reals), rest)
    decreases items, |items| - index
  {
    hide Xml, Normal, ParseValue, Consume, Name;
    if index == |items| {
      ConsumeHere(Close(ArrayTag), rest);
      assert [] + Close(ArrayTag) + rest == Close(ArrayTag) + rest;
    } else {
      var tail := ItemsXml(items, index + 1, reals) + Close(ArrayTag) + rest;
      assert ItemsXml(items, index, reals) + Close(ArrayTag) + rest == Xml(items[index], reals) + tail;
      NotTheEnd(items[index], tail, ArrayTag, reals);
      ValueBack(items[index], tail, reals);
      ItemsBack(items, index + 1, rest, reals);
    }
  }

  lemma KeyBack(key: Bytes, rest: Bytes)
    ensures var s := Wrapped(KeyTag, Escape(key)) + rest;
            ParseKey(s) == Parsed(key, rest) && Consume(s, Close(DictTag)) == None
  {
    hide Escape, Unescape, Consume, ReadBody;
    EscapeBack(key);
    var body := Escape(key);
    var after := [GREATER] + body + Close(KeyTag) + rest;
    var s := Wrapped(KeyTag, body) + rest;
    assert s == Start(KeyTag) + after;
    ConsumeHere(Start(KeyTag), after);
    BodyBack(KeyTag, body, rest);
    ConsumeNothing(s, Close(DictTag), 1);
  }

  /** The entries read so far and the normal forms of the rest. */
  ghost function Joined(done: seq<Entry<Plist>>, more: Option<seq<Entry<Plist>>>, rest: Bytes)
    : Parse<seq<Entry<Plist>>>
  {
    if more.Some? then Parsed(done + more.value, rest) else Failed
  }

  lemma {:induction false} EntriesBack(entries: seq<Entry<Plist>>, index: nat, done: seq<Entry<Plist>>, rest: Bytes,
                                       reals: Reals)
    requires Plain(reals) && index <= |entries| && Sorted(entries)
    requires forall i :: 0 <= i < |entries| ==> entries[i].value.WellFormed()
    requires |done| == index && forall i :: 0 <= i < index ==> done[i].key == entries[i].key
    ensures ParseEntries(EntriesXml(entries, index, reals) + Close(DictTag) + rest, done, reals) ==
            Joined(done, NormalEntries(entries, index, reals), rest)
    decreases entries, |entries| - index
  {
    hide Xml, Normal, ParseValue, Consume, Name, ParseKey, Wrapped, Less, Escape, EntriesXml, ParseEntries,
         NormalEntries, Emplace;
    EntriesXmlFrom(entries, index, reals);
    NormalEntriesFrom(entries, index, reals);
    var s := EntriesXml(entries, index, reals) + Close(DictTag) + rest;
    if index == |entries| {
      ConsumeHere(Close(DictTag), rest);
      assert s == Close(DictTag) + rest;
      assert done + [] == done;
      EntriesStep(s, done, reals);
    } else {
      var entry := entries[index];
      var tail := EntriesXml(entries, index + 1, reals) + Close(DictTag) + rest;
      assert s == Wrapped(KeyTag, Escape(entry.key)) + (Xml(entry.value, reals) + tail);
      KeyBack(entry.key, Xml(entry.value, reals) + tail);
      ValueBack(entry.value, tail, reals);
      EntriesStep(s, done, reals);
      if Normal(entry.value, reals).Some? {
        var item := Normal(entry.value, reals).value;
        EmplaceLast(entries, index, done, item);
        EntriesBack(entries, index + 1, done + [Entry(entry.key, item)], rest, reals);
        assert NormalEntries(entries, index + 1, reals).Some? ==>
                 done + [Entry(entry.key, item)] + NormalEntries(entries, index + 1, reals).value ==
                 done + ([Entry(entry.key, item)] + NormalEntries(entries, index + 1, reals).value);
      }
    }
  }

  lemma EntriesXmlFrom(entries: seq<Entry<Plist>>, index: nat, reals: Reals)
    requires index <= |entries|
    ensures EntriesXml(entries, index, reals) ==
            if index == |entries| then []
            else Wrapped(KeyTag, Escape(entries[index].key)) + Xml(entries[index].value, reals) +
                 EntriesXml(entries, index + 1, reals)
  {
    hide Xml, Wrapped, Escape;
  }

  lemma NormalEntriesFrom(entries: seq<Entry<Plist>>, index: nat, reals: Reals)
    requires index <= |entries|
    ensures NormalEntries(entries, index, reals) ==
            if index == |entries| then Some([])
            else
              var first := Normal(entries[index].value, reals);
              var more := NormalEntries(entries, index + 1, reals);
              if first.Some? && more.Some? then Some([Entry(entries[index].key, first.value)] + more.value) else None
  {
    hide Normal;
  }

  /** The next key of a sorted dictionary goes last. */
  lemma EmplaceLast(entries: seq<Entry<Plist>>, index: nat, done: seq<Entry<Plist>>, item: Plist)
    requires index < |entries| && Sorted(entries)
    requires |done| == index && forall i :: 0 <= i < index ==> done[i].key == entries[i].key
    ensures Emplace(done, entries[index].key, item) == done + [Entry(entries[index].key, item)]
  {
    hide Emplace, Less;
    forall i | 0 <= i < |done|
      ensures Less(done[i].key, entries[index].key)
    {
      assert Less(entries[i].key, entries[index].key);
    }
    EmplaceAppends(done, entries[index].key, item);
  }
}
