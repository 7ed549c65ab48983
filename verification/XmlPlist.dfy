/** The XML printer, which appends to a buffer, and the parser, which advances a position. */
module XmlPlist {
  import opened Words
  import opened Dictionaries
  import opened Plists
  import opened Base64
  import opened PlistDate
  import opened XmlText
  import opened XmlFormat

  // ---------------------------------------------------------------------------
  // Printing
  // ---------------------------------------------------------------------------

  method LeafBody(v: Plist, reals: Reals) returns (body: Bytes)
    requires !v.Container()
    ensures body == LeafText(v, reals)
  {
    hide Escape, Encode, IntegerText, FormatDate;
    match v
    case Integer(n) => body := IntegerText(n);
    case Real(bits) => body := reals.show(bits);
    case String(text) => body := XmlEscape(text);
    case Data(data) => body := ToBase64(data);
    case Date(seconds) => body := FormatDate(seconds);
    case Uid(index) => body := IntegerText(index);
    case _ => body := [];
  }

  method AppendXml(v: Plist, reals: Reals, out: ByteVector)
    modifies out
    ensures out.bytes == old(out.bytes) + Xml(v, reals)
    decreases v, 1
  {
    hide Name, LeafText, Open, Close, ItemsXml, EntriesXml;
    if v.Array? {
      AppendItems(v.items, reals, out);
    } else if v.Dictionary? {
      AppendEntries(v.entries, reals, out);
    } else {
      out.Insert(Open(LeafTag(v)));
      if HasBody(LeafTag(v)) {
        var body := LeafBody(v, reals);
        out.Insert(body);
        out.Insert(Close(LeafTag(v)));
      }
    }
  }

  method AppendItems(items: seq<Plist>, reals: Reals, out: ByteVector)
    modifies out
    ensures out.bytes == old(out.bytes) + (Open(ArrayTag) + ItemsXml(items, 0, reals) + Close(ArrayTag))
    decreases items, 0
  {
    hide Xml, Name;
    out.Insert(Open(ArrayTag));
    ghost var start := out.bytes;
    for i := 0 to |items|
      invariant out.bytes + ItemsXml(items, i, reals) == start + ItemsXml(items, 0, reals)
    {
      AppendXml(items[i], reals, out);
    }
    assert ItemsXml(items, |items|, reals) == [] && out.bytes + [] == out.bytes;
    out.Insert(Close(ArrayTag));
  }

  method AppendEntries(entries: seq<Entry<Plist>>, reals: Reals, out: ByteVector)
    modifies out
    ensures out.bytes == old(out.bytes) + (Open(DictTag) + EntriesXml(entries, 0, reals) + Close(DictTag))
    decreases entries, 0
  {
    hide Xml, Name, Escape, Open, Close;
    out.Insert(Open(DictTag));
    ghost var start := out.bytes;
    for i := 0 to |entries|
      invariant out.bytes + EntriesXml(entries, i, reals) == start + EntriesXml(entries, 0, reals)
    {
      ghost var before := out.bytes;
      var key := XmlEscape(entries[i].key);
      out.Insert(Open(KeyTag));
      out.Insert(key);
      out.Insert(Close(KeyTag));
      AppendXml(entries[i].value, reals, out);
      assert out.bytes == before + EntryXml(entries[i], reals);
    }
    assert EntriesXml(entries, |entries|, reals) == [] && out.bytes + [] == out.bytes;
    out.Insert(Close(DictTag));
  }

  method ToXml(v: Plist, reals: Reals) returns (text: Bytes)
    ensures text == Document(v, reals)
  {
    hide Xml, Ascii, Declaration, Doctype, Root;
    var out := new ByteVector();
    out.Insert(Declaration() + [GREATER, NEW_LINE]);
    out.Insert(Doctype() + [GREATER, NEW_LINE]);
    out.Insert(Root() + [GREATER]);
    AppendXml(v, reals, out);
    out.Insert(Ascii("</plist>") + [NEW_LINE]);
    text := out.bytes;
    assert [GREATER, NEW_LINE] == [GREATER] + [NEW_LINE];
    Regrouped(Declaration(), Doctype(), Root(), Xml(v, reals), Ascii("</plist>") + [NEW_LINE]);
  }

  lemma Regrouped(a: Bytes, b: Bytes, c: Bytes, d: Bytes, e: Bytes)
    ensures var g, n := [GREATER], [NEW_LINE];
            [] + (a + (g + n)) + (b + (g + n)) + (c + g) + d + e ==
            a + (g + (n + (b + (g + (n + (c + (g + (d + e))))))))
  {
  }

  // ---------------------------------------------------------------------------
  // Parsing
  // ---------------------------------------------------------------------------

  class XmlParser {
    const text: Bytes
    const reals: Reals
    var position: nat

    ghost predicate Valid()
      reads this
    {
      position <= |text|
    }

    ghost function Rest(): Bytes
      requires Valid()
      reads this
    {
      text[position..]
    }

    constructor (text: Bytes, reals: Reals)
      ensures Valid() && this.reals == reals && Rest() == text
    {
      this.text, this.reals, position := text, reals, 0;
    }

    method SkipSpaces()
      requires Valid()
      modifies this
      ensures Valid() && Rest() == SkipSpace(old(Rest()))
    {
      while position < |text| && IsSpace(text[position])
        invariant Valid() && SkipSpace(Rest()) == SkipSpace(old(Rest()))
      {
        assert Rest()[1..] == text[position + 1..];
        position := position + 1;
      }
    }

    /** Whether the rest starts with `token`. */
    method StartsWith(token: Bytes) returns (yes: bool)
      requires Valid()
      ensures yes <==> token <= Rest()
    {
      yes := position + |token| <= |text| && text[position..position + |token|] == token;
      if position + |token| <= |text| {
        assert Rest()[..|token|] == text[position..position + |token|];
      }
    }

    /** Advances past the next `c`, or to the end. */
    method Advance(c: Byte)
      requires Valid()
      modifies this
      ensures Valid() && Rest() == SkipTo(old(Rest()), c)
    {
      while position < |text| && text[position] != c
        invariant Valid() && SkipTo(Rest(), c) == SkipTo(old(Rest()), c)
      {
        assert Rest()[1..] == text[position + 1..];
        position := position + 1;
      }
      if position < |text| {
        assert Rest()[1..] == text[position + 1..];
        position := position + 1;
      }
    }

    /** Moves past `token` when it comes next after white space; the space is skipped anyway. */
    method Accept(token: Bytes) returns (yes: bool)
      requires Valid()
      modifies this
      ensures Valid() && yes == Consume(old(Rest()), token).Some?
      ensures Rest() == if yes then Consume(old(Rest()), token).value else SkipSpace(old(Rest()))
    {
      hide SkipSpace;
      SkipSpaces();
      ghost var s := Rest();
      yes := StartsWith(token);
      if yes {
        assert s[|token|..] == text[position + |token|..];
        position := position + |token|;
      }
    }

    /** Where `token` first occurs from the position on. */
    method Locate(token: Bytes) returns (at: Option<nat>)
      requires Valid()
      ensures at == Search(Rest(), token)
    {
      hide Search;
      var i := 0;
      assert Rest()[0..] == Rest();
      while true
        invariant 0 <= i <= |Rest()|
        invariant Search(Rest(), token) == Moved(Search(Rest()[i..], token), i)
        decreases |Rest()| - i
      {
        SearchStep(Rest()[i..], token);
        if position + i + |token| <= |text| && text[position + i..position + i + |token|] == token {
          assert Rest()[i..][..|token|] == token;
          return Some(i);
        }
        assert position + i + |token| <= |text| ==>
            Rest()[i..][..|token|] == text[position + i..position + i + |token|];
        if position + i == |text| {
          return None;
        }
        assert Rest()[i..][1..] == Rest()[i + 1..];
        i := i + 1;
      }
    }

    method Body(tag: Tag) returns (body: Result<Bytes>)
      requires Valid()
      modifies this
      ensures Valid()
      ensures var d := ReadBody(old(Rest()), tag);
              if d.Failed? then body == Err(Protocol) else body == Ok(d.value) && Rest() == d.rest
    {
      hide Consume, Search, Name;
      ghost var s := Rest();
      var closed := Accept([SLASH, GREATER]);
      if closed {
        return Ok([]);
      }
      SkipAgain(s, [GREATER]);
      var entered := Accept([GREATER]);
      if !entered {
        return Err(Protocol);
      }
      var end := Locate(Close(tag));
      if end.None? {
        return Err(Protocol);
      }
      ghost var inner := Rest();
      body := Ok(text[position..position + end.value]);
      assert inner[..end.value] == text[position..position + end.value];
      position := position + end.value + |Close(tag)|;
    }

    /** The element the rest starts with, tried in order. */
    method NextTag() returns (tag: Option<Tag>)
      requires Valid()
      ensures tag == TagAt(Rest())
    {
      hide Name, Start, Open;
      var tags := [TrueTag, FalseTag, NullTag, IntegerTag, RealTag, StringTag, DataTag, DateTag, ArrayTag, DictTag];
      for i := 0 to |tags|
        invariant forall j :: 0 <= j < i ==> !(Token(tags[j]) <= Rest())
      {
        var here := StartsWith(Token(tags[i]));
        if here {
          FirstTag(Rest(), tags, i);
          return Some(tags[i]);
        }
      }
      NoTag(Rest(), tags);
      return None;
    }

    method ParseElement(tag: Tag) returns (value: Result<Plist>)
      requires Valid()
      modifies this
      ensures Valid()
      ensures var d := ParseLeaf(old(Rest()), tag, reals);
              if d.Failed? then value == Err(Protocol) else value == Ok(d.value) && Rest() == d.rest
    {
      hide ReadBody, Unescape, Decoded, Compact, ParsedDate, ReadInteger;
      if tag in {TrueTag, FalseTag, NullTag} {
        if position == |text| {
          return Err(Protocol);
        }
        assert Rest()[1..] == text[position + 1..];
        position := position + 1;
        return Ok(if tag == NullTag then Null else Boolean(tag == TrueTag));
      }
      var body := Body(tag);
      if body.Err? {
        return Err(Protocol);
      }
      var leaf := LeafValue(tag, body.value);
      return if leaf.None? then Err(Protocol) else Ok(leaf.value);
    }

    method LeafValue(tag: Tag, body: Bytes) returns (leaf: Option<Plist>)
      ensures leaf == LeafOf(tag, body, reals)
    {
      hide Unescape, Decoded, Compact, ParsedDate, ReadInteger;
      match tag
      case IntegerTag => leaf := Some(Integer(ReadInteger(body)));
      case RealTag => leaf := Some(Real(reals.scan(body)));
      case StringTag =>
        var unescaped := XmlUnescape(body);
        leaf := Some(String(unescaped));
      case DataTag =>
        var compact := RemoveSpace(body);
        var data := FromBase64(compact);
        leaf := if data.Ok? then Some(Data(data.value)) else None;
      case DateTag =>
        var seconds := ParseDate(body);
        ParsedDateFits(body);
        leaf := if seconds.Ok? then Some(Date(seconds.value)) else None;
      case _ => leaf := None;
    }

    method ParseNext() returns (value: Result<Plist>)
      requires Valid()
      modifies this
      ensures Valid()
      ensures var d := ParseValue(old(Rest()), reals);
              if d.Failed? then value == Err(Protocol) else value == Ok(d.value) && Rest() == d.rest
      decreases |text| - position, 0
    {
      hide ParseLeaf, ParseContainer, TagAt, Name, SkipSpace;
      SkipSpaces();
      var tag := NextTag();
      if tag.None? {
        return Err(Protocol);
      }
      ghost var t := Rest();
      position := position + |Start(tag.value)|;
      assert Rest() == t[|Start(tag.value)|..];
      if tag.value == ArrayTag || tag.value == DictTag {
        value := ParseInside(tag.value);
      } else {
        value := ParseElement(tag.value);
      }
    }

    method ParseInside(tag: Tag) returns (value: Result<Plist>)
      requires Valid()
      modifies this
      ensures Valid()
      ensures var d := ParseContainer(tag, old(Rest()), reals);
              if d.Failed? then value == Err(Protocol) else value == Ok(d.value) && Rest() == d.rest
      decreases |text| - position, 2
    {
      hide Consume, ParseItems, ParseEntries;
      var inside := Accept([GREATER]);
      if !inside {
        return Err(Protocol);
      }
      if tag == ArrayTag {
        var items := ParseArray();
        return if items.Ok? then Ok(Array(items.value)) else Err(Protocol);
      } else {
        var entries := ParseDictionary();
        return if entries.Ok? then Ok(Dictionary(entries.value)) else Err(Protocol);
      }
    }

    method ParseArray() returns (items: Result<seq<Plist>>)
      requires Valid()
      modifies this
      ensures Valid()
      ensures var d := ParseItems(old(Rest()), reals);
              if d.Failed? then items == Err(Protocol) else items == Ok(d.value) && Rest() == d.rest
      decreases |text| - position, 1
    {
      hide Consume, ParseItems, ParseValue, Name;
      var done: seq<Plist> := [];
      ghost var whole := ParseItems(Rest(), reals);
      PrependNothing(whole);
      while true
        invariant Valid() && old(position) <= position && whole == Prepend(done, ParseItems(Rest(), reals))
        decreases |text| - position
      {
        ghost var s := Rest();
        ItemsStep(s, reals);
        var end := Accept(Close(ArrayTag));
        if end {
          assert done + [] == done;
          return Ok(done);
        }
        SkipFirst(s, reals);
        var item := ParseNext();
        if item.Err? {
          return Err(Protocol);
        }
        PrependTwice(done, [item.value], ParseItems(Rest(), reals));
        done := done + [item.value];
      }
    }

    method Key() returns (key: Result<Bytes>)
      requires Valid()
      modifies this
      ensures Valid()
      ensures var d := ParseKey(old(Rest()));
              if d.Failed? then key == Err(Protocol) else key == Ok(d.value) && Rest() == d.rest
    {
      hide Consume, ReadBody, Unescape, Name;
      var start := Accept(Start(KeyTag));
      if !start {
        return Err(Protocol);
      }
      var body := Body(KeyTag);
      if body.Err? {
        return Err(Protocol);
      }
      var unescaped := XmlUnescape(body.value);
      key := Ok(unescaped);
    }

    method ParseDictionary() returns (entries: Result<seq<Entry<Plist>>>)
      requires Valid()
      modifies this
      ensures Valid()
      ensures var d := ParseEntries(old(Rest()), [], reals);
              if d.Failed? then entries == Err(Protocol) else entries == Ok(d.value) && Rest() == d.rest
      decreases |text| - position, 1
    {
      hide Consume, ParseEntries, ParseValue, ParseKey, Emplace, Name;
      var done: seq<Entry<Plist>> := [];
      ghost var whole := ParseEntries(Rest(), [], reals);
      while true
        invariant Valid() && old(position) <= position && whole == ParseEntries(Rest(), done, reals)
        decreases |text| - position
      {
        ghost var s := Rest();
        EntriesStep(s, done, reals);
        var end := Accept(Close(DictTag));
        if end {
          return Ok(done);
        }
        SkipFirstKey(s);
        var key := Key();
        if key.Err? {
          return Err(Protocol);
        }
        var item := ParseNext();
        if item.Err? {
          return Err(Protocol);
        }
        done := Emplace(done, key.value, item.value);
      }
    }

    method SkipPrologs()
      requires Valid()
      modifies this
      ensures Valid() && Rest() == SkipProlog(old(Rest()))
    {
      hide SkipProlog, SkipTo, SkipSpace, Search;
      while true
        invariant Valid() && SkipProlog(Rest()) == SkipProlog(old(Rest()))
        decreases |text| - position
      {
        PrologStep(Rest());
        ghost var before := Rest();
        SkipSpaces();
        ghost var t := Rest();
        var instruction := StartsWith([LESS, 0x3f]);
        var comment := StartsWith([LESS, 0x21, 0x2d, 0x2d]);
        var declaration := StartsWith([LESS, 0x21]);
        if !instruction && comment {
          var end := Locate([0x2d, 0x2d, GREATER]);
          position := if end.None? then |text| else position + end.value + 3;
          assert end.Some? ==> Rest() == t[end.value + 3..];
        } else if instruction || declaration {
          Advance(GREATER);
        } else {
          return;
        }
      }
    }
  }

  method ParseXml(text: Bytes, reals: Reals) returns (value: Result<Plist>)
    ensures value == ParseDocument(text, reals)
  {
    hide SkipProlog, Consume, SkipTo, ParseValue, Ascii;
    var parser := new XmlParser(text, reals);
    parser.SkipPrologs();
    var root := parser.Accept(Ascii("<plist"));
    if !root {
      return Err(Protocol);
    }
    parser.Advance(GREATER);
    value := parser.ParseNext();
  }

  /** What is tried at a position for one element. */
  function Token(tag: Tag): Bytes {
    if tag in {TrueTag, FalseTag, NullTag} then Open(tag) else Start(tag)
  }

  lemma FirstTag(s: Bytes, tags: seq<Tag>, i: nat)
    requires tags == [TrueTag, FalseTag, NullTag, IntegerTag, RealTag, StringTag, DataTag, DateTag, ArrayTag, DictTag]
    requires i < |tags| && Token(tags[i]) <= s && forall j :: 0 <= j < i ==> !(Token(tags[j]) <= s)
    ensures TagAt(s) == Some(tags[i])
  {
    hide Name, Start, Open;
    assert i > 0 ==> !(Token(tags[0]) <= s);
    assert i > 1 ==> !(Token(tags[1]) <= s);
    assert i > 2 ==> !(Token(tags[2]) <= s);
    assert i > 3 ==> !(Token(tags[3]) <= s);
    assert i > 4 ==> !(Token(tags[4]) <= s);
    assert i > 5 ==> !(Token(tags[5]) <= s);
    assert i > 6 ==> !(Token(tags[6]) <= s);
    assert i > 7 ==> !(Token(tags[7]) <= s);
    assert i > 8 ==> !(Token(tags[8]) <= s);
  }

  lemma NoTag(s: Bytes, tags: seq<Tag>)
    requires tags == [TrueTag, FalseTag, NullTag, IntegerTag, RealTag, StringTag, DataTag, DateTag, ArrayTag, DictTag]
    requires forall j :: 0 <= j < |tags| ==> !(Token(tags[j]) <= s)
    ensures TagAt(s) == None
  {
    hide Name, Start, Open;
    assert !(Token(tags[0]) <= s) && !(Token(tags[1]) <= s) && !(Token(tags[2]) <= s) && !(Token(tags[3]) <= s);
    assert !(Token(tags[4]) <= s) && !(Token(tags[5]) <= s) && !(Token(tags[6]) <= s) && !(Token(tags[7]) <= s);
    assert !(Token(tags[8]) <= s) && !(Token(tags[9]) <= s);
  }

  method RemoveSpace(body: Bytes) returns (compact: Bytes)
    ensures compact == Compact(body)
  {
    compact := [];
    assert body[0..] == body;
    for i := 0 to |body|
      invariant compact + Compact(body[i..]) == Compact(body)
    {
      assert body[i..][1..] == body[i + 1..];
      if !IsSpace(body[i]) {
        compact := compact + [body[i]];
      }
    }
  }

  /** A position found `n` bytes further on. */
  function Moved(at: Option<nat>, n: nat): Option<nat> {
    if at.None? then None else Some(at.value + n)
  }

  lemma SearchStep(s: Bytes, token: Bytes)
    ensures Search(s, token) ==
            if token <= s then Some(0) else if s == [] then None else Moved(Search(s[1..], token), 1)
  {
  }

  /** Skipping white space twice is skipping it once. */
  lemma SkipAgain(s: Bytes, token: Bytes)
    ensures Consume(SkipSpace(s), token) == Consume(s, token)
  {
    hide SkipSpace;
    assert SkipSpace(SkipSpace(s)) == SkipSpace(s);
  }

  lemma SkipFirst(s: Bytes, reals: Reals)
    ensures ParseValue(SkipSpace(s), reals) == ParseValue(s, reals)
  {
    hide SkipSpace, TagAt, ParseContainer, ParseLeaf;
    assert SkipSpace(SkipSpace(s)) == SkipSpace(s);
  }

  lemma SkipFirstKey(s: Bytes)
    ensures ParseKey(SkipSpace(s)) == ParseKey(s)
  {
    hide SkipSpace, Consume, ReadBody, Unescape;
    SkipAgain(s, Start(KeyTag));
  }

  ghost function Prepend(done: seq<Plist>, rest: Parse<seq<Plist>>): Parse<seq<Plist>> {
    if rest.Failed? then Failed else Parsed(done + rest.value, rest.rest)
  }

  lemma PrependNothing(rest: Parse<seq<Plist>>)
    ensures Prepend([], rest) == rest
  {
    assert rest.Parsed? ==> [] + rest.value == rest.value;
  }

  lemma PrependTwice(a: seq<Plist>, b: seq<Plist>, rest: Parse<seq<Plist>>)
    ensures Prepend(a, Prepend(b, rest)) == Prepend(a + b, rest)
  {
    assert rest.Parsed? ==> a + (b + rest.value) == a + b + rest.value;
  }

  lemma ItemsStep(s: Bytes, reals: Reals)
    ensures ParseItems(s, reals) ==
            var end := Consume(s, Close(ArrayTag));
            if end.Some? then Parsed([], end.value)
            else
              var first := ParseValue(s, reals);
              if first.Failed? then Failed else Prepend([first.value], ParseItems(first.rest, reals))
  {
    hide Consume, ParseValue, Name;
  }
}
