/** The XML form of a plist: how a tree is printed and how text is parsed. */
module XmlFormat {
  import opened Words
  import opened Dictionaries
  import opened Plists
  import opened Base64
  import opened PlistDate
  import opened XmlText

  const SLASH: Byte := 0x2f

  datatype Tag =
    | IntegerTag | RealTag | StringTag | DataTag | DateTag | ArrayTag | DictTag | KeyTag
    | TrueTag | FalseTag | NullTag

  /** The name of an element; the empty elements carry their slash. */
  function Name(tag: Tag): Bytes {
    match tag
    case IntegerTag => [0x69, 0x6e, 0x74, 0x65, 0x67, 0x65, 0x72]
    case RealTag => [0x72, 0x65, 0x61, 0x6c]
    case StringTag => [0x73, 0x74, 0x72, 0x69, 0x6e, 0x67]
    case DataTag => [0x64, 0x61, 0x74, 0x61]
    case DateTag => [0x64, 0x61, 0x74, 0x65]
    case ArrayTag => [0x61, 0x72, 0x72, 0x61, 0x79]
    case DictTag => [0x64, 0x69, 0x63, 0x74]
    case KeyTag => [0x6b, 0x65, 0x79]
    case TrueTag => [0x74, 0x72, 0x75, 0x65, SLASH]
    case FalseTag => [0x66, 0x61, 0x6c, 0x73, 0x65, SLASH]
    case NullTag => [0x6e, 0x75, 0x6c, 0x6c, SLASH]
  }

  function Start(tag: Tag): Bytes {
    [LESS] + Name(tag)
  }

  function Open(tag: Tag): Bytes {
    [LESS] + Name(tag) + [GREATER]
  }

  function Close(tag: Tag): Bytes {
    [LESS, SLASH] + Name(tag) + [GREATER]
  }

  /**
   How a real is printed and read: `%.17g` and `strtod` are not modelled, so everything
   proved holds whatever these functions are.
   */
  datatype Reals = Reals(show: Word64 -> Bytes, scan: Bytes -> Word64)

  // ---------------------------------------------------------------------------
  // Printing
  // ---------------------------------------------------------------------------

  predicate HasBody(tag: Tag) {
    tag in {IntegerTag, RealTag, StringTag, DataTag, DateTag}
  }

  /** The element of a value that is not a container. */
  function LeafTag(v: Plist): Tag
    requires !v.Container()
  {
    match v
    case Null => NullTag
    case Boolean(flag) => if flag then TrueTag else FalseTag
    case Integer(_) => IntegerTag
    case Real(_) => RealTag
    case String(_) => StringTag
    case Data(_) => DataTag
    case Date(_) => DateTag
    case Uid(_) => IntegerTag
  }

  function LeafText(v: Plist, reals: Reals): Bytes
    requires !v.Container()
  {
    match v
    case Integer(n) => IntegerText(n)
    case Real(bits) => reals.show(bits)
    case String(text) => Escape(text)
    case Data(data) => Encode(data)
    case Date(seconds) => FormatDate(seconds)
    case Uid(index) => IntegerText(index)
    case _ => []
  }

  function Wrapped(tag: Tag, body: Bytes): Bytes {
    Open(tag) + body + Close(tag)
  }

  function Xml(v: Plist, reals: Reals): Bytes
    decreases v, 1
  {
    match v
    case Array(items) => Open(ArrayTag) + ItemsXml(items, 0, reals) + Close(ArrayTag)
    case Dictionary(entries) => Open(DictTag) + EntriesXml(entries, 0, reals) + Close(DictTag)
    case _ => if HasBody(LeafTag(v)) then Wrapped(LeafTag(v), LeafText(v, reals)) else Open(LeafTag(v))
  }

  function ItemsXml(items: seq<Plist>, index: nat, reals: Reals): Bytes
    requires index <= |items|
    decreases items, |items| - index
  {
    if index == |items| then [] else Xml(items[index], reals) + ItemsXml(items, index + 1, reals)
  }

  function EntryXml(entry: Entry<Plist>, reals: Reals): Bytes
    decreases entry, 0
  {
    Wrapped(KeyTag, Escape(entry.key)) + Xml(entry.value, reals)
  }

  function EntriesXml(entries: seq<Entry<Plist>>, index: nat, reals: Reals): Bytes
    requires index <= |entries|
    decreases entries, |entries| - index
  {
    if index == |entries| then [] else EntryXml(entries[index], reals) + EntriesXml(entries, index + 1, reals)
  }

  // ---------------------------------------------------------------------------
  // Parsing
  // ---------------------------------------------------------------------------

  /** A value and the text after it. */
  datatype Parse<+T> = Failed | Parsed(value: T, rest: Bytes)

  /** What follows `token`, after white space. */
  function Consume(s: Bytes, token: Bytes): (r: Option<Bytes>)
    ensures r.Some? ==> |r.value| + |token| <= |s|
  {
    var t := SkipSpace(s);
    if token <= t then Some(t[|token|..]) else None
  }

  /** The body of an element whose name was consumed: self-closed, or up to its close tag. */
  function ReadBody(s: Bytes, tag: Tag): (r: Parse<Bytes>)
    ensures r.Parsed? ==> |r.rest| < |s|
  {
    var closed := Consume(s, [SLASH, GREATER]);
    if closed.Some? then Parsed([], closed.value)
    else
      var body := Consume(s, [GREATER]);
      if body.None? then Failed
      else
        var end := Search(body.value, Close(tag));
        if end.None? then Failed
        else Parsed(body.value[..end.value], body.value[end.value + |Close(tag)|..])
  }

  /** The element that `s` starts with, tried in the parser's order. */
  function TagAt(s: Bytes): (r: Option<Tag>)
    ensures r.Some? ==> Start(r.value) <= s
  {
    if Open(TrueTag) <= s then Some(TrueTag)
    else if Open(FalseTag) <= s then Some(FalseTag)
    else if Open(NullTag) <= s then Some(NullTag)
    else if Start(IntegerTag) <= s then Some(IntegerTag)
    else if Start(RealTag) <= s then Some(RealTag)
    else if Start(StringTag) <= s then Some(StringTag)
    else if Start(DataTag) <= s then Some(DataTag)
    else if Start(DateTag) <= s then Some(DateTag)
    else if Start(ArrayTag) <= s then Some(ArrayTag)
    else if Start(DictTag) <= s then Some(DictTag)
    else None
  }

  /** The value of an element's body. */
  function LeafOf(tag: Tag, body: Bytes, reals: Reals): Option<Plist> {
    match tag
    case IntegerTag => Some(Integer(ReadInteger(body)))
    case RealTag => Some(Real(reals.scan(body)))
    case StringTag => Some(String(Unescape(body)))
    case DataTag =>
      var data := Decoded(Compact(body));
      if data.Ok? then Some(Data(data.value)) else None
    case DateTag =>
      var seconds := ParsedDate(body);
      ParsedDateFits(body);
      if seconds.Ok? then Some(Date(seconds.value)) else None
    case _ => None
  }

  /** An element that is not a container, after its start. */
  function ParseLeaf(s: Bytes, tag: Tag, reals: Reals): (r: Parse<Plist>)
    ensures r.Parsed? ==> |r.rest| < |s|
  {
    if tag in {TrueTag, FalseTag, NullTag} then
      if s == [] then Failed else Parsed(if tag == NullTag then Null else Boolean(tag == TrueTag), s[1..])
    else
      var body := ReadBody(s, tag);
      if body.Failed? then Failed
      else
        var leaf := LeafOf(tag, body.value, reals);
        if leaf.None? then Failed else Parsed(leaf.value, body.rest)
  }

  function ParseValue(s: Bytes, reals: Reals): (r: Parse<Plist>)
    ensures r.Parsed? ==> |r.rest| < |s|
    decreases |s|, 0
  {
    var t := SkipSpace(s);
    var tag := TagAt(t);
    if tag.None? then Failed
    else
      var body := t[|Start(tag.value)|..];
      if tag.value == ArrayTag || tag.value == DictTag then ParseContainer(tag.value, body, reals)
      else ParseLeaf(body, tag.value, reals)
  }

  /** A container after its start; a self-closed one is refused. */
  function ParseContainer(tag: Tag, s: Bytes, reals: Reals): (r: Parse<Plist>)
    ensures r.Parsed? ==> |r.rest| <= |s|
    decreases |s|, 2
  {
    var inside := Consume(s, [GREATER]);
    if inside.None? then Failed
    else if tag == ArrayTag then
      var items := ParseItems(inside.value, reals);
      if items.Failed? then Failed else Parsed(Array(items.value), items.rest)
    else
      var entries := ParseEntries(inside.value, [], reals);
      if entries.Failed? then Failed else Parsed(Dictionary(entries.value), entries.rest)
  }

  function ParseItems(s: Bytes, reals: Reals): (r: Parse<seq<Plist>>)
    ensures r.Parsed? ==> |r.rest| <= |s|
    decreases |s|, 1
  {
    var end := Consume(s, Close(ArrayTag));
    if end.Some? then Parsed([], end.value)
    else
      var first := ParseValue(s, reals);
      if first.Failed? then Failed
      else
        var more := ParseItems(first.rest, reals);
        if more.Failed? then Failed else Parsed([first.value] + more.value, more.rest)
  }

  /** The key element of an entry. */
  function ParseKey(s: Bytes): (r: Parse<Bytes>)
    ensures r.Parsed? ==> |r.rest| < |s|
  {
    var start := Consume(s, Start(KeyTag));
    if start.None? then Failed
    else
      var body := ReadBody(start.value, KeyTag);
      if body.Failed? then Failed else Parsed(Unescape(body.value), body.rest)
  }

  function ParseEntries(s: Bytes, entries: seq<Entry<Plist>>, reals: Reals): (r: Parse<seq<Entry<Plist>>>)
    ensures r.Parsed? ==> |r.rest| <= |s|
    decreases |s|, 1
  {
    var end := Consume(s, Close(DictTag));
    if end.Some? then Parsed(entries, end.value)
    else
      var key := ParseKey(s);
      if key.Failed? then Failed
      else
        var item := ParseValue(key.rest, reals);
        if item.Failed? then Failed
        else ParseEntries(item.rest, Emplace(entries, key.value, item.value), reals)
  }

  lemma EntriesStep(s: Bytes, done: seq<Entry<Plist>>, reals: Reals)
    ensures ParseEntries(s, done, reals) ==
            var end := Consume(s, Close(DictTag));
            if end.Some? then Parsed(done, end.value)
            else
              var key := ParseKey(s);
              if key.Failed? then Failed
              else
                var item := ParseValue(key.rest, reals);
                if item.Failed? then Failed
                else ParseEntries(item.rest, Emplace(done, key.value, item.value), reals)
  {
    hide Consume, ParseKey, ParseValue, Emplace, Name;
  }

  // ---------------------------------------------------------------------------
  // The document
  // ---------------------------------------------------------------------------

  /** The first line, up to its `>`. */
  function Declaration(): Bytes {
    Ascii("<?xml version=\"1.0\"") + Ascii(" encoding=\"UTF-8\"?")
  }

  /** The second line, up to its `>`. */
  function Doctype(): Bytes {
    Ascii("<!DOCTYPE plist PUBLIC") + Ascii(" \"-//Apple//DTD PLIST") + Ascii(" 1.0//EN\" \"http://www.") +
    Ascii("apple.com/DTDs/") + Ascii("PropertyList-1.0.dtd\"")
  }

  /** The start of the root element, up to its `>`. */
  function Root(): Bytes {
    Ascii("<plist") + Ascii(" version=\"1.0\"")
  }

  const NEW_LINE: Byte := 0x0a

  /** What follows the next `c`, or nothing. */
  function SkipTo(s: Bytes, c: Byte): (r: Bytes)
    ensures |r| <= |s| && (s != [] ==> |r| < |s|)
  {
    if s == [] then [] else if s[0] == c then s[1..] else SkipTo(s[1..], c)
  }

  function SkipComment(s: Bytes): (r: Bytes)
    requires s != []
    ensures |r| < |s|
  {
    var end := Search(s, [0x2d, 0x2d, GREATER]);
    if end.None? then [] else s[end.value + 3..]
  }

  function SkipProlog(s: Bytes): (r: Bytes)
    ensures |r| <= |s|
    decreases |s|
  {
    var t := SkipSpace(s);
    if [LESS, 0x3f] <= t then SkipProlog(SkipTo(t, GREATER))
    else if [LESS, 0x21, 0x2d, 0x2d] <= t then SkipProlog(SkipComment(t))
    else if [LESS, 0x21] <= t then SkipProlog(SkipTo(t, GREATER))
    else t
  }

  lemma PrologStep(s: Bytes)
    ensures var t := SkipSpace(s);
            SkipProlog(s) ==
            if [LESS, 0x3f] <= t then SkipProlog(SkipTo(t, GREATER))
            else if [LESS, 0x21, 0x2d, 0x2d] <= t then SkipProlog(SkipComment(t))
            else if [LESS, 0x21] <= t then SkipProlog(SkipTo(t, GREATER))
            else t
  {
    hide SkipTo, SkipSpace, SkipComment;
  }

  function Document(v: Plist, reals: Reals): Bytes {
    Declaration() + ([GREATER] + ([NEW_LINE] + (Doctype() + ([GREATER] + ([NEW_LINE] + (Root() + ([GREATER] +
      (Xml(v, reals) + (Ascii("</plist>") + [NEW_LINE])))))))))
  }

  function ParseDocument(s: Bytes, reals: Reals): Result<Plist> {
    var start := Consume(SkipProlog(s), Ascii("<plist"));
    if start.None? then Err(Protocol)
    else
      var value := ParseValue(SkipTo(start.value, GREATER), reals);
      if value.Failed? then Err(Protocol) else Ok(value.value)
  }
}
