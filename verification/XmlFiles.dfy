/** Whole XML plist files: which are accepted, what they mean, and which one is printed. */
module XmlFiles {
  import opened Words
  import opened Dictionaries
  import opened Plists
  import opened Base64
  import opened Base64Exactly
  import opened PlistDate
  import opened XmlText
  import opened XmlFormat
  import opened XmlPlist
  import opened XmlRoundTrip
  import opened XmlDocument
  import opened XmlGrammar
  import opened XmlExactly

  // ---------------------------------------------------------------------------
  // The prolog
  // ---------------------------------------------------------------------------

  /** What the prolog loop sees after white space. */
  lemma Skips(before: Bytes, t: Bytes)
    requires Blanks(before) && NoBlank(t)
    ensures SkipProlog(before + t) ==
            if [0x3c, 0x3f] <= t then SkipProlog(SkipTo(t, 0x3e))
            else if [0x3c, 0x21, 0x2d, 0x2d] <= t then SkipProlog(SkipComment(t))
            else if [0x3c, 0x21] <= t then SkipProlog(SkipTo(t, 0x3e))
            else t
  {
    hide SkipProlog, SkipTo, SkipSpace, SkipComment, Blanks;
    PrologStep(before + t);
    SkipsBlanks(before, t);
  }

  lemma MiscReads(m: Misc, rest: Bytes)
    requires GoodMisc(m)
    ensures SkipProlog(PrintMisc(m) + rest) == SkipProlog(rest)
  {
    hide SkipProlog, SkipTo, SkipComment, Blanks, StandsAt;
    match m
    case Instruction(before, text) =>
      MarkedReads(before, [0x3c, 0x3f], text, rest);
    case Comment(before, whole) =>
      assert PrintMisc(m) + rest == before + (whole + rest);
      assert whole[0] == whole[..4][0] && whole[1] == whole[..4][1];
      assert (whole + rest)[..4] == whole[..4];
      Skips(before, whole + rest);
      CommentReads(whole, rest);
    case Declared(before, text) =>
      MarkedReads(before, [0x3c, 0x21], text, rest);
  }

  lemma MarkedReads(before: Bytes, mark: Bytes, text: Bytes, rest: Bytes)
    requires Blanks(before) && NoEnd(text) && mark in {[0x3c, 0x3f], [0x3c, 0x21]}
    requires mark == [0x3c, 0x21] && |text| >= 2 ==> text[..2] != [0x2d, 0x2d]
    ensures SkipProlog(before + (mark + (text + [0x3e])) + rest) == SkipProlog(rest)
  {
    hide SkipProlog, SkipTo, SkipComment, Blanks;
    var t := mark + (text + ([0x3e] + rest));
    assert before + (mark + (text + [0x3e])) + rest == before + t;
    if mark == [0x3c, 0x21] {
      NotAComment(text, rest);
    }
    Skips(before, t);
    assert t == (mark + text) + ([0x3e] + rest);
    SkipToBack(mark + text, rest);
  }

  lemma NotAComment(text: Bytes, rest: Bytes)
    requires |text| >= 2 ==> text[..2] != [0x2d, 0x2d]
    ensures !([0x3c, 0x21, 0x2d, 0x2d] <= [0x3c, 0x21] + (text + ([0x3e] + rest)))
  {
    var t := [0x3c, 0x21] + (text + ([0x3e] + rest));
    if |text| >= 2 {
      assert t[2] == text[0] && t[3] == text[1];
      assert text[..2] == [text[0], text[1]];
    } else {
      assert t[2 + |text|] == 0x3e;
    }
  }

  lemma CommentReads(whole: Bytes, rest: Bytes)
    requires |whole| >= 5 && StandsAt(whole, [0x2d, 0x2d, 0x3e], |whole| - 3)
    requires forall i: nat :: i < |whole| - 3 ==> !StandsAt(whole, [0x2d, 0x2d, 0x3e], i)
    ensures SkipComment(whole + rest) == rest
  {
    hide Search;
    var end: Bytes := [0x2d, 0x2d, 0x3e];
    var s := whole + rest;
    forall i: nat | i <= |whole| - 3
      ensures StandsAt(s, end, i) <==> StandsAt(whole, end, i)
    {
      assert s[i..i + 3] == whole[i..i + 3];
    }
    hide StandsAt;
    SearchIs(s, end, |whole| - 3);
  }

  lemma {:induction false} PrologReads(prolog: seq<Misc>, rest: Bytes)
    requires GoodProlog(prolog)
    ensures SkipProlog(PrintProlog(prolog) + rest) == SkipProlog(rest)
  {
    hide SkipProlog, PrintMisc, GoodMisc;
    if prolog == [] {
      assert PrintProlog(prolog) + rest == rest;
    } else {
      var more := PrintProlog(prolog[1..]) + rest;
      assert PrintProlog(prolog) + rest == PrintMisc(prolog[0]) + more;
      MiscReads(prolog[0], more);
      PrologReads(prolog[1..], rest);
    }
  }

  lemma {:induction false} SkipToForth(s: Bytes, c: Byte) returns (text: Bytes)
    requires SkipTo(s, c) != []
    ensures c !in text && s == text + ([c] + SkipTo(s, c))
  {
    if s[0] == c {
      text := [];
    } else {
      var more := SkipToForth(s[1..], c);
      text := [s[0]] + more;
    }
  }

  lemma NothingIsSkipped()
    ensures SkipProlog([]) == []
  {
  }

  lemma MarkedForth(t: Bytes, mark: Bytes) returns (text: Bytes)
    requires |mark| == 2 && mark <= t && mark[1] != 0x3e && mark[0] == 0x3c && SkipTo(t, 0x3e) != []
    ensures NoEnd(text) && t == mark + (text + [0x3e]) + SkipTo(t, 0x3e)
  {
    hide SkipTo;
    var whole := SkipToForth(t, 0x3e);
    assert t[|whole|] == 0x3e && t[0] == mark[0] && t[1] == mark[1];
    text := whole[2..];
    assert whole[..2] == t[..2] == mark;
    assert whole == mark + text;
  }

  lemma CommentForth(t: Bytes) returns (whole: Bytes)
    requires [0x3c, 0x21, 0x2d, 0x2d] <= t && SkipComment(t) != []
    ensures GoodMisc(Comment([], whole)) && t == whole + SkipComment(t)
  {
    hide Search;
    var end: Bytes := [0x2d, 0x2d, 0x3e];
    var k := Search(t, end).value;
    whole := t[..k + 3];
    SearchIs(t, end, k);
    StandsLater(t, k);
    forall i: nat | i <= k
      ensures StandsAt(whole, end, i) <==> StandsAt(t, end, i)
    {
      assert t[i..i + 3] == whole[i..i + 3];
    }
    assert whole[..4] == t[..4];
  }

  lemma StandsLater(t: Bytes, k: nat)
    requires [0x3c, 0x21, 0x2d, 0x2d] <= t && StandsAt(t, [0x2d, 0x2d, 0x3e], k)
    ensures k >= 2
  {
    assert t[k..k + 3][0] == t[k] && t[0] == 0x3c && t[1] == 0x21;
  }

  lemma Marks(t: Bytes)
    ensures [0x3c, 0x3f] <= t ==> !([0x3c, 0x21] <= t)
    ensures [0x3c, 0x21, 0x2d, 0x2d] <= t ==> [0x3c, 0x21] <= t
  {
    if [0x3c, 0x3f] <= t {
      assert t[1] == 0x3f;
    }
    if [0x3c, 0x21, 0x2d, 0x2d] <= t {
      assert t[..4][..2] == t[..2];
    }
  }

  lemma {:induction false} PrologForth(s: Bytes) returns (prolog: seq<Misc>, before: Bytes)
    requires SkipProlog(s) != []
    ensures GoodProlog(prolog) && Blanks(before) && NoBlank(SkipProlog(s))
    ensures s == PrintProlog(prolog) + (before + SkipProlog(s))
    decreases |s|
  {
    hide SkipProlog, SkipTo, SkipComment, SkipSpace, Blanks, GoodMisc;
    NothingIsSkipped();
    var blanks := BlanksForth(s);
    var t := SkipSpace(s);
    Skips(blanks, t);
    Marks(t);
    if [0x3c, 0x3f] <= t || [0x3c, 0x21] <= t {
      var m := MiscForth(blanks, t);
      var rest := if [0x3c, 0x21, 0x2d, 0x2d] <= t then SkipComment(t) else SkipTo(t, 0x3e);
      var more;
      more, before := PrologForth(rest);
      prolog := [m] + more;
      assert prolog[1..] == more;
      assert s == PrintMisc(m) + rest;
      InOrder(PrintMisc(m), PrintProlog(more), before + SkipProlog(s));
    } else {
      prolog, before := [], blanks;
      assert [] + (before + t) == before + t;
    }
  }

  lemma MiscForth(before: Bytes, t: Bytes) returns (m: Misc)
    requires Blanks(before) && ([0x3c, 0x3f] <= t || [0x3c, 0x21] <= t)
    requires (if [0x3c, 0x21, 0x2d, 0x2d] <= t then SkipComment(t) else SkipTo(t, 0x3e)) != []
    ensures GoodMisc(m)
    ensures before + t == PrintMisc(m) + if [0x3c, 0x21, 0x2d, 0x2d] <= t then SkipComment(t) else SkipTo(t, 0x3e)
  {
    hide SkipTo, SkipComment, Blanks, StandsAt;
    if [0x3c, 0x21, 0x2d, 0x2d] <= t {
      var whole := CommentForth(t);
      m := Comment(before, whole);
      InOrder(before, whole, SkipComment(t));
    } else if [0x3c, 0x3f] <= t {
      var text := MarkedForth(t, [0x3c, 0x3f]);
      m := Instruction(before, text);
      InOrder(before, [0x3c, 0x3f] + (text + [0x3e]), SkipTo(t, 0x3e));
    } else {
      var text := MarkedForth(t, [0x3c, 0x21]);
      m := Declared(before, text);
      InOrder(before, [0x3c, 0x21] + (text + [0x3e]), SkipTo(t, 0x3e));
      CommentMark(t, text);
    }
  }

  lemma CommentMark(t: Bytes, text: Bytes)
    requires [0x3c, 0x21] + text <= t && !([0x3c, 0x21, 0x2d, 0x2d] <= t)
    ensures |text| >= 2 ==> text[..2] != [0x2d, 0x2d]
  {
    if |text| >= 2 {
      var u: Bytes := [0x3c, 0x21] + text;
      assert t[2] == u[2] == text[0] && t[3] == u[3] == text[1];
      assert text[..2] == [text[0], text[1]];
    }
  }

  // ---------------------------------------------------------------------------
  // Files
  // ---------------------------------------------------------------------------

  lemma RootStart()
    ensures Ascii("<plist") == [0x3c, 0x70, 0x6c, 0x69, 0x73, 0x74]
  {
  }

  lemma FileReads(f: File, reals: Reals)
    requires GoodFile(f, reals)
    ensures ParseDocument(PrintFile(f), reals) == Ok(Meaning(f.value, reals))
  {
    hide SkipProlog, SkipTo, SkipComment, Blanks, GoodProlog, PrintProlog, Print, Meaning, Good, ParseValue, Ascii,
         Consume;
    RootStart();
    var inside := Print(f.value) + f.after;
    var root: Bytes := [0x3c, 0x70, 0x6c, 0x69, 0x73, 0x74];
    var t := root + (f.attributes + ([0x3e] + inside));
    assert PrintFile(f) == PrintProlog(f.prolog) + (f.before + t);
    PrologReads(f.prolog, f.before + t);
    assert t[0] == 0x3c && t[1] == 0x70;
    Skips(f.before, t);
    NoBlanks();
    Consumes([], root, f.attributes + ([0x3e] + inside));
    assert [] + t == t;
    SkipToBack(f.attributes, inside);
    LaidReads(f.value, f.after, reals);
  }

  lemma FileForth(s: Bytes, reals: Reals) returns (f: File)
    requires ParseDocument(s, reals).Ok?
    ensures GoodFile(f, reals) && PrintFile(f) == s && ParseDocument(s, reals) == Ok(Meaning(f.value, reals))
  {
    hide SkipProlog, SkipTo, SkipComment, Blanks, GoodProlog, PrintProlog, Print, Meaning, Good, ParseValue, Ascii,
         Consume;
    RootStart();
    var root: Bytes := [0x3c, 0x70, 0x6c, 0x69, 0x73, 0x74];
    NothingToConsume();
    NothingToParse(reals);
    var prolog, before := PrologForth(s);
    var t := SkipProlog(s);
    var gap := ConsumeForth(t, root);
    NoGap(gap, t);
    var after := Consume(t, root).value;
    var inside := SkipTo(after, 0x3e);
    var attributes := SkipToForth(after, 0x3e);
    var l := LaidForth(inside, reals);
    f := File(prolog, before, attributes, l, ParseValue(inside, reals).rest);
    assert t == root + after;
  }

  lemma NoBlanks()
    ensures Blanks([])
  {
  }

  lemma NothingToConsume()
    ensures Consume([], Ascii("<plist")) == None
  {
  }

  lemma NothingToParse(reals: Reals)
    ensures ParseValue([], reals).Failed?
  {
  }

  lemma NoGap(gap: Bytes, t: Bytes)
    requires Blanks(gap) && NoBlank(t) && gap <= t
    ensures gap == []
  {
  }

  /** The parser accepts the texts of files and nothing else. */
  lemma ParsesExactly(text: Bytes, value: Plist, reals: Reals)
    ensures ParseDocument(text, reals) == Ok(value) <==>
            exists f :: GoodFile(f, reals) && PrintFile(f) == text && Meaning(f.value, reals) == value
  {
    hide ParseDocument, GoodProlog, Good, PrintFile, Meaning;
    forall f | GoodFile(f, reals) && PrintFile(f) == text
      ensures ParseDocument(text, reals) == Ok(Meaning(f.value, reals))
    {
      FileReads(f, reals);
    }
    if ParseDocument(text, reals) == Ok(value) {
      var f := FileForth(text, reals);
    }
  }

  // ---------------------------------------------------------------------------
  // What is printed
  // ---------------------------------------------------------------------------

  /** The layout the printer picks: no white space between elements, and no element closed at once. */
  function Plain(v: Plist, reals: Reals): Form
    decreases v
  {
    match v
    case Null => NullForm
    case Boolean(flag) => if flag then TrueForm else FalseForm
    case Integer(n) => Element(IntegerLeaf, Filled([], IntegerText(n)))
    case Real(bits) => Element(RealLeaf, Filled([], reals.show(bits)))
    case String(text) => Element(StringLeaf, Filled([], Quoted(text)))
    case Data(data) => Element(DataLeaf, Filled([], TextOf(data)))
    case Date(seconds) => Element(DateLeaf, Filled([], FormatDate(seconds)))
    case Array(items) => ArrayForm([], PlainItems(items, reals), [])
    case Dictionary(entries) => DictForm([], PlainMembers(entries, reals), [])
    case Uid(index) => Element(IntegerLeaf, Filled([], IntegerText(index)))
  }

  function PlainItems(items: seq<Plist>, reals: Reals): seq<Laid>
    decreases items
  {
    if items == [] then [] else [Laid([], Plain(items[0], reals))] + PlainItems(items[1..], reals)
  }

  function PlainMembers(entries: seq<Entry<Plist>>, reals: Reals): seq<Member>
    decreases entries
  {
    if entries == [] then []
    else [Member([], Filled([], Quoted(entries[0].key)), Laid([], Plain(entries[0].value, reals)))] +
         PlainMembers(entries[1..], reals)
  }

  lemma ElementIs(leaf: Leaf, text: Bytes)
    ensures Wrapped(TagOf(leaf), text) == PrintForm(Element(leaf, Filled([], text)))
  {
    hide Name, Word, EndTag;
    Names(leaf);
  }

  lemma LeafIsPrinted(v: Plist, reals: Reals)
    requires !v.Container()
    ensures Xml(v, reals) == PrintForm(Plain(v, reals))
  {
    hide Wrapped, IntegerText, Escape, Quoted, Encode, TextOf, FormatDate;
    match v
    case Integer(n) => ElementIs(IntegerLeaf, IntegerText(n));
    case Real(bits) => ElementIs(RealLeaf, reals.show(bits));
    case String(text) =>
      QuotedIs(text);
      ElementIs(StringLeaf, Quoted(text));
    case Data(data) =>
      EncodingIs(data);
      ElementIs(DataLeaf, TextOf(data));
    case Date(seconds) => ElementIs(DateLeaf, FormatDate(seconds));
    case Uid(index) => ElementIs(IntegerLeaf, IntegerText(index));
    case _ =>
  }

  /** Every tree is printed as its plain layout. */
  lemma {:induction false} XmlIs(v: Plist, reals: Reals)
    ensures Xml(v, reals) == PrintForm(Plain(v, reals))
    decreases v, 1
  {
    hide ItemsXml, EntriesXml, PlainItems, PlainMembers, PrintItems, PrintMembers, Name, Quoted, TextOf;
    match v
    case Array(items) =>
      ContainerNames();
      ItemsArePrinted(items, 0, reals);
      assert items[0..] == items;
      Enclosed(Start(ArrayTag), ItemsXml(items, 0, reals), Close(ArrayTag));
    case Dictionary(entries) =>
      ContainerNames();
      EntriesArePrinted(entries, 0, reals);
      assert entries[0..] == entries;
      Enclosed(Start(DictTag), EntriesXml(entries, 0, reals), Close(DictTag));
    case _ => LeafIsPrinted(v, reals);
  }

  lemma Enclosed(start: Bytes, inside: Bytes, end: Bytes)
    ensures start + [0x3e] + inside + end == start + ([] + ([0x3e] + (inside + ([] + end))))
  {
  }

  lemma {:induction false} ItemsArePrinted(items: seq<Plist>, index: nat, reals: Reals)
    requires index <= |items|
    ensures ItemsXml(items, index, reals) == PrintItems(PlainItems(items[index..], reals))
    decreases items, |items| - index
  {
    hide Xml, PrintForm, Plain;
    if index < |items| {
      XmlIs(items[index], reals);
      ItemsArePrinted(items, index + 1, reals);
      assert items[index..][1..] == items[index + 1..];
      var all := PlainItems(items[index..], reals);
      assert all[1..] == PlainItems(items[index + 1..], reals);
      assert [] + PrintForm(Plain(items[index], reals)) == PrintForm(Plain(items[index], reals));
    }
  }

  lemma {:induction false} EntriesArePrinted(entries: seq<Entry<Plist>>, index: nat, reals: Reals)
    requires index <= |entries|
    ensures EntriesXml(entries, index, reals) == PrintMembers(PlainMembers(entries[index..], reals))
    decreases entries, |entries| - index
  {
    hide Xml, PrintForm, Plain, Quoted, Escape, Wrapped, PrintKey, EntriesXml, PrintMembers, PlainMembers;
    EntriesXmlFrom(entries, index, reals);
    if index < |entries| {
      var e := entries[index];
      XmlIs(e.value, reals);
      KeyIsPrinted(e.key);
      EntriesArePrinted(entries, index + 1, reals);
      assert entries[index..][1..] == entries[index + 1..];
      MembersStep(entries[index..], reals);
      InOrder(Wrapped(KeyTag, Escape(e.key)), Xml(e.value, reals), EntriesXml(entries, index + 1, reals));
    } else {
      assert entries[index..] == [];
      NoMembers(reals);
    }
  }

  lemma NoMembers(reals: Reals)
    ensures PlainMembers([], reals) == [] && PrintMembers([]) == []
  {
  }

  lemma MembersStep(entries: seq<Entry<Plist>>, reals: Reals)
    requires entries != []
    ensures PrintMembers(PlainMembers(entries, reals)) ==
            PrintKey([], Filled([], Quoted(entries[0].key))) +
            (PrintForm(Plain(entries[0].value, reals)) + PrintMembers(PlainMembers(entries[1..], reals)))
  {
    hide PrintForm, Plain, PrintKey, Quoted;
    var all := PlainMembers(entries, reals);
    assert all[1..] == PlainMembers(entries[1..], reals);
    assert [] + PrintForm(Plain(entries[0].value, reals)) == PrintForm(Plain(entries[0].value, reals));
  }

  lemma KeyIsPrinted(key: Bytes)
    ensures Wrapped(KeyTag, Escape(key)) == PrintKey([], Filled([], Quoted(key)))
  {
    hide Escape, Quoted;
    QuotedIs(key);
  }

  /** The three lines before the value. */
  function Header(): Bytes {
    Ascii("<?xml version=\"1.0\"") + Ascii(" encoding=\"UTF-8\"?") + [0x3e, 0x0a] +
    (Ascii("<!DOCTYPE plist PUBLIC") + Ascii(" \"-//Apple//DTD PLIST") + Ascii(" 1.0//EN\" \"http://www.") +
     Ascii("apple.com/DTDs/") + Ascii("PropertyList-1.0.dtd\"") + [0x3e, 0x0a]) +
    ([0x3c, 0x70, 0x6c, 0x69, 0x73, 0x74] + Ascii(" version=\"1.0\"") + [0x3e])
  }

  /** Every tree's document: the three lines, its plain layout, and `</plist>` and a new line. */
  lemma DocumentIs(v: Plist, reals: Reals)
    ensures Document(v, reals) ==
            Header() + (PrintForm(Plain(v, reals)) + [0x3c, 0x2f, 0x70, 0x6c, 0x69, 0x73, 0x74, 0x3e, 0x0a])
  {
    hide Ascii, Xml, PrintForm, Plain;
    RootStart();
    RootEnd();
    XmlIs(v, reals);
  }

  lemma RootEnd()
    ensures Ascii("</plist>") == [0x3c, 0x2f, 0x70, 0x6c, 0x69, 0x73, 0x74, 0x3e]
  {
  }
}
