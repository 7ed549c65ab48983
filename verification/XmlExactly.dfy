/**
 The parser accepts exactly the texts that the grammar lays out, and reads each as what it
 means; the printer prints one of them.
 */
module XmlExactly {
  import opened Words
  import opened Dictionaries
  import opened Plists
  import opened Base64
  import opened Base64Exactly
  import opened PlistDate
  import opened DateExactly
  import opened XmlText
  import opened XmlFormat
  import opened XmlPlist
  import opened XmlRoundTrip
  import opened XmlGrammar

  // ---------------------------------------------------------------------------
  // Tokens and bodies
  // ---------------------------------------------------------------------------

  predicate NoBlank(s: Bytes) {
    s == [] || s[0] !in {0x20, 0x09, 0x0a, 0x0b, 0x0c, 0x0d}
  }

  lemma Consumes(blanks: Bytes, token: Bytes, rest: Bytes)
    requires Blanks(blanks) && token != [] && NoBlank(token)
    ensures Consume(blanks + (token + rest), token) == Some(rest)
  {
    hide SkipSpace, Blanks;
    SkipsBlanks(blanks, token + rest);
    assert (token + rest)[|token|..] == rest;
  }

  lemma ConsumesNot(blanks: Bytes, s: Bytes, token: Bytes)
    requires Blanks(blanks) && NoBlank(s) && !(token <= s)
    ensures Consume(blanks + s, token) == None
  {
    hide SkipSpace, Blanks;
    SkipsBlanks(blanks, s);
  }

  lemma ConsumeForth(s: Bytes, token: Bytes) returns (blanks: Bytes)
    requires Consume(s, token).Some?
    ensures Blanks(blanks) && s == blanks + (token + Consume(s, token).value)
  {
    hide SkipSpace, Blanks;
    blanks := BlanksForth(s);
    var t := SkipSpace(s);
    assert t == token + t[|token|..];
  }

  /** A search finds the first place and no other. */
  lemma {:induction false} SearchIs(s: Bytes, token: Bytes, k: nat)
    ensures Search(s, token) == Some(k) <==>
              StandsAt(s, token, k) && forall i: nat :: i < k ==> !StandsAt(s, token, i)
    decreases |s|
  {
    HereStands(s, token);
    if !(token <= s) && s != [] {
      forall i: nat | i > 0
        ensures StandsAt(s, token, i) <==> StandsAt(s[1..], token, i - 1)
      {
        LaterStands(s, token, i);
      }
      hide StandsAt;
      if k > 0 {
        SearchIs(s[1..], token, k - 1);
        assert forall i: nat :: i < k - 1 ==> (StandsAt(s[1..], token, i) <==> StandsAt(s, token, i + 1));
      }
    }
  }

  lemma HereStands(s: Bytes, token: Bytes)
    ensures StandsAt(s, token, 0) <==> token <= s
  {
    if token <= s {
      assert s[0..|token|] == token;
    }
  }

  lemma LaterStands(s: Bytes, token: Bytes, i: nat)
    requires s != [] && i > 0
    ensures StandsAt(s, token, i) <==> StandsAt(s[1..], token, i - 1)
  {
    if i + |token| <= |s| {
      assert s[i..i + |token|] == s[1..][i - 1..i - 1 + |token|];
    }
  }

  lemma NeverFound(s: Bytes, token: Bytes)
    ensures Search(s, token).None? <==> !Holds(s, token)
  {
    hide Search, StandsAt;
    if Search(s, token).Some? {
      SearchIs(s, token, Search(s, token).value);
    }
    if Holds(s, token) {
      var i: nat :| StandsAt(s, token, i);
      var k := First(s, token, i);
      SearchIs(s, token, k);
    }
  }

  lemma {:induction false} First(s: Bytes, token: Bytes, i: nat) returns (k: nat)
    requires StandsAt(s, token, i)
    ensures StandsAt(s, token, k) && forall j: nat :: j < k ==> !StandsAt(s, token, j)
    decreases i
  {
    hide StandsAt;
    if exists j: nat :: j < i && StandsAt(s, token, j) {
      var j: nat :| j < i && StandsAt(s, token, j);
      k := First(s, token, j);
    } else {
      k := i;
    }
  }

  /** An end tag that a text does not hold is first found after it. */
  lemma EndIsFound(text: Bytes, name: Bytes, rest: Bytes)
    requires !Holds(text, EndTag(name)) && 0x3c !in name
    ensures Search(text + (EndTag(name) + rest), EndTag(name)) == Some(|text|)
  {
    hide Search, Holds;
    var end := EndTag(name);
    var s := text + (end + rest);
    assert StandsAt(s, end, |text|);
    forall i: nat | i < |text|
      ensures !StandsAt(s, end, i)
    {
      NotBefore(text, name, rest, i);
    }
    SearchIs(s, end, |text|);
  }

  lemma NotBefore(text: Bytes, name: Bytes, rest: Bytes, i: nat)
    requires !Holds(text, EndTag(name)) && 0x3c !in name && i < |text|
    ensures !StandsAt(text + (EndTag(name) + rest), EndTag(name), i)
  {
    var end := EndTag(name);
    var s := text + (end + rest);
    if i + |end| <= |text| {
      assert text[i..i + |end|] == s[i..i + |end|];
      assert !StandsAt(text, end, i);
    } else {
      var j := |text| - i;
      assert s[i..i + |end|][j] == s[|text|] == 0x3c;
      assert end[j] != 0x3c;
    }
  }

  function TagOf(leaf: Leaf): Tag {
    match leaf
    case IntegerLeaf => IntegerTag
    case RealLeaf => RealTag
    case StringLeaf => StringTag
    case DataLeaf => DataTag
    case DateLeaf => DateTag
    case KeyLeaf => KeyTag
  }

  lemma Names(leaf: Leaf)
    ensures Name(TagOf(leaf)) == Word(leaf) && 0x3c !in Word(leaf)
    ensures Start(TagOf(leaf)) == [0x3c] + Word(leaf) && Close(TagOf(leaf)) == EndTag(Word(leaf))
  {
  }

  lemma BodyReads(leaf: Leaf, b: Body, rest: Bytes)
    requires GoodBody(leaf, b)
    ensures ReadBody(PrintBody(leaf, b) + rest, TagOf(leaf)) == Parsed(Text(b), rest)
  {
    hide ReadBody, Blanks, Holds, Word, EndTag;
    var s := PrintBody(leaf, b) + rest;
    match b
    case Closed(gap) =>
      assert s == gap + ([0x2f, 0x3e] + rest);
      ClosedReads(leaf, gap, rest);
    case Filled(gap, text) =>
      assert s == gap + ([0x3e] + (text + (EndTag(Word(leaf)) + rest)));
      FilledReads(leaf, gap, text, rest);
  }

  lemma ClosedReads(leaf: Leaf, gap: Bytes, rest: Bytes)
    requires Blanks(gap)
    ensures ReadBody(gap + ([0x2f, 0x3e] + rest), TagOf(leaf)) == Parsed([], rest)
  {
    hide Consume, Search, Blanks, Name;
    Consumes(gap, [0x2f, 0x3e], rest);
  }

  lemma FilledReads(leaf: Leaf, gap: Bytes, text: Bytes, rest: Bytes)
    requires Blanks(gap) && !Holds(text, EndTag(Word(leaf)))
    ensures ReadBody(gap + ([0x3e] + (text + (EndTag(Word(leaf)) + rest))), TagOf(leaf)) == Parsed(text, rest)
  {
    hide Consume, Search, Blanks, Holds, Word, EndTag, Name, Close, StandsAt;
    Names(leaf);
    var end := EndTag(Word(leaf));
    var after := text + (end + rest);
    ConsumesNot(gap, [0x3e] + after, [0x2f, 0x3e]);
    Consumes(gap, [0x3e], after);
    EndIsFound(text, Word(leaf), rest);
    TextAndRest(text, end, rest);
  }

  lemma TextAndRest(text: Bytes, end: Bytes, rest: Bytes)
    ensures var s := text + (end + rest);
            |text| + |end| <= |s| && s[..|text|] == text && s[|text| + |end|..] == rest
  {
  }

  lemma BodyForth(s: Bytes, leaf: Leaf) returns (b: Body)
    requires ReadBody(s, TagOf(leaf)).Parsed?
    ensures GoodBody(leaf, b)
    ensures var r := ReadBody(s, TagOf(leaf)); Text(b) == r.value && s == PrintBody(leaf, b) + r.rest
  {
    hide Consume, Search, Blanks, Holds, Word, EndTag, Name;
    Names(leaf);
    var r := ReadBody(s, TagOf(leaf));
    if Consume(s, [SLASH, GREATER]).Some? {
      var gap := ConsumeForth(s, [0x2f, 0x3e]);
      b := Closed(gap);
      assert gap + ([0x2f, 0x3e] + r.rest) == PrintBody(leaf, b) + r.rest;
    } else {
      var gap := ConsumeForth(s, [0x3e]);
      var after := Consume(s, [GREATER]).value;
      var k := Search(after, EndTag(Word(leaf))).value;
      b := Filled(gap, after[..k]);
      EndIsFirst(after, EndTag(Word(leaf)), k);
      assert after == after[..k] + (EndTag(Word(leaf)) + r.rest);
      assert gap + ([0x3e] + after) == PrintBody(leaf, b) + r.rest;
    }
  }

  lemma EndIsFirst(s: Bytes, token: Bytes, k: nat)
    requires Search(s, token) == Some(k) && token != []
    ensures !Holds(s[..k], token)
  {
    hide Search;
    SearchIs(s, token, k);
    forall i: nat
      ensures !StandsAt(s[..k], token, i)
    {
      if i + |token| <= k {
        assert s[..k][i..i + |token|] == s[i..i + |token|];
        assert !StandsAt(s, token, i);
      }
    }
  }

  // ---------------------------------------------------------------------------
  // Layouts are read as what they mean
  // ---------------------------------------------------------------------------

  lemma LeafIs(leaf: Leaf, text: Bytes, reals: Reals)
    requires leaf != KeyLeaf
    ensures LeafOf(TagOf(leaf), text, reals) == LeafMeaning(leaf, text, reals)
  {
    hide ReadInteger, Unescape, Characters, DecodeFrom, Compact, ParsedDate, Values, Octets, HasFields;
    match leaf
    case StringLeaf => CharactersAre(text);
    case DataLeaf =>
      WhiteSpaceIsIgnored(text, 0, 0);
      DecodesExactly(text);
    case DateLeaf => DateIs(text);
    case _ =>
  }

  lemma DateIs(text: Bytes)
    ensures ParsedDate(text).Ok? <==> HasFields(text)
  {
    hide ParsedDate, HasFields;
    ParsesExactly(text);
  }

  lemma TagReads(tag: Tag, s: Bytes)
    requires Printed(tag) && Token(tag) <= s && Start(tag) <= s
    ensures TagAt(s) == Some(tag)
  {
    hide Name, Start, Open;
    Distinct(tag, s);
  }

  /** A form without a body. */
  lemma WordReads(f: Form, rest: Bytes, reals: Reals)
    requires (f.TrueForm? || f.FalseForm? || f.NullForm?) && GoodForm(f, reals)
    ensures ParseValue(PrintForm(f) + rest, reals) == Parsed(FormMeaning(f, reals), rest)
  {
    hide TagAt, ReadBody, LeafOf, ParseContainer;
    var tag := if f.TrueForm? then TrueTag else if f.FalseForm? then FalseTag else NullTag;
    assert PrintForm(f) == Open(tag);
    TagBack(tag, rest);
    assert ([GREATER] + rest)[1..] == rest;
  }

  lemma ElementReads(f: Form, rest: Bytes, reals: Reals)
    requires f.Element? && GoodForm(f, reals)
    ensures ParseValue(PrintForm(f) + rest, reals) == Parsed(FormMeaning(f, reals), rest)
  {
    hide TagAt, ReadBody, LeafOf, ParseContainer, PrintBody, GoodBody, Name, Word, LeafMeaning;
    var tag := TagOf(f.leaf);
    var body := PrintBody(f.leaf, f.body) + rest;
    var s := PrintForm(f) + rest;
    Names(f.leaf);
    assert s == Start(tag) + body;
    TagReads(tag, s);
    assert s[|Start(tag)|..] == body;
    BodyReads(f.leaf, f.body, rest);
    LeafIs(f.leaf, Text(f.body), reals);
  }

  lemma ContainerReads(tag: Tag, gap: Bytes, inside: Bytes, reals: Reals)
    requires tag in {ArrayTag, DictTag} && Blanks(gap)
    ensures ParseValue(Start(tag) + (gap + ([0x3e] + inside)), reals) ==
            if tag == ArrayTag then
              var items := ParseItems(inside, reals);
              if items.Failed? then Failed else Parsed(Array(items.value), items.rest)
            else
              var entries := ParseEntries(inside, [], reals);
              if entries.Failed? then Failed else Parsed(Dictionary(entries.value), entries.rest)
  {
    hide TagAt, ParseItems, ParseEntries, ParseLeaf, Consume, Blanks, Name;
    var s := Start(tag) + (gap + ([0x3e] + inside));
    TagReads(tag, s);
    assert s[|Start(tag)|..] == gap + ([0x3e] + inside);
    Consumes(gap, [0x3e], inside);
  }

  lemma ContainerNames()
    ensures Start(ArrayTag) == [0x3c, 0x61, 0x72, 0x72, 0x61, 0x79]
    ensures Close(ArrayTag) == [0x3c, 0x2f, 0x61, 0x72, 0x72, 0x61, 0x79, 0x3e]
    ensures Start(DictTag) == [0x3c, 0x64, 0x69, 0x63, 0x74]
    ensures Close(DictTag) == [0x3c, 0x2f, 0x64, 0x69, 0x63, 0x74, 0x3e]
    ensures Start(KeyTag) == [0x3c, 0x6b, 0x65, 0x79]
  {
  }

  lemma SkipValue(before: Bytes, s: Bytes, reals: Reals)
    requires Blanks(before) && NoBlank(s)
    ensures ParseValue(before + s, reals) == ParseValue(s, reals)
  {
    hide TagAt, ParseLeaf, ParseContainer, SkipSpace, Blanks;
    SkipsBlanks(before, s);
  }

  /** Every form opens with `<` and not with `</`. */
  lemma FormStarts(f: Form)
    ensures |PrintForm(f)| >= 2 && PrintForm(f)[0] == 0x3c && PrintForm(f)[1] != 0x2f
  {
    hide PrintItems, PrintMembers, PrintBody;
  }

  lemma {:induction false} LaidReads(l: Laid, rest: Bytes, reals: Reals)
    requires Good(l, reals)
    ensures ParseValue(Print(l) + rest, reals) == Parsed(Meaning(l, reals), rest)
    decreases l, 1
  {
    hide ParseValue, PrintForm, FormMeaning, GoodForm, Blanks;
    FormStarts(l.form);
    assert Print(l) + rest == l.before + (PrintForm(l.form) + rest);
    SkipValue(l.before, PrintForm(l.form) + rest, reals);
    FormReads(l.form, rest, reals);
  }

  lemma {:induction false} FormReads(f: Form, rest: Bytes, reals: Reals)
    requires GoodForm(f, reals)
    ensures ParseValue(PrintForm(f) + rest, reals) == Parsed(FormMeaning(f, reals), rest)
    decreases f, 0
  {
    hide ParseValue, PrintBody, ParseItems, ParseEntries, Blanks, GoodItems, GoodMembers, PrintItems, PrintMembers,
         ItemsMeaning, MembersMeaning, GoodBody, LeafMeaning;
    match f
    case ArrayForm(gap, items, tail) =>
      ContainerNames();
      var inside := PrintItems(items) + (tail + (Close(ArrayTag) + rest));
      InsideIs(Start(ArrayTag), gap, PrintItems(items), tail, Close(ArrayTag), rest);
      ContainerReads(ArrayTag, gap, inside, reals);
      ItemsRead(items, tail, rest, reals);
    case DictForm(gap, members, tail) =>
      ContainerNames();
      var inside := PrintMembers(members) + (tail + (Close(DictTag) + rest));
      InsideIs(Start(DictTag), gap, PrintMembers(members), tail, Close(DictTag), rest);
      ContainerReads(DictTag, gap, inside, reals);
      MembersRead(members, [], tail, rest, reals);
    case Element(_, _) => ElementReads(f, rest, reals);
    case _ => WordReads(f, rest, reals);
  }

  lemma InsideIs(start: Bytes, gap: Bytes, elements: Bytes, tail: Bytes, end: Bytes, rest: Bytes)
    ensures start + (gap + ([0x3e] + (elements + (tail + end)))) + rest ==
            start + (gap + ([0x3e] + (elements + (tail + (end + rest)))))
  {
  }

  /** An element is not taken for the end of its container. */
  lemma NoEndYet(before: Bytes, s: Bytes, tag: Tag)
    requires Blanks(before) && |s| >= 2 && s[0] == 0x3c && s[1] != 0x2f
    ensures Consume(before + s, Close(tag)) == None
  {
    hide Name, Blanks;
    ConsumesNot(before, s, Close(tag));
  }

  lemma {:induction false} ItemsRead(items: seq<Laid>, tail: Bytes, rest: Bytes, reals: Reals)
    requires GoodItems(items, reals) && Blanks(tail)
    ensures ParseItems(PrintItems(items) + (tail + (Close(ArrayTag) + rest)), reals) ==
            Parsed(ItemsMeaning(items, reals), rest)
    decreases items
  {
    hide ParseItems, ParseValue, PrintForm, FormMeaning, GoodForm, Blanks, Consume, Name;
    var after := tail + (Close(ArrayTag) + rest);
    var s := PrintItems(items) + after;
    XmlPlist.ItemsStep(s, reals);
    if items == [] {
      assert s == after;
      Consumes(tail, Close(ArrayTag), rest);
    } else {
      var l := items[0];
      var more := PrintItems(items[1..]) + after;
      assert s == Print(l) + more;
      assert Print(l) + more == l.before + (PrintForm(l.form) + more);
      FormStarts(l.form);
      NoEndYet(l.before, PrintForm(l.form) + more, ArrayTag);
      LaidReads(l, more, reals);
      ItemsRead(items[1..], tail, rest, reals);
    }
  }

  lemma KeyReads(before: Bytes, key: Body, rest: Bytes)
    requires Blanks(before) && GoodBody(KeyLeaf, key)
    ensures ParseKey(PrintKey(before, key) + rest) == Parsed(Characters(Text(key)), rest)
    ensures Consume(PrintKey(before, key) + rest, Close(DictTag)) == None
  {
    hide Consume, ReadBody, Unescape, Characters, PrintBody, GoodBody, Blanks, Name;
    ContainerNames();
    var body := PrintBody(KeyLeaf, key) + rest;
    assert PrintKey(before, key) + rest == before + (Start(KeyTag) + body);
    Consumes(before, Start(KeyTag), body);
    NoEndYet(before, Start(KeyTag) + body, DictTag);
    BodyReads(KeyLeaf, key, rest);
    CharactersAre(Text(key));
  }

  lemma {:induction false} MembersRead(members: seq<Member>, done: seq<Entry<Plist>>, tail: Bytes, rest: Bytes,
                                       reals: Reals)
    requires GoodMembers(members, reals) && Blanks(tail)
    ensures ParseEntries(PrintMembers(members) + (tail + (Close(DictTag) + rest)), done, reals) ==
            Parsed(MembersMeaning(members, done, reals), rest)
    decreases members
  {
    hide ParseEntries, ParseValue, ParseKey, PrintKey, Print, Good, Meaning, GoodBody, Blanks, Consume, Name, Emplace,
         Characters;
    var after := tail + (Close(DictTag) + rest);
    var s := PrintMembers(members) + after;
    EntriesStep(s, done, reals);
    if members == [] {
      assert s == after;
      Consumes(tail, Close(DictTag), rest);
    } else {
      var m := members[0];
      var more := PrintMembers(members[1..]) + after;
      assert s == PrintKey(m.before, m.key) + (Print(m.value) + more);
      KeyReads(m.before, m.key, Print(m.value) + more);
      LaidReads(m.value, more, reals);
      MembersRead(members[1..], Emplace(done, Characters(Text(m.key)), Meaning(m.value, reals)), tail, rest, reals);
    }
  }

  // ---------------------------------------------------------------------------
  // Whatever is read has a layout
  // ---------------------------------------------------------------------------

  lemma TagForth(s: Bytes)
    requires TagAt(s).Some?
    ensures var tag := TagAt(s).value; tag != KeyTag && Token(tag) <= s && s == Start(tag) + s[|Start(tag)|..]
  {
    hide Name, Start, Open;
  }

  lemma WordForm(tag: Tag, s: Bytes, reals: Reals) returns (f: Form)
    requires tag in {TrueTag, FalseTag, NullTag} && Open(tag) <= s
    ensures GoodForm(f, reals)
    ensures ParseLeaf(s[|Start(tag)|..], tag, reals) == Parsed(FormMeaning(f, reals), s[|Open(tag)|..])
    ensures s == PrintForm(f) + s[|Open(tag)|..]
  {
    hide ReadBody, LeafOf;
    f := if tag == TrueTag then TrueForm else if tag == FalseTag then FalseForm else NullForm;
    assert PrintForm(f) == Open(tag);
    assert s[|Start(tag)|..][1..] == s[|Open(tag)|..];
  }

  function LeafFor(tag: Tag): Leaf
    requires tag in {IntegerTag, RealTag, StringTag, DataTag, DateTag}
  {
    if tag == IntegerTag then IntegerLeaf else if tag == RealTag then RealLeaf
    else if tag == StringTag then StringLeaf else if tag == DataTag then DataLeaf else DateLeaf
  }

  lemma ElementForm(tag: Tag, s: Bytes, reals: Reals) returns (f: Form)
    requires tag in {IntegerTag, RealTag, StringTag, DataTag, DateTag} && ParseLeaf(s, tag, reals).Parsed?
    ensures var r := ParseLeaf(s, tag, reals);
            GoodForm(f, reals) && FormMeaning(f, reals) == r.value && Start(tag) + s == PrintForm(f) + r.rest
  {
    hide ReadBody, LeafOf, LeafMeaning, PrintBody, GoodBody, Name, Word;
    var leaf := LeafFor(tag);
    var body := BodyForth(s, leaf);
    LeafIs(leaf, Text(body), reals);
    Names(leaf);
    f := Element(leaf, body);
    var r := ParseLeaf(s, tag, reals);
    assert Start(tag) + (PrintBody(leaf, body) + r.rest) == PrintForm(f) + r.rest;
  }

  lemma {:induction false} LaidForth(s: Bytes, reals: Reals) returns (l: Laid)
    requires ParseValue(s, reals).Parsed?
    ensures var r := ParseValue(s, reals);
            Good(l, reals) && Meaning(l, reals) == r.value && s == Print(l) + r.rest
    decreases |s|, 0, 1
  {
    hide ParseValue, PrintForm, FormMeaning, GoodForm, Blanks;
    var before := BlanksForth(s);
    var t := SkipSpace(s);
    SkipFirst(s, reals);
    var f := FormForth(t, reals);
    l := Laid(before, f);
    assert before + (PrintForm(f) + ParseValue(s, reals).rest) == Print(l) + ParseValue(s, reals).rest;
  }

  lemma {:induction false} FormForth(t: Bytes, reals: Reals) returns (f: Form)
    requires NoBlank(t) && ParseValue(t, reals).Parsed?
    ensures var r := ParseValue(t, reals);
            GoodForm(f, reals) && FormMeaning(f, reals) == r.value && t == PrintForm(f) + r.rest
    decreases |t|, 0, 0
  {
    hide TagAt, ParseLeaf, ParseContainer, PrintForm, FormMeaning, GoodForm, Name;
    TagForth(t);
    var tag := TagAt(t).value;
    var body := t[|Start(tag)|..];
    if tag in {TrueTag, FalseTag, NullTag} {
      f := WordForm(tag, t, reals);
    } else if tag in {ArrayTag, DictTag} {
      f := ContainerForm(tag, body, reals);
    } else {
      f := ElementForm(tag, body, reals);
    }
  }

  lemma {:induction false} ContainerForm(tag: Tag, s: Bytes, reals: Reals) returns (f: Form)
    requires tag in {ArrayTag, DictTag} && ParseContainer(tag, s, reals).Parsed?
    ensures var r := ParseContainer(tag, s, reals);
            GoodForm(f, reals) && FormMeaning(f, reals) == r.value && Start(tag) + s == PrintForm(f) + r.rest
    decreases |s|, 2, 0
  {
    hide ParseItems, ParseEntries, Blanks, GoodItems, GoodMembers, PrintItems, PrintMembers, ItemsMeaning,
         MembersMeaning, Consume, Name;
    ContainerNames();
    var r := ParseContainer(tag, s, reals);
    var gap := ConsumeForth(s, [0x3e]);
    var inside := Consume(s, [GREATER]).value;
    if tag == ArrayTag {
      var items, tail := ItemsForth(inside, reals);
      f := ArrayForm(gap, items, tail);
      InsideIs(Start(tag), gap, PrintItems(items), tail, Close(tag), r.rest);
    } else {
      var members, tail := MembersForth(inside, [], reals);
      f := DictForm(gap, members, tail);
      InsideIs(Start(tag), gap, PrintMembers(members), tail, Close(tag), r.rest);
    }
  }

  lemma {:induction false} ItemsForth(s: Bytes, reals: Reals) returns (items: seq<Laid>, tail: Bytes)
    requires ParseItems(s, reals).Parsed?
    ensures var r := ParseItems(s, reals);
            && GoodItems(items, reals) && Blanks(tail) && ItemsMeaning(items, reals) == r.value
            && s == PrintItems(items) + (tail + (Close(ArrayTag) + r.rest))
    decreases |s|, 1, 0
  {
    hide ParseItems, ParseValue, Print, Meaning, Good, Blanks, Consume, Name;
    XmlPlist.ItemsStep(s, reals);
    var r := ParseItems(s, reals);
    if Consume(s, Close(ArrayTag)).Some? {
      items := [];
      tail := ConsumeForth(s, Close(ArrayTag));
      assert [] + (tail + (Close(ArrayTag) + r.rest)) == tail + (Close(ArrayTag) + r.rest);
    } else {
      var first := ParseValue(s, reals);
      var l := LaidForth(s, reals);
      var more;
      more, tail := ItemsForth(first.rest, reals);
      items := [l] + more;
      assert items[1..] == more;
      InOrder(Print(l), PrintItems(more), tail + (Close(ArrayTag) + r.rest));
    }
  }

  lemma InOrder(a: Bytes, b: Bytes, rest: Bytes)
    ensures a + (b + rest) == (a + b) + rest
  {
  }

  lemma KeyForth(s: Bytes) returns (before: Bytes, key: Body)
    requires ParseKey(s).Parsed?
    ensures var r := ParseKey(s);
            && Blanks(before) && GoodBody(KeyLeaf, key) && Characters(Text(key)) == r.value
            && s == PrintKey(before, key) + r.rest
  {
    hide Consume, ReadBody, Unescape, Characters, PrintBody, GoodBody, Blanks, Name;
    ContainerNames();
    before := ConsumeForth(s, Start(KeyTag));
    key := BodyForth(Consume(s, Start(KeyTag)).value, KeyLeaf);
    CharactersAre(Text(key));
    var r := ParseKey(s);
    assert before + (Start(KeyTag) + (PrintBody(KeyLeaf, key) + r.rest)) == PrintKey(before, key) + r.rest;
  }

  lemma {:induction false} MembersForth(s: Bytes, done: seq<Entry<Plist>>, reals: Reals)
    returns (members: seq<Member>, tail: Bytes)
    requires ParseEntries(s, done, reals).Parsed?
    ensures var r := ParseEntries(s, done, reals);
            && GoodMembers(members, reals) && Blanks(tail) && MembersMeaning(members, done, reals) == r.value
            && s == PrintMembers(members) + (tail + (Close(DictTag) + r.rest))
    decreases |s|, 1, 0
  {
    hide ParseEntries, ParseValue, ParseKey, PrintKey, Print, Good, Meaning, GoodBody, Blanks, Consume, Name, Emplace,
         Characters;
    EntriesStep(s, done, reals);
    var r := ParseEntries(s, done, reals);
    if Consume(s, Close(DictTag)).Some? {
      members := [];
      tail := ConsumeForth(s, Close(DictTag));
      assert [] + (tail + (Close(DictTag) + r.rest)) == tail + (Close(DictTag) + r.rest);
    } else {
      var k := ParseKey(s);
      var before, key := KeyForth(s);
      var item := ParseValue(k.rest, reals);
      var l := LaidForth(k.rest, reals);
      var more;
      more, tail := MembersForth(item.rest, Emplace(done, k.value, item.value), reals);
      members := [Member(before, key, l)] + more;
      assert members[1..] == more;
      InOrder(Print(l), PrintMembers(more), tail + (Close(DictTag) + r.rest));
      InOrder(PrintKey(before, key), Print(l) + PrintMembers(more), tail + (Close(DictTag) + r.rest));
    }
  }
}
