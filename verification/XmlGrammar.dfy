/**
 The XML texts of a plist, written out. A layout is one way of laying a value out as text:
 white space before any element, inside any tag and around any value, elements closed in
 either way, entities anywhere, and a prolog of instructions, comments and declarations.
 Nothing here names a tag or an entity of the printer or of the parser.
 */
module XmlGrammar {
  import opened Words
  import opened Dictionaries
  import opened Plists
  import opened Decimal
  import opened Base64
  import opened Base64Exactly
  import opened PlistDate
  import opened DateExactly
  import opened XmlText
  import opened XmlFormat

  // ---------------------------------------------------------------------------
  // Layouts
  // ---------------------------------------------------------------------------

  datatype Leaf = IntegerLeaf | RealLeaf | StringLeaf | DataLeaf | DateLeaf | KeyLeaf

  /** The inside of an element after its name: closed at once, or a text and an end tag. */
  datatype Body = Closed(gap: Bytes) | Filled(gap: Bytes, text: Bytes)

  datatype Form =
    | TrueForm | FalseForm | NullForm
    | Element(leaf: Leaf, body: Body)
    | ArrayForm(gap: Bytes, items: seq<Laid>, tail: Bytes)
    | DictForm(gap: Bytes, members: seq<Member>, tail: Bytes)

  datatype Laid = Laid(before: Bytes, form: Form)

  datatype Member = Member(before: Bytes, key: Body, value: Laid)

  /** What may stand before the root element. */
  datatype Misc = Instruction(before: Bytes, text: Bytes) | Comment(before: Bytes, whole: Bytes)
                | Declared(before: Bytes, text: Bytes)

  datatype File = File(prolog: seq<Misc>, before: Bytes, attributes: Bytes, value: Laid, after: Bytes)

  predicate Blanks(s: Bytes) {
    forall i :: 0 <= i < |s| ==> s[i] in {0x20, 0x09, 0x0a, 0x0b, 0x0c, 0x0d}
  }

  predicate StandsAt(s: Bytes, token: Bytes, i: nat) {
    i + |token| <= |s| && s[i..i + |token|] == token
  }

  ghost predicate Holds(s: Bytes, token: Bytes) {
    exists i: nat :: StandsAt(s, token, i)
  }

  /** The name of an element. */
  function Word(leaf: Leaf): (s: Bytes)
    ensures s != []
  {
    match leaf
    case IntegerLeaf => [0x69, 0x6e, 0x74, 0x65, 0x67, 0x65, 0x72]
    case RealLeaf => [0x72, 0x65, 0x61, 0x6c]
    case StringLeaf => [0x73, 0x74, 0x72, 0x69, 0x6e, 0x67]
    case DataLeaf => [0x64, 0x61, 0x74, 0x61]
    case DateLeaf => [0x64, 0x61, 0x74, 0x65]
    case KeyLeaf => [0x6b, 0x65, 0x79]
  }

  function EndTag(name: Bytes): Bytes {
    [0x3c, 0x2f] + name + [0x3e]
  }

  function PrintBody(leaf: Leaf, b: Body): Bytes {
    match b
    case Closed(gap) => gap + [0x2f, 0x3e]
    case Filled(gap, text) => gap + ([0x3e] + (text + EndTag(Word(leaf))))
  }

  function PrintForm(f: Form): Bytes
    decreases f
  {
    match f
    case TrueForm => [0x3c, 0x74, 0x72, 0x75, 0x65, 0x2f, 0x3e]
    case FalseForm => [0x3c, 0x66, 0x61, 0x6c, 0x73, 0x65, 0x2f, 0x3e]
    case NullForm => [0x3c, 0x6e, 0x75, 0x6c, 0x6c, 0x2f, 0x3e]
    case Element(leaf, body) => [0x3c] + Word(leaf) + PrintBody(leaf, body)
    case ArrayForm(gap, items, tail) =>
      [0x3c, 0x61, 0x72, 0x72, 0x61, 0x79] + (gap + ([0x3e] + (PrintItems(items) +
        (tail + [0x3c, 0x2f, 0x61, 0x72, 0x72, 0x61, 0x79, 0x3e]))))
    case DictForm(gap, members, tail) =>
      [0x3c, 0x64, 0x69, 0x63, 0x74] + (gap + ([0x3e] + (PrintMembers(members) +
        (tail + [0x3c, 0x2f, 0x64, 0x69, 0x63, 0x74, 0x3e]))))
  }

  function Print(l: Laid): Bytes
    decreases l
  {
    l.before + PrintForm(l.form)
  }

  function PrintItems(items: seq<Laid>): Bytes
    decreases items
  {
    if items == [] then [] else Print(items[0]) + PrintItems(items[1..])
  }

  function PrintKey(before: Bytes, key: Body): Bytes {
    before + ([0x3c, 0x6b, 0x65, 0x79] + PrintBody(KeyLeaf, key))
  }

  function PrintMembers(members: seq<Member>): Bytes
    decreases members
  {
    if members == [] then []
    else PrintKey(members[0].before, members[0].key) + (Print(members[0].value) + PrintMembers(members[1..]))
  }

  function PrintMisc(m: Misc): Bytes {
    match m
    case Instruction(before, text) => before + ([0x3c, 0x3f] + (text + [0x3e]))
    case Comment(before, whole) => before + whole
    case Declared(before, text) => before + ([0x3c, 0x21] + (text + [0x3e]))
  }

  function PrintProlog(prolog: seq<Misc>): Bytes {
    if prolog == [] then [] else PrintMisc(prolog[0]) + PrintProlog(prolog[1..])
  }

  /** The prolog, the root element's start tag, the value, and whatever follows it. */
  function PrintFile(f: File): Bytes {
    PrintProlog(f.prolog) + (f.before + ([0x3c, 0x70, 0x6c, 0x69, 0x73, 0x74] + (f.attributes + ([0x3e] +
      (Print(f.value) + f.after)))))
  }

  // ---------------------------------------------------------------------------
  // What texts mean
  // ---------------------------------------------------------------------------

  /** A text with its five entities replaced. */
  function Characters(text: Bytes): Bytes {
    if text == [] then []
    else if [0x26, 0x61, 0x6d, 0x70, 0x3b] <= text then [0x26] + Characters(text[5..])
    else if [0x26, 0x6c, 0x74, 0x3b] <= text then [0x3c] + Characters(text[4..])
    else if [0x26, 0x67, 0x74, 0x3b] <= text then [0x3e] + Characters(text[4..])
    else if [0x26, 0x71, 0x75, 0x6f, 0x74, 0x3b] <= text then [0x22] + Characters(text[6..])
    else if [0x26, 0x61, 0x70, 0x6f, 0x73, 0x3b] <= text then [0x27] + Characters(text[6..])
    else [text[0]] + Characters(text[1..])
  }

  /** The text that stands for any bytes: three characters are never written as they are. */
  function Quoted(s: Bytes): Bytes {
    if s == [] then []
    else
      (if s[0] == 0x26 then [0x26, 0x61, 0x6d, 0x70, 0x3b]
       else if s[0] == 0x3c then [0x26, 0x6c, 0x74, 0x3b]
       else if s[0] == 0x3e then [0x26, 0x67, 0x74, 0x3b] else [s[0]]) + Quoted(s[1..])
  }

  /** The start of an integer: white space, a sign and digits. */
  datatype Numeral = Numeral(blanks: Bytes, sign: Option<Byte>, digits: Bytes, rest: Bytes)

  predicate GoodNumeral(n: Numeral) {
    && Blanks(n.blanks) && (forall i :: 0 <= i < |n.digits| ==> 0x30 <= n.digits[i] <= 0x39)
    && (n.sign.Some? ==> n.sign.value in {0x2b, 0x2d})
    && (n.rest != [] ==> !(0x30 <= n.rest[0] <= 0x39))
    && (n.sign.None? && n.digits == [] && n.rest != [] ==>
          n.rest[0] !in {0x20, 0x09, 0x0a, 0x0b, 0x0c, 0x0d, 0x2b, 0x2d})
  }

  function PrintNumeral(n: Numeral): Bytes {
    n.blanks + ((if n.sign.Some? then [n.sign.value] else []) + (n.digits + n.rest))
  }

  /** The number it starts with, at most what 64 bits hold. */
  function NumeralMeaning(n: Numeral): int {
    var value := if n.sign == Some(0x2d) then -FromDigits(n.digits) else FromDigits(n.digits);
    if value < -0x8000_0000_0000_0000 then -0x8000_0000_0000_0000
    else if value > 0x7fff_ffff_ffff_ffff then 0x7fff_ffff_ffff_ffff else value
  }

  /** The value of an element's text; a date must have its fields and data no foreign letters. */
  function LeafMeaning(leaf: Leaf, text: Bytes, reals: Reals): Option<Plist> {
    match leaf
    case IntegerLeaf => Some(Integer(ReadInteger(text)))
    case RealLeaf => Some(Real(reals.scan(text)))
    case StringLeaf => Some(String(Characters(text)))
    case DataLeaf => if Values(text).None? then None else Some(Data(Octets(Values(text).value)))
    case DateLeaf =>
      ParsedDateFits(text);
      if HasFields(text) then
        ParsesExactly(text);
        Some(Date(ParsedDate(text).value))
      else None
    case KeyLeaf => None
  }

  function Text(b: Body): Bytes {
    if b.Closed? then [] else b.text
  }

  /** The text of an element ends where its end tag first stands. */
  ghost predicate GoodBody(leaf: Leaf, b: Body) {
    Blanks(b.gap) && (b.Filled? ==> !Holds(b.text, EndTag(Word(leaf))))
  }

  ghost predicate GoodForm(f: Form, reals: Reals)
    decreases f
  {
    match f
    case Element(leaf, body) => leaf != KeyLeaf && GoodBody(leaf, body) && LeafMeaning(leaf, Text(body), reals).Some?
    case ArrayForm(gap, items, tail) => Blanks(gap) && GoodItems(items, reals) && Blanks(tail)
    case DictForm(gap, members, tail) => Blanks(gap) && GoodMembers(members, reals) && Blanks(tail)
    case _ => true
  }

  ghost predicate Good(l: Laid, reals: Reals)
    decreases l
  {
    Blanks(l.before) && GoodForm(l.form, reals)
  }

  ghost predicate GoodItems(items: seq<Laid>, reals: Reals)
    decreases items
  {
    items != [] ==> Good(items[0], reals) && GoodItems(items[1..], reals)
  }

  ghost predicate GoodMembers(members: seq<Member>, reals: Reals)
    decreases members
  {
    members != [] ==>
      && Blanks(members[0].before) && GoodBody(KeyLeaf, members[0].key)
      && Good(members[0].value, reals) && GoodMembers(members[1..], reals)
  }

  ghost function FormMeaning(f: Form, reals: Reals): Plist
    requires GoodForm(f, reals)
    decreases f
  {
    match f
    case TrueForm => Boolean(true)
    case FalseForm => Boolean(false)
    case NullForm => Null
    case Element(leaf, body) => LeafMeaning(leaf, Text(body), reals).value
    case ArrayForm(_, items, _) => Array(ItemsMeaning(items, reals))
    case DictForm(_, members, _) => Dictionary(MembersMeaning(members, [], reals))
  }

  ghost function Meaning(l: Laid, reals: Reals): Plist
    requires Good(l, reals)
    decreases l
  {
    FormMeaning(l.form, reals)
  }

  ghost function ItemsMeaning(items: seq<Laid>, reals: Reals): seq<Plist>
    requires GoodItems(items, reals)
    decreases items
  {
    if items == [] then [] else [Meaning(items[0], reals)] + ItemsMeaning(items[1..], reals)
  }

  /** Of equal keys the first one counts. */
  ghost function MembersMeaning(members: seq<Member>, done: seq<Entry<Plist>>, reals: Reals): seq<Entry<Plist>>
    requires GoodMembers(members, reals)
    decreases members
  {
    if members == [] then done
    else
      var m := members[0];
      MembersMeaning(members[1..], Emplace(done, Characters(Text(m.key)), Meaning(m.value, reals)), reals)
  }

  predicate NoEnd(s: Bytes) {
    0x3e !in s
  }

  ghost predicate GoodMisc(m: Misc) {
    Blanks(m.before) &&
    match m
    case Instruction(_, text) => NoEnd(text)
    case Comment(_, whole) =>
      // a comment ends where `-->` first stands, which may be within its own start
      && |whole| >= 5 && whole[..4] == [0x3c, 0x21, 0x2d, 0x2d] && StandsAt(whole, [0x2d, 0x2d, 0x3e], |whole| - 3)
      && forall i: nat :: i < |whole| - 3 ==> !StandsAt(whole, [0x2d, 0x2d, 0x3e], i)
    case Declared(_, text) => NoEnd(text) && (|text| >= 2 ==> text[..2] != [0x2d, 0x2d])
  }

  ghost predicate GoodProlog(prolog: seq<Misc>) {
    prolog != [] ==> GoodMisc(prolog[0]) && GoodProlog(prolog[1..])
  }

  ghost predicate GoodFile(f: File, reals: Reals) {
    GoodProlog(f.prolog) && Blanks(f.before) && NoEnd(f.attributes) && Good(f.value, reals)
  }

  // ---------------------------------------------------------------------------
  // The same, by the functions of the parser and the printer
  // ---------------------------------------------------------------------------

  lemma {:induction false} CharactersAre(text: Bytes)
    ensures Unescape(text) == Characters(text)
  {
    if text != [] {
      var n := FirstCharacter(text).1;
      CharactersAre(text[n..]);
    }
  }

  lemma {:induction false} QuotedIs(s: Bytes)
    ensures Escape(s) == Quoted(s)
  {
    if s != [] {
      QuotedIs(s[1..]);
    }
  }

  lemma {:induction false} SkipsBlanks(blanks: Bytes, s: Bytes)
    requires Blanks(blanks) && (s == [] || s[0] !in {0x20, 0x09, 0x0a, 0x0b, 0x0c, 0x0d})
    ensures SkipSpace(blanks + s) == s
  {
    if blanks == [] {
      assert blanks + s == s;
    } else {
      assert (blanks + s)[1..] == blanks[1..] + s;
      SkipsBlanks(blanks[1..], s);
    }
  }

  lemma {:induction false} BlanksForth(s: Bytes) returns (blanks: Bytes)
    ensures Blanks(blanks) && s == blanks + SkipSpace(s)
    ensures SkipSpace(s) == [] || SkipSpace(s)[0] !in {0x20, 0x09, 0x0a, 0x0b, 0x0c, 0x0d}
  {
    if s != [] && IsSpace(s[0]) {
      var more := BlanksForth(s[1..]);
      blanks := [s[0]] + more;
    } else {
      blanks := [];
    }
  }

  lemma {:induction false} RunIs(digits: Bytes, rest: Bytes)
    requires forall i :: 0 <= i < |digits| ==> 0x30 <= digits[i] <= 0x39
    requires rest == [] || !(0x30 <= rest[0] <= 0x39)
    ensures LeadingRun(digits + rest) == digits
  {
    if digits == [] {
      assert digits + rest == rest;
    } else {
      assert (digits + rest)[1..] == digits[1..] + rest;
      RunIs(digits[1..], rest);
      assert [digits[0]] + digits[1..] == digits;
    }
  }

  /** Every numeral is read as its number; a text without one is read as 0. */
  lemma IntegerIs(n: Numeral)
    requires GoodNumeral(n)
    ensures ReadInteger(PrintNumeral(n)) == NumeralMeaning(n)
  {
    hide SkipSpace, LeadingRun, FromDigits;
    var signed := (if n.sign.Some? then [n.sign.value] else []) + (n.digits + n.rest);
    SkipsBlanks(n.blanks, signed);
    RunIs(n.digits, n.rest);
    if n.sign.Some? {
      assert signed[1..] == n.digits + n.rest;
    } else {
      assert signed == n.digits + n.rest;
    }
  }

  /** Every text starts with a numeral, if only an empty one. */
  lemma NumeralForth(s: Bytes) returns (n: Numeral)
    ensures GoodNumeral(n) && PrintNumeral(n) == s
  {
    hide SkipSpace, Blanks;
    var blanks := BlanksForth(s);
    var t := SkipSpace(s);
    if t != [] && t[0] in {0x2b, 0x2d} {
      var digits, rest := DigitsFirst(t[1..]);
      n := Numeral(blanks, Some(t[0]), digits, rest);
      assert t == [t[0]] + (digits + rest);
    } else {
      var digits, rest := DigitsFirst(t);
      n := Numeral(blanks, None, digits, rest);
      assert t == [] + (digits + rest);
    }
  }

  lemma DigitsFirst(s: Bytes) returns (digits: Bytes, rest: Bytes)
    ensures s == digits + rest && (digits == [] ==> rest == s)
    ensures forall i :: 0 <= i < |digits| ==> 0x30 <= digits[i] <= 0x39
    ensures rest != [] ==> !(0x30 <= rest[0] <= 0x39)
  {
    hide LeadingRun;
    digits := LeadingRun(s);
    RunForth(s);
    rest := s[|digits|..];
  }

  lemma {:induction false} RunForth(s: Bytes)
    ensures var d := LeadingRun(s);
            && |d| <= |s| && s[..|d|] == d && (forall i :: 0 <= i < |d| ==> 0x30 <= d[i] <= 0x39)
            && (|d| < |s| ==> !(0x30 <= s[|d|] <= 0x39))
  {
    if s != [] && IsDigit(s[0]) {
      RunForth(s[1..]);
    }
  }
}
