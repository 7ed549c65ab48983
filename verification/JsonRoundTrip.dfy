/** JSON text undoes itself, and surrogate pairs become four UTF-8 bytes. */
module JsonRoundTrip {
  import opened Words
  import opened Dictionaries
  import opened Decimal
  import opened JsonFormat

  // ---------------------------------------------------------------------------
  // Strings
  // ---------------------------------------------------------------------------

  lemma HexBack(d: nat)
    requires d < 16
    ensures HexValue(HexDigit(d)) == d
  {
  }

  /** The hexadecimal escape of a control byte. */
  lemma ControlBack(c: Byte, rest: Bytes)
    requires c < 0x20
    ensures UnicodeAt([ZERO_DIGIT, ZERO_DIGIT, HexDigit(c / 16), HexDigit(c % 16)] + rest) == Parsed([c], rest)
  {
    hide HexDigit, HexValue;
    var s := [ZERO_DIGIT, ZERO_DIGIT, HexDigit(c / 16), HexDigit(c % 16)] + rest;
    ZeroBack();
    HexBack(c / 16);
    HexBack(c % 16);
    assert s[4..] == rest;
  }

  lemma ZeroBack()
    ensures HexValue(ZERO_DIGIT) == 0
  {
  }

  lemma ShortBack(c: Byte, rest: Bytes)
    requires ShortEscape(c) != 0
    ensures EscapeAt([ShortEscape(c)] + rest) == Parsed([c], rest)
  {
    hide UnicodeAt;
    assert ([ShortEscape(c)] + rest)[1..] == rest;
  }

  lemma EscapedBack(c: Byte, rest: Bytes)
    ensures StringFrom(Escaped(c) + rest) == Prefixed([c], StringFrom(rest))
  {
    hide HexDigit, UnicodeAt, StringFrom, EscapeAt, Prefixed;
    var s := Escaped(c) + rest;
    StringStep(s);
    if ShortEscape(c) != 0 {
      assert s[1..] == [ShortEscape(c)] + rest;
      ShortBack(c, rest);
    } else if c < 0x20 {
      var digits := [ZERO_DIGIT, ZERO_DIGIT, HexDigit(c / 16), HexDigit(c % 16)];
      assert s[1..] == [LETTER_U] + (digits + rest);
      ControlBack(c, rest);
      UnicodeEscape(digits + rest);
    } else {
      assert s[1..] == rest;
    }
  }

  lemma UnicodeEscape(s: Bytes)
    ensures EscapeAt([LETTER_U] + s) == UnicodeAt(s)
  {
    hide UnicodeAt;
    assert ([LETTER_U] + s)[1..] == s;
  }

  /** Arbitrary byte strings come back: controls through escapes, all else as it is. */
  lemma {:induction false} StringBack(text: Bytes, rest: Bytes)
    ensures StringFrom(EscapedAll(text) + ([QUOTE] + rest)) == Parsed(text, rest)
  {
    hide Escaped, StringFrom;
    var s := EscapedAll(text) + ([QUOTE] + rest);
    if text == [] {
      assert s == [QUOTE] + rest;
      QuoteEnds(rest);
    } else {
      var after := EscapedAll(text[1..]) + ([QUOTE] + rest);
      assert s == Escaped(text[0]) + after;
      EscapedBack(text[0], after);
      StringBack(text[1..], rest);
      assert [text[0]] + text[1..] == text;
    }
  }

  lemma QuoteEnds(rest: Bytes)
    ensures StringFrom([QUOTE] + rest) == Parsed([], rest)
  {
    assert ([QUOTE] + rest)[1..] == rest;
  }

  lemma QuotedBack(text: Bytes, rest: Bytes)
    ensures ParseString(Quoted(text) + rest) == Parsed(text, rest)
    ensures Peeks(Quoted(text) + rest, QUOTE)
  {
    hide StringFrom, EscapedAll;
    var s := Quoted(text) + rest;
    assert s[1..] == EscapedAll(text) + ([QUOTE] + rest);
    StringBack(text, rest);
  }

  // ---------------------------------------------------------------------------
  // Surrogate pairs (section 7 of RFC 8259)
  // ---------------------------------------------------------------------------

  /** The code point of a four-byte UTF-8 sequence. */
  function FromUtf8(s: Bytes): int
    requires |s| == 4
  {
    (s[0] as int - 0xf0) * 0x4_0000 + (s[1] as int - 0x80) * 0x1000 + (s[2] as int - 0x80) * 64 + (s[3] as int - 0x80)
  }

  predicate IsFourByteUtf8(s: Bytes) {
    |s| == 4 && 0xf0 <= s[0] <= 0xf4 && forall i :: 1 <= i < 4 ==> 0x80 <= s[i] <= 0xbf
  }

  /**
   Every high surrogate escape followed by a low one is combined into one code point in
   0x10000..0x10FFFF, written as four well-formed UTF-8 bytes that stand for it, and
   different pairs stand for different code points.
   */
  lemma SurrogatePair(s: Bytes)
    requires |s| >= 10 && Hex4(s).Some? && IsHigh(Hex4(s).value) && EscapeFollows(s[4..])
    requires Hex4(s[6..]).Some? && IsLow(Hex4(s[6..]).value)
    ensures var code := Combined(Hex4(s).value, Hex4(s[6..]).value);
            && UnicodeAt(s) == Parsed(Utf8(code), s[10..])
            && 0x1_0000 <= code <= 0x10_ffff
            && IsFourByteUtf8(Utf8(code)) && FromUtf8(Utf8(code)) == code
            && Hex4(s).value == 0xd800 + (code - 0x1_0000) / 1024
            && Hex4(s[6..]).value == 0xdc00 + (code - 0x1_0000) % 1024
  {
    hide Hex4;
    assert s[4..][2..] == s[6..] && s[4..][6..] == s[10..];
    FourBytes(Combined(Hex4(s).value, Hex4(s[6..]).value));
    Uncombined(Hex4(s).value, Hex4(s[6..]).value);
  }

  lemma FourBytes(code: nat)
    requires 0x1_0000 <= code <= 0x10_ffff
    ensures IsFourByteUtf8(Utf8(code)) && FromUtf8(Utf8(code)) == code
  {
    assert code / 64 / 64 == code / 0x1000;
    assert code / 0x1000 / 64 == code / 0x4_0000;
    assert code == 64 * (code / 64) + code % 64;
    assert code / 64 == 64 * (code / 64 / 64) + code / 64 % 64;
    assert code / 0x1000 == 64 * (code / 0x1000 / 64) + code / 0x1000 % 64;
  }

  lemma Uncombined(high: Word16, low: Word16)
    requires IsHigh(high) && IsLow(low)
    ensures high == 0xd800 + (Combined(high, low) - 0x1_0000) / 1024
    ensures low == 0xdc00 + (Combined(high, low) - 0x1_0000) % 1024
  {
    QuotientIs((high - 0xd800) * 1024 + (low - 0xdc00), 1024, high - 0xd800, low - 0xdc00);
  }

  // ---------------------------------------------------------------------------
  // Numbers
  // ---------------------------------------------------------------------------

  /** What follows a value in serialized text. */
  predicate Follows(rest: Bytes) {
    rest == [] || rest[0] == COMMA || rest[0] == CLOSE_BRACKET || rest[0] == CLOSE_BRACE
  }

  lemma {:induction false} RunOfDigits(digits: Bytes, rest: Bytes)
    requires AllDigits(digits) && (rest == [] || !IsDigit(rest[0]))
    ensures DigitRun(digits + rest) == |digits|
  {
    if digits == [] {
      assert digits + rest == rest;
    } else {
      assert (digits + rest)[1..] == digits[1..] + rest;
      RunOfDigits(digits[1..], rest);
    }
  }

  lemma TokenBack(sign: Bytes, digits: Bytes, rest: Bytes)
    requires (sign == [] || sign == [MINUS]) && digits != [] && AllDigits(digits) && Follows(rest)
    ensures TokenLength(sign + digits + rest) == |sign + digits|
  {
    hide DigitRun;
    var s := sign + digits + rest;
    assert IsDigit(digits[0]);
    assert s[|sign|..] == digits + rest;
    assert s[|sign + digits|..] == rest;
    RunOfDigits(digits, rest);
    assert s[0] == if sign == [] then digits[0] else MINUS;
  }

  lemma WholeBack(n: int, rest: Bytes, floats: Floats)
    requires -WHOLE_LIMIT < n < WHOLE_LIMIT && Follows(rest)
    ensures ParseNumber(WholeText(n) + rest, floats) == Parsed(Number(Whole(n)), rest)
    ensures var c := (WholeText(n) + rest)[0]; IsDigit(c) || c == MINUS
  {
    hide TokenLength, Digits, FromDigits, AllDigits;
    var digits := Digits(if n < 0 then -n else n);
    var sign := if n < 0 then [MINUS] else [];
    DigitsBack(if n < 0 then -n else n);
    var s := WholeText(n) + rest;
    assert WholeText(n) == sign + digits;
    TokenBack(sign, digits, rest);
    FirstIsDigit(digits);
    assert s[..|sign + digits|] == sign + digits;
    assert s[|sign + digits|..] == rest;
    assert n < 0 ==> (sign + digits)[1..] == digits;
    assert n >= 0 ==> sign + digits == digits;
  }

  lemma FirstIsDigit(digits: Bytes)
    requires digits != [] && AllDigits(digits)
    ensures IsDigit(digits[0])
  {
  }

  // ---------------------------------------------------------------------------
  // Values
  // ---------------------------------------------------------------------------

  /** Whole numbers below the limit, and members in key order as `std::map` keeps them. */
  ghost predicate Exact(v: Json) {
    match v
    case Number(Whole(n)) => -WHOLE_LIMIT < n < WHOLE_LIMIT
    case Number(Other(_)) => false
    case Array(items) => forall i :: 0 <= i < |items| ==> Exact(items[i])
    case Object(members) => Sorted(members) && forall i :: 0 <= i < |members| ==> Exact(members[i].value)
    case _ => true
  }

  lemma TextStart(v: Json, floats: Floats)
    requires Exact(v)
    ensures Text(v, floats) != [] && !IsBlank(Text(v, floats)[0]) && Text(v, floats)[0] != CLOSE_BRACKET
  {
    hide MoreItems, MoreMembers, MemberText, EscapedAll;
    match v
    case Number(Whole(n)) =>
      WholeBack(n, [], floats);
      assert WholeText(n) + [] == WholeText(n);
    case _ =>
  }

  lemma SkipNothing(c: Byte, rest: Bytes)
    requires !IsBlank(c)
    ensures Skip([c] + rest) == [c] + rest && ([c] + rest)[1..] == rest
  {
  }

  lemma LiteralBack(v: Json, rest: Bytes, floats: Floats)
    requires v.Null? || v.Boolean?
    ensures ParseValue(Text(v, floats) + rest, floats) == Parsed(v, rest)
  {
    hide ParseObject, ParseArray, ParseNumber, ParseString;
    var s := Text(v, floats) + rest;
    assert Text(v, floats) <= s;
    assert s[|Text(v, floats)|..] == rest;
    assert s[0] == Text(v, floats)[0];
  }

  lemma ScalarBack(v: Json, rest: Bytes, floats: Floats)
    requires (v.Number? || v.String?) && Exact(v) && Follows(rest)
    ensures ParseValue(Text(v, floats) + rest, floats) == Parsed(v, rest)
  {
    hide ParseObject, ParseArray, ParseNumber, ParseString, WholeText, Quoted;
    match v
    case Number(Whole(n)) => WholeBack(n, rest, floats);
    case String(text) => QuotedBack(text, rest);
  }

  /** Parsing the text of a value gives the value, whatever follows it. */
  lemma {:induction false} ValueBack(v: Json, rest: Bytes, floats: Floats)
    requires Exact(v) && Follows(rest)
    ensures ParseValue(Text(v, floats) + rest, floats) == Parsed(v, rest)
    decreases v, 2
  {
    hide ParseValue, Text, Exact;
    match v
    case Array(items) => ArrayValueBack(v, rest, floats);
    case Object(members) => ObjectValueBack(v, rest, floats);
    case Number(_) => ScalarBack(v, rest, floats);
    case String(_) => ScalarBack(v, rest, floats);
    case _ => LiteralBack(v, rest, floats);
  }

  lemma {:induction false} ArrayValueBack(v: Json, rest: Bytes, floats: Floats)
    requires v.Array? && Exact(v)
    ensures ParseValue(Text(v, floats) + rest, floats) == Parsed(v, rest)
    decreases v, 1
  {
    hide ParseObject, ParseArray, ParseNumber, ParseString, MoreItems;
    var items := v.items;
    var inner := (if items == [] then [CLOSE_BRACKET] else Text(items[0], floats) + MoreItems(items, 1, floats)) + rest;
    assert Text(v, floats) + rest == [OPEN_BRACKET] + inner;
    assert ([OPEN_BRACKET] + inner)[1..] == inner;
    ArrayBack(items, rest, floats);
  }

  lemma {:induction false} ObjectValueBack(v: Json, rest: Bytes, floats: Floats)
    requires v.Object? && Exact(v)
    ensures ParseValue(Text(v, floats) + rest, floats) == Parsed(v, rest)
    decreases v, 1
  {
    hide ParseObject, ParseArray, ParseNumber, ParseString, MoreMembers, MemberText, Less;
    var members := v.members;
    var inner := (if members == [] then [CLOSE_BRACE]
                  else MemberText(members[0], floats) + MoreMembers(members, 1, floats)) + rest;
    assert Text(v, floats) + rest == [OPEN_BRACE] + inner;
    assert ([OPEN_BRACE] + inner)[1..] == inner;
    ObjectBack(members, rest, floats);
  }

  lemma {:induction false} ArrayBack(items: seq<Json>, rest: Bytes, floats: Floats)
    requires forall i :: 0 <= i < |items| ==> Exact(items[i])
    ensures var inner :=
              (if items == [] then [CLOSE_BRACKET] else Text(items[0], floats) + MoreItems(items, 1, floats)) + rest;
            ParseArray(inner, floats) == Parsed(Array(items), rest)
    decreases items, |items| + 1
  {
    hide ParseItems, Text, MoreItems, Exact;
    if items == [] {
      SkipNothing(CLOSE_BRACKET, rest);
      assert [CLOSE_BRACKET] + rest == ([CLOSE_BRACKET] + rest);
    } else {
      TextStart(items[0], floats);
      ItemsBack(items, 0, rest, floats);
      var inner := Text(items[0], floats) + MoreItems(items, 1, floats) + rest;
      assert inner == Text(items[0], floats) + (MoreItems(items, 1, floats) + rest);
      assert inner[0] == Text(items[0], floats)[0];
      assert items[0..] == items;
    }
  }

  lemma {:induction false} ItemsBack(items: seq<Json>, index: nat, rest: Bytes, floats: Floats)
    requires index < |items| && forall i :: 0 <= i < |items| ==> Exact(items[i])
    ensures ParseItems(Text(items[index], floats) + (MoreItems(items, index + 1, floats) + rest), floats) ==
            Parsed(items[index..], rest)
    decreases items, |items| - index
  {
    hide ParseValue, Text, Exact, Skip, MoreItems, ParseItems;
    var more := MoreItems(items, index + 1, floats) + rest;
    var s := Text(items[index], floats) + more;
    MoreItemsFrom(items, index + 1, floats);
    TextStart(items[index], floats);
    SkipValue(s);
    ItemsUnfold(s, floats);
    if index + 1 == |items| {
      assert more == [CLOSE_BRACKET] + rest;
      SkipNothing(CLOSE_BRACKET, rest);
      ValueBack(items[index], more, floats);
      assert items[index..] == [items[index]];
    } else {
      var next := Text(items[index + 1], floats) + (MoreItems(items, index + 2, floats) + rest);
      assert more == [COMMA] + next;
      SkipNothing(COMMA, next);
      ValueBack(items[index], more, floats);
      ItemsBack(items, index + 1, rest, floats);
      assert items[index..] == [items[index]] + items[index + 1..];
    }
  }

  lemma SkipValue(s: Bytes)
    requires s != [] && !IsBlank(s[0])
    ensures Skip(s) == s
  {
  }

  lemma MoreItemsFrom(items: seq<Json>, index: nat, floats: Floats)
    requires index <= |items|
    ensures MoreItems(items, index, floats) ==
            if index == |items| then [CLOSE_BRACKET]
            else [COMMA] + (Text(items[index], floats) + MoreItems(items, index + 1, floats))
  {
    hide Text;
  }

  lemma {:induction false} ObjectBack(members: seq<Entry<Json>>, rest: Bytes, floats: Floats)
    requires Sorted(members) && forall i :: 0 <= i < |members| ==> Exact(members[i].value)
    ensures var inner := (if members == [] then [CLOSE_BRACE]
                          else MemberText(members[0], floats) + MoreMembers(members, 1, floats)) + rest;
            ParseObject(inner, floats) == Parsed(Object(members), rest)
    decreases members, |members| + 1
  {
    hide ParseMembers, Text, MoreMembers, Exact, MemberText, EscapedAll, Emplace, Less;
    if members == [] {
      SkipNothing(CLOSE_BRACE, rest);
    } else {
      MembersBack(members, 0, rest, floats);
      assert members[..0] == [];
      MemberStart(members[0], floats);
      var inner := MemberText(members[0], floats) + MoreMembers(members, 1, floats) + rest;
      assert inner == MemberText(members[0], floats) + (MoreMembers(members, 1, floats) + rest);
      assert inner[0] == QUOTE;
    }
  }

  lemma MemberStart(member: Entry<Json>, floats: Floats)
    ensures MemberText(member, floats) != [] && MemberText(member, floats)[0] == QUOTE
  {
    hide Text, EscapedAll;
  }

  lemma {:induction false} MemberBack(member: Entry<Json>, rest: Bytes, floats: Floats)
    requires Exact(member.value) && Follows(rest)
    ensures ParseMember(MemberText(member, floats) + rest, floats) == Parsed(member, rest)
    decreases member, 3
  {
    hide ParseValue, Text, Exact, Quoted, ParseString;
    var value := Text(member.value, floats) + rest;
    var s := MemberText(member, floats) + rest;
    assert s == Quoted(member.key) + ([COLON] + value);
    QuotedBack(member.key, [COLON] + value);
    SkipNothing(COLON, value);
    TextStart(member.value, floats);
    SkipValue(value);
    ValueBack(member.value, rest, floats);
    SkipValue(s);
  }

  lemma {:induction false} MembersBack(members: seq<Entry<Json>>, index: nat, rest: Bytes, floats: Floats)
    requires index < |members| && Sorted(members) && forall i :: 0 <= i < |members| ==> Exact(members[i].value)
    ensures ParseMembers(MemberText(members[index], floats) + (MoreMembers(members, index + 1, floats) + rest),
                         members[..index], floats) == Parsed(members, rest)
    decreases members, |members| - index
  {
    hide ParseValue, Text, Exact, Skip, MoreMembers, ParseMembers, ParseMember, MemberText, Emplace, Less;
    var member := members[index];
    var more := MoreMembers(members, index + 1, floats) + rest;
    var s := MemberText(member, floats) + more;
    MoreMembersFrom(members, index + 1, floats);
    MembersUnfold(s, members[..index], floats);
    EmplaceAppends(members[..index], member.key, member.value);
    assert members[..index] + [Entry(member.key, member.value)] == members[..index + 1];
    if index + 1 == |members| {
      assert more == [CLOSE_BRACE] + rest;
      SkipNothing(CLOSE_BRACE, rest);
      MemberBack(member, more, floats);
      assert members[..index + 1] == members;
    } else {
      var next := MemberText(members[index + 1], floats) + (MoreMembers(members, index + 2, floats) + rest);
      assert more == [COMMA] + next;
      SkipNothing(COMMA, next);
      MemberBack(member, more, floats);
      MembersBack(members, index + 1, rest, floats);
    }
  }

  lemma MoreMembersFrom(members: seq<Entry<Json>>, index: nat, floats: Floats)
    requires index <= |members|
    ensures MoreMembers(members, index, floats) ==
            if index == |members| then [CLOSE_BRACE]
            else [COMMA] + (MemberText(members[index], floats) + MoreMembers(members, index + 1, floats))
  {
    hide MemberText;
  }

  /**
   The round trip: every value whose numbers are whole and below 10^15 in magnitude, with
   arbitrary byte strings and keys, comes back from its text.
   */
  lemma JsonRoundTrip(v: Json, floats: Floats)
    requires Exact(v)
    ensures ParseDocument(Text(v, floats), floats) == Ok(v)
  {
    hide ParseValue, Text, Exact;
    TextStart(v, floats);
    SkipValue(Text(v, floats));
    ValueBack(v, [], floats);
    assert Text(v, floats) + [] == Text(v, floats);
  }
}
