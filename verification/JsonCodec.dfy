/** The JSON serializer, which appends to a buffer, and the parser, which advances a position. */
module JsonCodec {
  import opened Words
  import opened Dictionaries
  import opened Decimal
  import opened JsonFormat

  // ---------------------------------------------------------------------------
  // Serializing
  // ---------------------------------------------------------------------------

  method SerializeString(text: Bytes, out: ByteVector)
    modifies out
    ensures out.bytes == old(out.bytes) + Quoted(text)
  {
    hide Escaped;
    out.Push(QUOTE);
    assert text[0..] == text;
    for i := 0 to |text|
      invariant out.bytes + EscapedAll(text[i..]) == old(out.bytes) + [QUOTE] + EscapedAll(text)
    {
      assert text[i..][1..] == text[i + 1..];
      out.Insert(Escaped(text[i]));
    }
    assert out.bytes + [] == out.bytes;
    out.Push(QUOTE);
  }

  method SerializeNumber(number: JsonNumber, floats: Floats, out: ByteVector)
    modifies out
    ensures out.bytes == old(out.bytes) + Text(Number(number), floats)
  {
    match number
    case Whole(n) => out.Insert(WholeText(n));
    case Other(bits) => out.Insert(floats.show(bits));
  }

  method Serialize(v: Json, floats: Floats, out: ByteVector)
    modifies out
    ensures out.bytes == old(out.bytes) + Text(v, floats)
    decreases v, 1
  {
    hide MoreItems, MoreMembers, Quoted, WholeText;
    if v.Array? {
      SerializeItems(v, floats, out);
    } else if v.Object? {
      SerializeMembers(v, floats, out);
    } else if v.Number? {
      SerializeNumber(v.number, floats, out);
    } else if v.String? {
      SerializeString(v.text, out);
    } else {
      out.Insert(if v.Null? then NULL else if v.flag then TRUE else FALSE);
    }
  }

  method SerializeItems(v: Json, floats: Floats, out: ByteVector)
    requires v.Array?
    modifies out
    ensures out.bytes == old(out.bytes) + Text(v, floats)
    decreases v, 0
  {
    hide Text, MoreItems;
    var items := v.items;
    out.Push(OPEN_BRACKET);
    var first := true;
    ArrayText(v, floats);
    for i := 0 to |items|
      invariant first <==> i == 0
      invariant out.bytes + ItemsLeft(items, i, floats) == old(out.bytes) + Text(v, floats)
    {
      ItemsLeftFrom(items, i, floats);
      if !first {
        out.Push(COMMA);
      }
      first := false;
      Serialize(items[i], floats, out);
    }
    ItemsLeftFrom(items, |items|, floats);
    out.Push(CLOSE_BRACKET);
  }

  method SerializeMember(member: Entry<Json>, floats: Floats, out: ByteVector)
    modifies out
    ensures out.bytes == old(out.bytes) + MemberText(member, floats)
    decreases member, 0
  {
    hide Text, Quoted;
    SerializeString(member.key, out);
    out.Push(COLON);
    Serialize(member.value, floats, out);
  }

  method SerializeMembers(v: Json, floats: Floats, out: ByteVector)
    requires v.Object?
    modifies out
    ensures out.bytes == old(out.bytes) + Text(v, floats)
    decreases v, 0
  {
    hide Text, MoreMembers, MemberText;
    var members := v.members;
    out.Push(OPEN_BRACE);
    var first := true;
    ObjectText(v, floats);
    for i := 0 to |members|
      invariant first <==> i == 0
      invariant out.bytes + MembersLeft(members, i, floats) == old(out.bytes) + Text(v, floats)
    {
      MembersLeftFrom(members, i, floats);
      ghost var before := out.bytes;
      if !first {
        out.Push(COMMA);
      }
      first := false;
      SerializeMember(members[i], floats, out);
      assert out.bytes == before + ((if i == 0 then [] else [COMMA]) + MemberText(members[i], floats));
    }
    MembersLeftFrom(members, |members|, floats);
    out.Push(CLOSE_BRACE);
  }

  /** The text from item `index` on: only the first item has no comma before it. */
  ghost function ItemsLeft(items: seq<Json>, index: nat, floats: Floats): Bytes
    requires index <= |items|
  {
    if index == 0 && items != [] then Text(items[0], floats) + MoreItems(items, 1, floats)
    else MoreItems(items, index, floats)
  }

  lemma ItemsLeftFrom(items: seq<Json>, index: nat, floats: Floats)
    requires index <= |items|
    ensures ItemsLeft(items, index, floats) ==
            if index == |items| then [CLOSE_BRACKET]
            else (if index == 0 then [] else [COMMA]) + Text(items[index], floats) + ItemsLeft(items, index + 1, floats)
  {
    hide Text;
  }

  lemma ArrayText(v: Json, floats: Floats)
    requires v.Array?
    ensures Text(v, floats) == [OPEN_BRACKET] + ItemsLeft(v.items, 0, floats)
  {
    assert MoreItems([], 0, floats) == [CLOSE_BRACKET];
  }

  ghost function MembersLeft(members: seq<Entry<Json>>, index: nat, floats: Floats): Bytes
    requires index <= |members|
  {
    if index == 0 && members != [] then MemberText(members[0], floats) + MoreMembers(members, 1, floats)
    else MoreMembers(members, index, floats)
  }

  lemma MembersLeftFrom(members: seq<Entry<Json>>, index: nat, floats: Floats)
    requires index <= |members|
    ensures MembersLeft(members, index, floats) ==
            if index == |members| then [CLOSE_BRACE]
            else (if index == 0 then [] else [COMMA]) + MemberText(members[index], floats) +
                 MembersLeft(members, index + 1, floats)
  {
    hide MemberText;
  }

  lemma ObjectText(v: Json, floats: Floats)
    requires v.Object?
    ensures Text(v, floats) == [OPEN_BRACE] + MembersLeft(v.members, 0, floats)
  {
    hide MemberText;
    assert MoreMembers([], 0, floats) == [CLOSE_BRACE];
  }

  method ToText(v: Json, floats: Floats) returns (text: Bytes)
    ensures text == Text(v, floats)
  {
    var out := new ByteVector();
    Serialize(v, floats, out);
    text := out.bytes;
  }

  // ---------------------------------------------------------------------------
  // Parsing
  // ---------------------------------------------------------------------------

  class Parser {
    const text: Bytes
    const floats: Floats
    var position: nat

    ghost predicate Valid()
      reads this
    {
      position <= |text|
    }

    ghost function Rest(): Bytes
      requires Valid()
      reads this
    {
      text[position..]
    }

    constructor (text: Bytes, floats: Floats)
      ensures Valid() && this.floats == floats && Rest() == text
    {
      this.text, this.floats, position := text, floats, 0;
    }

    /** Whether the next character is `c`; nothing is next at the end. */
    predicate Next(c: Byte)
      requires Valid()
      reads this
      ensures Next(c) == Peeks(Rest(), c)
    {
      position < |text| && text[position] == c
    }

    /** Moves past the next character. */
    method Step()
      requires Valid() && position < |text|
      modifies this
      ensures Valid() && Rest() == old(Rest())[1..] && position == old(position) + 1
    {
      assert Rest()[1..] == text[position + 1..];
      position := position + 1;
    }

    method SkipWhitespace()
      requires Valid()
      modifies this
      ensures Valid() && Rest() == Skip(old(Rest()))
    {
      while position < |text| && IsBlank(text[position])
        invariant Valid() && Skip(Rest()) == Skip(old(Rest()))
        decreases |text| - position
      {
        Step();
      }
    }

    /** Reads one value. */
    method ReadValue() returns (value: Result<Json>)
      requires Valid()
      modifies this
      ensures Valid()
      ensures var d := ParseValue(old(Rest()), floats);
              if d.Failed? then value == Err(Protocol) else value == Ok(d.value) && Rest() == d.rest
      decreases |text| - position, 0
    {
      hide ParseObject, ParseArray, ParseNumber, ParseString, ParseLiteral;
      if Next(OPEN_BRACE) {
        Step();
        value := ReadObject();
      } else if Next(OPEN_BRACKET) {
        Step();
        value := ReadArray();
      } else if Next(QUOTE) {
        var s := ReadString();
        return if s.Ok? then Ok(String(s.value)) else Err(Protocol);
      } else if position < |text| && text[position] in {0x74, 0x66, 0x6e} {
        value := ReadLiteral();
      } else {
        value := ReadNumber();
      }
    }

    method ReadLiteral() returns (value: Result<Json>)
      requires Valid() && position < |text| && text[position] in {0x74, 0x66, 0x6e}
      modifies this
      ensures Valid()
      ensures var d := ParseLiteral(old(Rest()));
              if d.Failed? then value == Err(Protocol) else value == Ok(d.value) && Rest() == d.rest
    {
      var first := text[position];
      var literal := if first == 0x74 then TRUE else if first == 0x66 then FALSE else NULL;
      ghost var s := Rest();
      assert s[0] == first;
      assert TRUE[0] == 0x74 && FALSE[0] == 0x66 && NULL[0] == 0x6e;
      assert position + |literal| <= |text| ==> s[..|literal|] == text[position..position + |literal|];
      if position + |literal| > |text| || text[position..position + |literal|] != literal {
        return Err(Protocol);
      }
      assert s[..|literal|] == literal && s[|literal|..] == text[position + |literal|..];
      position := position + |literal|;
      return Ok(if first == 0x74 then Boolean(true) else if first == 0x66 then Boolean(false) else Null);
    }

    /** Four hexadecimal digits from `at` on; the position does not move. */
    method ReadHex4(at: nat) returns (value: Option<Word16>)
      requires at <= |text|
      ensures value == Hex4(text[at..])
    {
      hide HexValue;
      if at + 4 > |text| {
        return None;
      }
      ghost var s := text[at..];
      var total := 0;
      for i := 0 to 4
        invariant forall j :: 0 <= j < i ==> HexValue(s[j]) >= 0
        invariant 0 <= total && (i == 0 ==> total == 0) && (i == 1 ==> total == HexValue(s[0]))
        invariant i == 2 ==> total == 16 * HexValue(s[0]) + HexValue(s[1])
        invariant i == 3 ==> total == 256 * HexValue(s[0]) + 16 * HexValue(s[1]) + HexValue(s[2])
        invariant i == 4 ==>
                    total == 4096 * HexValue(s[0]) + 256 * HexValue(s[1]) + 16 * HexValue(s[2]) + HexValue(s[3])
      {
        var digit := HexValue(text[at + i]);
        assert text[at + i] == s[i];
        if digit < 0 {
          return None;
        }
        total := total * 16 + digit;
      }
      assert HexValue(s[0]) < 16 && HexValue(s[1]) < 16 && HexValue(s[2]) < 16 && HexValue(s[3]) < 16;
      return Some(total);
    }

    /** A unicode escape after its `u`. */
    method ReadUnicode() returns (bytes: Result<Bytes>)
      requires Valid()
      modifies this
      ensures Valid()
      ensures var d := UnicodeAt(old(Rest()));
              if d.Failed? then bytes == Err(Protocol) else bytes == Ok(d.value) && Rest() == d.rest
    {
      hide Hex4, Utf8;
      ghost var s := Rest();
      var high := ReadHex4(position);
      if high.None? {
        return Err(Protocol);
      }
      position := position + 4;
      assert Rest() == s[4..];
      if IsHigh(high.value) && position + 6 <= |text| && text[position] == BACKSLASH && text[position + 1] == LETTER_U {
        var low := ReadHex4(position + 2);
        assert s[4..][2..] == text[position + 2..];
        if low.None? {
          return Err(Protocol);
        }
        if IsLow(low.value) {
          assert s[4..][6..] == text[position + 6..];
          position := position + 6;
          return Ok(Utf8(Combined(high.value, low.value)));
        }
      }
      return Ok(Utf8(high.value));
    }

    /** An escape after its backslash. */
    method ReadEscape() returns (bytes: Result<Bytes>)
      requires Valid()
      modifies this
      ensures Valid()
      ensures var d := EscapeAt(old(Rest()));
              if d.Failed? then bytes == Err(Protocol) else bytes == Ok(d.value) && Rest() == d.rest
    {
      hide UnicodeAt;
      if position == |text| {
        return Err(Protocol);
      }
      var c := text[position];
      Step();
      if c == QUOTE || c == BACKSLASH || c == 0x2f {
        return Ok([c]);
      } else if c == 0x62 {
        return Ok([0x08]);
      } else if c == 0x66 {
        return Ok([0x0c]);
      } else if c == 0x6e {
        return Ok([0x0a]);
      } else if c == 0x72 {
        return Ok([0x0d]);
      } else if c == 0x74 {
        return Ok([0x09]);
      } else if c == LETTER_U {
        bytes := ReadUnicode();
      } else {
        return Err(Protocol);
      }
    }

    method ReadString() returns (value: Result<Bytes>)
      requires Valid()
      modifies this
      ensures Valid()
      ensures var d := ParseString(old(Rest()));
              if d.Failed? then value == Err(Protocol) else value == Ok(d.value) && Rest() == d.rest
    {
      hide StringFrom, EscapeAt;
      if !Next(QUOTE) {
        return Err(Protocol);
      }
      Step();
      var out: Bytes := [];
      ghost var whole := StringFrom(Rest());
      PrefixedNothing(whole);
      while true
        invariant Valid() && whole == Prefixed(out, StringFrom(Rest()))
        decreases |text| - position
      {
        StringStep(Rest());
        if position == |text| {
          return Err(Protocol);
        }
        var c := text[position];
        Step();
        if c == QUOTE {
          assert out + [] == out;
          return Ok(out);
        }
        if c != BACKSLASH {
          PrefixedTwice(out, [c], StringFrom(Rest()));
          out := out + [c];
        } else {
          var escape := ReadEscape();
          if escape.Err? {
            return Err(Protocol);
          }
          PrefixedTwice(out, escape.value, StringFrom(Rest()));
          out := out + escape.value;
        }
      }
    }

    /** Moves past digits. */
    method SkipDigits()
      requires Valid()
      modifies this
      ensures Valid() && position == old(position) + DigitRun(old(Rest()))
    {
      ghost var n := DigitRun(Rest());
      while position < |text| && IsDigit(text[position])
        invariant Valid() && old(position) <= position && position + DigitRun(Rest()) == old(position) + n
        decreases |text| - position
      {
        Step();
      }
    }

    method SkipWhole()
      requires Valid()
      modifies this
      ensures Valid() && position == old(position) + WholePart(old(Rest()))
    {
      hide DigitRun;
      if Next(MINUS) {
        Step();
      }
      SkipDigits();
    }

    method SkipFraction()
      requires Valid()
      modifies this
      ensures Valid() && position == old(position) + FractionPart(old(Rest()))
    {
      hide DigitRun;
      if Next(0x2e) {
        Step();
        SkipDigits();
      }
    }

    method SkipExponent()
      requires Valid()
      modifies this
      ensures Valid() && position == old(position) + ExponentPart(old(Rest()))
    {
      hide DigitRun;
      ghost var s := Rest();
      if Next(0x65) || Next(0x45) {
        Step();
        if Next(0x2b) || Next(MINUS) {
          Step();
          assert Rest() == s[2..];
        }
        SkipDigits();
      }
    }

    method ReadNumber() returns (value: Result<Json>)
      requires Valid()
      modifies this
      ensures Valid()
      ensures var d := ParseNumber(old(Rest()), floats);
              if d.Failed? then value == Err(Protocol) else value == Ok(d.value) && Rest() == d.rest
    {
      hide WholePart, FractionPart, ExponentPart, NumberOf;
      var start := position;
      ghost var s := Rest();
      SkipWhole();
      assert Rest() == s[position - start..];
      SkipFraction();
      assert Rest() == s[position - start..];
      SkipExponent();
      assert Rest() == s[position - start..];
      var token := text[start..position];
      assert token == s[..position - start];
      var number := NumberOf(token, floats);
      return if number.None? then Err(Protocol) else Ok(Number(number.value));
    }

    /** The items of an array after its bracket. */
    method ReadArray() returns (value: Result<Json>)
      requires Valid()
      modifies this
      ensures Valid()
      ensures var d := ParseArray(old(Rest()), floats);
              if d.Failed? then value == Err(Protocol) else value == Ok(d.value) && Rest() == d.rest
      decreases |text| - position, 2
    {
      hide ParseItems, ParseValue, Skip;
      SkipWhitespace();
      if Next(CLOSE_BRACKET) {
        Step();
        return Ok(Array([]));
      }
      var items: seq<Json> := [];
      ghost var whole := ParseItems(Rest(), floats);
      PrependNothing(whole);
      while true
        invariant Valid() && old(position) <= position && whole == Prepend(items, ParseItems(Rest(), floats))
        decreases |text| - position
      {
        ItemsUnfold(Rest(), floats);
        SkipWhitespace();
        var item := ReadValue();
        if item.Err? {
          return Err(Protocol);
        }
        SkipWhitespace();
        if Next(COMMA) {
          Step();
          PrependTwice(items, [item.value], ParseItems(Rest(), floats));
          items := items + [item.value];
        } else if Next(CLOSE_BRACKET) {
          Step();
          return Ok(Array(items + [item.value]));
        } else {
          return Err(Protocol);
        }
      }
    }

    method ReadMember() returns (member: Result<Entry<Json>>)
      requires Valid()
      modifies this
      ensures Valid()
      ensures var d := ParseMember(old(Rest()), floats);
              if d.Failed? then member == Err(Protocol) else member == Ok(d.value) && Rest() == d.rest
      decreases |text| - position, 1
    {
      hide ParseValue, ParseString, Skip;
      SkipWhitespace();
      var key := ReadString();
      if key.Err? {
        return Err(Protocol);
      }
      SkipWhitespace();
      if !Next(COLON) {
        return Err(Protocol);
      }
      Step();
      SkipWhitespace();
      var value := ReadValue();
      return if value.Err? then Err(Protocol) else Ok(Entry(key.value, value.value));
    }

    method ReadObject() returns (value: Result<Json>)
      requires Valid()
      modifies this
      ensures Valid()
      ensures var d := ParseObject(old(Rest()), floats);
              if d.Failed? then value == Err(Protocol) else value == Ok(d.value) && Rest() == d.rest
      decreases |text| - position, 3
    {
      hide ParseMembers, ParseMember, Skip, Emplace;
      SkipWhitespace();
      if Next(CLOSE_BRACE) {
        Step();
        return Ok(Object([]));
      }
      var members: seq<Entry<Json>> := [];
      ghost var whole := ParseMembers(Rest(), [], floats);
      while true
        invariant Valid() && old(position) <= position && whole == ParseMembers(Rest(), members, floats)
        decreases |text| - position
      {
        MembersUnfold(Rest(), members, floats);
        var member := ReadMember();
        if member.Err? {
          return Err(Protocol);
        }
        members := Emplace(members, member.value.key, member.value.value);
        SkipWhitespace();
        if Next(COMMA) {
          Step();
        } else if Next(CLOSE_BRACE) {
          Step();
          return Ok(Object(members));
        } else {
          return Err(Protocol);
        }
      }
    }
  }

  method ParseText(text: Bytes, floats: Floats) returns (value: Result<Json>)
    ensures value == ParseDocument(text, floats)
  {
    hide ParseValue, Skip;
    var parser := new Parser(text, floats);
    parser.SkipWhitespace();
    value := parser.ReadValue();
    if value.Err? {
      return Err(Protocol);
    }
    parser.SkipWhitespace();
    if parser.position < |parser.text| {
      return Err(Protocol);
    }
  }

  lemma PrefixedNothing(r: Parse<Bytes>)
    ensures Prefixed([], r) == r
  {
    assert r.Parsed? ==> [] + r.value == r.value;
  }
}
