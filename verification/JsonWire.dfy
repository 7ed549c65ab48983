/** The bytes of JSON texts as they are serialized, written out. */
module JsonWire {
  import opened Words
  import opened Dictionaries
  import opened Decimal
  import opened JsonFormat

  const HEX: Bytes := [0x30, 0x31, 0x32, 0x33, 0x34, 0x35, 0x36, 0x37, 0x38, 0x39,
                       0x61, 0x62, 0x63, 0x64, 0x65, 0x66]

  /** Quotes, backslashes and control bytes are escaped, the others of all bytes are not. */
  function Character(c: Byte): Bytes {
    match c
    case 0x22 => [0x5c, 0x22]
    case 0x5c => [0x5c, 0x5c]
    case 0x08 => [0x5c, 0x62]
    case 0x0c => [0x5c, 0x66]
    case 0x0a => [0x5c, 0x6e]
    case 0x0d => [0x5c, 0x72]
    case 0x09 => [0x5c, 0x74]
    case _ => if c < 0x20 then [0x5c, 0x75, 0x30, 0x30, HEX[c / 16], HEX[c % 16]] else [c]
  }

  function Characters(text: Bytes): Bytes {
    if text == [] then [] else Character(text[0]) + Characters(text[1..])
  }

  function Quotation(text: Bytes): Bytes {
    [0x22] + Characters(text) + [0x22]
  }

  function Print(v: Json, floats: Floats): Bytes
    decreases v
  {
    match v
    case Null => [0x6e, 0x75, 0x6c, 0x6c]
    case Boolean(flag) => if flag then [0x74, 0x72, 0x75, 0x65] else [0x66, 0x61, 0x6c, 0x73, 0x65]
    case Number(Whole(n)) => if n < 0 then [0x2d] + Digits(-n) else Digits(n)
    case Number(Other(bits)) => floats.show(bits)
    case String(text) => Quotation(text)
    case Array(items) => [0x5b] + (PrintItems(items, floats) + [0x5d])
    case Object(members) => [0x7b] + (PrintMembers(members, floats) + [0x7d])
  }

  /** Items with a comma between each two. */
  function PrintItems(items: seq<Json>, floats: Floats): Bytes
    decreases items
  {
    if items == [] then []
    else Print(items[0], floats) + if |items| == 1 then [] else [0x2c] + PrintItems(items[1..], floats)
  }

  function PrintMembers(members: seq<Entry<Json>>, floats: Floats): Bytes
    decreases members
  {
    if members == [] then []
    else
      Quotation(members[0].key) + ([0x3a] + Print(members[0].value, floats)) +
      if |members| == 1 then [] else [0x2c] + PrintMembers(members[1..], floats)
  }

  lemma HexIs(d: nat)
    requires d < 16
    ensures HexDigit(d) == HEX[d]
  {
  }

  lemma CharacterIs(c: Byte)
    ensures Escaped(c) == Character(c)
  {
    hide HexDigit;
    HexIs(c / 16);
    HexIs(c % 16);
  }

  lemma {:induction false} QuotationIs(text: Bytes)
    ensures EscapedAll(text) == Characters(text) && Quoted(text) == Quotation(text)
  {
    hide Escaped, Character;
    if text != [] {
      CharacterIs(text[0]);
      QuotationIs(text[1..]);
    }
  }

  /** What every value is serialized as. */
  lemma {:induction false} TextIs(v: Json, floats: Floats)
    ensures Text(v, floats) == Print(v, floats)
    decreases v, 2
  {
    hide Quoted, Quotation, MoreItems, MoreMembers, PrintItems, PrintMembers, Digits;
    match v
    case String(text) => QuotationIs(text);
    case Array(items) => ItemsAre(items, floats);
    case Object(members) => MembersAre(members, floats);
    case _ =>
  }

  /** A list of parts with commas between them, and the bracket after it. */
  lemma {:induction false} ItemsAre(items: seq<Json>, floats: Floats)
    ensures (if items == [] then [0x5d] else Text(items[0], floats) + MoreItems(items, 1, floats)) ==
            PrintItems(items, floats) + [0x5d]
    decreases items
  {
    hide Text, Print, MoreItems;
    if items != [] {
      TextIs(items[0], floats);
      MoreItemsStep(items, floats);
      ItemsAre(items[1..], floats);
      Joined(Print(items[0], floats), PrintItems(items[1..], floats), [0x5d]);
    }
  }

  lemma Joined(a: Bytes, b: Bytes, end: Bytes)
    ensures a + ([0x2c] + (b + end)) == a + ([0x2c] + b) + end
    ensures a + end == a + [] + end
  {
  }

  lemma MoreItemsStep(items: seq<Json>, floats: Floats)
    requires items != []
    ensures MoreItems(items, 1, floats) ==
            if |items| == 1 then [0x5d]
            else [0x2c] + (Text(items[1..][0], floats) + MoreItems(items[1..], 1, floats))
  {
    hide Text, MoreItems;
    if |items| == 1 {
      NoMoreItems(items, floats);
    } else {
      NextItem(items, floats);
      Shift(items, 2, floats);
    }
  }

  lemma NoMoreItems(items: seq<Json>, floats: Floats)
    ensures MoreItems(items, |items|, floats) == [0x5d]
  {
  }

  lemma NextItem(items: seq<Json>, floats: Floats)
    requires |items| > 1
    ensures MoreItems(items, 1, floats) == [0x2c] + (Text(items[1], floats) + MoreItems(items, 2, floats))
  {
    hide Text;
  }

  lemma {:induction false} Shift(items: seq<Json>, index: nat, floats: Floats)
    requires 0 < index <= |items|
    ensures MoreItems(items, index, floats) == MoreItems(items[1..], index - 1, floats)
    decreases |items| - index
  {
    hide Text;
    if index < |items| {
      Shift(items, index + 1, floats);
    }
  }

  lemma {:induction false} MembersAre(members: seq<Entry<Json>>, floats: Floats)
    ensures (if members == [] then [0x7d] else MemberText(members[0], floats) + MoreMembers(members, 1, floats)) ==
            PrintMembers(members, floats) + [0x7d]
    decreases members
  {
    hide Text, Print, MoreMembers, Quoted, Quotation, MemberText;
    if members != [] {
      var m := members[0];
      MemberIs(m, floats);
      MoreMembersStep(members, floats);
      MembersAre(members[1..], floats);
      Joined(MemberText(m, floats), PrintMembers(members[1..], floats), [0x7d]);
    }
  }

  lemma {:induction false} MemberIs(m: Entry<Json>, floats: Floats)
    ensures MemberText(m, floats) == Quotation(m.key) + ([0x3a] + Print(m.value, floats))
    decreases m, 0
  {
    hide Text, Print, Quoted, Quotation;
    QuotationIs(m.key);
    TextIs(m.value, floats);
  }

  lemma MoreMembersStep(members: seq<Entry<Json>>, floats: Floats)
    requires members != []
    ensures MoreMembers(members, 1, floats) ==
            if |members| == 1 then [0x7d]
            else [0x2c] + (MemberText(members[1..][0], floats) + MoreMembers(members[1..], 1, floats))
  {
    hide MemberText, MoreMembers;
    if |members| == 1 {
      NoMoreMembers(members, floats);
    } else {
      NextMember(members, floats);
      ShiftMembers(members, 2, floats);
    }
  }

  lemma NoMoreMembers(members: seq<Entry<Json>>, floats: Floats)
    ensures MoreMembers(members, |members|, floats) == [0x7d]
  {
  }

  lemma NextMember(members: seq<Entry<Json>>, floats: Floats)
    requires |members| > 1
    ensures MoreMembers(members, 1, floats) ==
            [0x2c] + (MemberText(members[1], floats) + MoreMembers(members, 2, floats))
  {
    hide MemberText;
  }

  lemma {:induction false} ShiftMembers(members: seq<Entry<Json>>, index: nat, floats: Floats)
    requires 0 < index <= |members|
    ensures MoreMembers(members, index, floats) == MoreMembers(members[1..], index - 1, floats)
    decreases |members| - index
  {
    hide MemberText;
    if index < |members| {
      ShiftMembers(members, index + 1, floats);
    }
  }
}
