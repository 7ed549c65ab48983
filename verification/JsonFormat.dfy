/**
 JSON text (RFC 8259): how a value is serialized and how text is parsed. Strings are byte
 strings; numbers of integral value below 10^15 are exact.
 */
module JsonFormat {
  import opened Words
  import opened Dictionaries
  import opened Decimal

  const QUOTE: Byte := 0x22
  const BACKSLASH: Byte := 0x5c
  const COMMA: Byte := 0x2c
  const COLON: Byte := 0x3a
  const OPEN_BRACKET: Byte := 0x5b
  const CLOSE_BRACKET: Byte := 0x5d
  const OPEN_BRACE: Byte := 0x7b
  const CLOSE_BRACE: Byte := 0x7d
  const LETTER_U: Byte := 0x75
  const ZERO_DIGIT: Byte := 0x30

  const WHOLE_LIMIT: int := 1_000_000_000_000_000

  /** A number that prints as an integer, or any other double by its bit pattern. */
  datatype JsonNumber = Whole(n: int) | Other(bits: Word64)

  datatype Json =
    | Null
    | Boolean(flag: bool)
    | Number(number: JsonNumber)
    | String(text: Bytes)
    | Array(items: seq<Json>)
    | Object(members: seq<Entry<Json>>)

  /**
   The text of a number that is not whole, and what `from_chars` makes of a token that is
   not a whole number below the limit.
   */
  datatype Floats = Floats(show: Word64 -> Bytes, scan: Bytes -> Option<JsonNumber>)

  // ---------------------------------------------------------------------------
  // Serializing
  // ---------------------------------------------------------------------------

  /** The escape letter of a control character that has one, or 0. */
  function ShortEscape(c: Byte): Byte {
    if c == QUOTE then QUOTE
    else if c == BACKSLASH then BACKSLASH
    else if c == 0x08 then 0x62
    else if c == 0x0c then 0x66
    else if c == 0x0a then 0x6e
    else if c == 0x0d then 0x72
    else if c == 0x09 then 0x74
    else 0
  }

  function HexDigit(d: nat): Byte
    requires d < 16
  {
    if d < 10 then ZERO_DIGIT + d else 0x61 + (d - 10)
  }

  function Escaped(c: Byte): (s: Bytes)
    ensures s != []
  {
    if ShortEscape(c) != 0 then [BACKSLASH, ShortEscape(c)]
    else if c < 0x20 then [BACKSLASH, LETTER_U, ZERO_DIGIT, ZERO_DIGIT, HexDigit(c / 16), HexDigit(c % 16)]
    else [c]
  }

  function EscapedAll(text: Bytes): Bytes {
    if text == [] then [] else Escaped(text[0]) + EscapedAll(text[1..])
  }

  function Quoted(text: Bytes): Bytes {
    [QUOTE] + EscapedAll(text) + [QUOTE]
  }

  function WholeText(n: int): Bytes {
    if n < 0 then [MINUS] + Digits(-n) else Digits(n)
  }

  const TRUE: Bytes := [0x74, 0x72, 0x75, 0x65]
  const FALSE: Bytes := [0x66, 0x61, 0x6c, 0x73, 0x65]
  const NULL: Bytes := [0x6e, 0x75, 0x6c, 0x6c]

  function Text(v: Json, floats: Floats): Bytes
    decreases v, 2
  {
    match v
    case Null => NULL
    case Boolean(flag) => if flag then TRUE else FALSE
    case Number(Whole(n)) => WholeText(n)
    case Number(Other(bits)) => floats.show(bits)
    case String(text) => Quoted(text)
    case Array(items) =>
      [OPEN_BRACKET] + if items == [] then [CLOSE_BRACKET] else Text(items[0], floats) + MoreItems(items, 1, floats)
    case Object(members) =>
      [OPEN_BRACE] +
      if members == [] then [CLOSE_BRACE] else MemberText(members[0], floats) + MoreMembers(members, 1, floats)
  }

  /** The items from `index` on, each after a comma, and the closing bracket. */
  function MoreItems(items: seq<Json>, index: nat, floats: Floats): Bytes
    requires index <= |items|
    decreases items, |items| - index
  {
    if index == |items| then [CLOSE_BRACKET]
    else [COMMA] + (Text(items[index], floats) + MoreItems(items, index + 1, floats))
  }

  function MemberText(member: Entry<Json>, floats: Floats): Bytes
    decreases member, 0
  {
    Quoted(member.key) + ([COLON] + Text(member.value, floats))
  }

  function MoreMembers(members: seq<Entry<Json>>, index: nat, floats: Floats): Bytes
    requires index <= |members|
    decreases members, |members| - index
  {
    if index == |members| then [CLOSE_BRACE]
    else [COMMA] + (MemberText(members[index], floats) + MoreMembers(members, index + 1, floats))
  }

  // ---------------------------------------------------------------------------
  // Parsing: strings
  // ---------------------------------------------------------------------------

  datatype Parse<+T> = Failed | Parsed(value: T, rest: Bytes)

  predicate IsBlank(c: Byte) {
    c == 0x20 || c == 0x09 || c == 0x0a || c == 0x0d
  }

  function Skip(s: Bytes): (r: Bytes)
    ensures |r| <= |s| && (r != [] ==> !IsBlank(r[0]))
    ensures s != [] && !IsBlank(s[0]) ==> r == s
  {
    if s != [] && IsBlank(s[0]) then Skip(s[1..]) else s
  }

  predicate Peeks(s: Bytes, c: Byte) {
    s != [] && s[0] == c
  }

  function HexValue(c: Byte): (v: int)
    ensures -1 <= v < 16
  {
    if 0x30 <= c <= 0x39 then c - 0x30
    else if 0x61 <= c <= 0x66 then c - 0x61 + 10
    else if 0x41 <= c <= 0x46 then c - 0x41 + 10
    else -1
  }

  /** Four hexadecimal digits. */
  function Hex4(s: Bytes): (r: Option<Word16>)
    ensures r.Some? ==> |s| >= 4
  {
    if |s| < 4 || exists i :: 0 <= i < 4 && HexValue(s[i]) < 0 then None
    else
      assert HexValue(s[0]) >= 0 && HexValue(s[1]) >= 0 && HexValue(s[2]) >= 0 && HexValue(s[3]) >= 0;
      Some(0x1000 * HexValue(s[0]) + 0x100 * HexValue(s[1]) + 16 * HexValue(s[2]) + HexValue(s[3]))
  }

  /** The UTF-8 bytes of a code point. */
  function Utf8(code: nat): Bytes
    requires code < 0x11_0000
  {
    if code <= 0x7f then [code]
    else if code <= 0x7ff then [0xc0 + code / 64, 0x80 + code % 64]
    else if code <= 0xffff then [0xe0 + code / 0x1000, 0x80 + code / 64 % 64, 0x80 + code % 64]
    else [0xf0 + code / 0x4_0000, 0x80 + code / 0x1000 % 64, 0x80 + code / 64 % 64, 0x80 + code % 64]
  }

  predicate IsHigh(w: Word16) {
    0xd800 <= w <= 0xdbff
  }

  predicate IsLow(w: Word16) {
    0xdc00 <= w <= 0xdfff
  }

  /** The code point of a surrogate pair. */
  function Combined(high: Word16, low: Word16): (code: nat)
    requires IsHigh(high) && IsLow(low)
    ensures 0x1_0000 <= code <= 0x10_ffff
  {
    0x1_0000 + (high - 0xd800) * 1024 + (low - 0xdc00)
  }

  /** Whether another unicode escape follows in full. */
  predicate EscapeFollows(s: Bytes) {
    |s| >= 6 && s[0] == BACKSLASH && s[1] == LETTER_U
  }

  /** A unicode escape after its `u`: one code unit, or a surrogate pair combined. */
  function UnicodeAt(s: Bytes): (r: Parse<Bytes>)
    ensures r.Parsed? ==> |r.rest| < |s|
  {
    var high := Hex4(s);
    if high.None? then Failed
    else
      var rest := s[4..];
      if !IsHigh(high.value) || !EscapeFollows(rest) then Parsed(Utf8(high.value), rest)
      else
        var low := Hex4(rest[2..]);
        if low.None? then Failed
        else if IsLow(low.value) then Parsed(Utf8(Combined(high.value, low.value)), rest[6..])
        else Parsed(Utf8(high.value), rest)
  }

  /** An escape after its backslash. */
  function EscapeAt(s: Bytes): (r: Parse<Bytes>)
    ensures r.Parsed? ==> |r.rest| < |s|
  {
    if s == [] then Failed
    else if s[0] == QUOTE || s[0] == BACKSLASH || s[0] == 0x2f then Parsed([s[0]], s[1..])
    else if s[0] == 0x62 then Parsed([0x08], s[1..])
    else if s[0] == 0x66 then Parsed([0x0c], s[1..])
    else if s[0] == 0x6e then Parsed([0x0a], s[1..])
    else if s[0] == 0x72 then Parsed([0x0d], s[1..])
    else if s[0] == 0x74 then Parsed([0x09], s[1..])
    else if s[0] == LETTER_U then UnicodeAt(s[1..])
    else Failed
  }

  function Prefixed(done: Bytes, r: Parse<Bytes>): Parse<Bytes> {
    if r.Failed? then Failed else Parsed(done + r.value, r.rest)
  }

  /** The rest of a string, up to and past its closing quote. */
  function StringFrom(s: Bytes): (r: Parse<Bytes>)
    ensures r.Parsed? ==> |r.rest| < |s|
    decreases |s|
  {
    if s == [] then Failed
    else if s[0] == QUOTE then Parsed([], s[1..])
    else if s[0] != BACKSLASH then Prefixed([s[0]], StringFrom(s[1..]))
    else
      var escape := EscapeAt(s[1..]);
      if escape.Failed? then Failed else Prefixed(escape.value, StringFrom(escape.rest))
  }

  lemma StringStep(s: Bytes)
    ensures StringFrom(s) ==
            if s == [] then Failed
            else if s[0] == QUOTE then Parsed([], s[1..])
            else if s[0] != BACKSLASH then Prefixed([s[0]], StringFrom(s[1..]))
            else if EscapeAt(s[1..]).Failed? then Failed
            else Prefixed(EscapeAt(s[1..]).value, StringFrom(EscapeAt(s[1..]).rest))
  {
    hide EscapeAt;
  }

  lemma PrefixedTwice(a: Bytes, b: Bytes, r: Parse<Bytes>)
    ensures Prefixed(a, Prefixed(b, r)) == Prefixed(a + b, r)
  {
    assert r.Parsed? ==> a + (b + r.value) == a + b + r.value;
  }

  function ParseString(s: Bytes): (r: Parse<Bytes>)
    ensures r.Parsed? ==> |r.rest| < |s|
  {
    if Peeks(s, QUOTE) then StringFrom(s[1..]) else Failed
  }

  // ---------------------------------------------------------------------------
  // Parsing: numbers
  // ---------------------------------------------------------------------------

  function DigitRun(s: Bytes): (n: nat)
    ensures n <= |s| && AllDigits(s[..n]) && (n < |s| ==> !IsDigit(s[n]))
  {
    if s != [] && IsDigit(s[0]) then
      var n := 1 + DigitRun(s[1..]);
      assert forall i :: 0 <= i < n ==> IsDigit(s[..n][i]) by {
        assert forall i :: 1 <= i < n ==> s[i] == s[1..][..n - 1][i - 1];
      }
      n
    else 0
  }

  /** The length of an optional sign and digits. */
  function WholePart(s: Bytes): (n: nat)
    ensures n <= |s|
  {
    if Peeks(s, MINUS) then 1 + DigitRun(s[1..]) else DigitRun(s)
  }

  /** The length of a point and digits, if they are there. */
  function FractionPart(s: Bytes): (n: nat)
    ensures n <= |s|
  {
    if Peeks(s, 0x2e) then 1 + DigitRun(s[1..]) else 0
  }

  /** The length of an exponent, if it is there. */
  function ExponentPart(s: Bytes): (n: nat)
    ensures n <= |s|
  {
    if !Peeks(s, 0x65) && !Peeks(s, 0x45) then 0
    else if Peeks(s[1..], 0x2b) || Peeks(s[1..], MINUS) then 2 + DigitRun(s[2..])
    else 1 + DigitRun(s[1..])
  }

  /** The length of the number token at the start of `s`. */
  function TokenLength(s: Bytes): (n: nat)
    ensures n <= |s|
  {
    var whole := WholePart(s);
    var point := whole + FractionPart(s[whole..]);
    point + ExponentPart(s[point..])
  }

  /** The whole number a token of a sign and digits stands for. */
  function WholeValue(token: Bytes): Option<int> {
    var digits := if Peeks(token, MINUS) then token[1..] else token;
    if digits != [] && AllDigits(digits) && FromDigits(digits) < WHOLE_LIMIT
    then Some(if Peeks(token, MINUS) then -FromDigits(digits) else FromDigits(digits))
    else None
  }

  function NumberOf(token: Bytes, floats: Floats): Option<JsonNumber> {
    if token == [] then None
    else if WholeValue(token).Some? then Some(Whole(WholeValue(token).value))
    else floats.scan(token)
  }

  function ParseNumber(s: Bytes, floats: Floats): (r: Parse<Json>)
    ensures r.Parsed? ==> |r.rest| < |s|
  {
    var n := TokenLength(s);
    var number := NumberOf(s[..n], floats);
    if number.None? then Failed else Parsed(Number(number.value), s[n..])
  }

  // ---------------------------------------------------------------------------
  // Parsing: values
  // ---------------------------------------------------------------------------

  function ParseLiteral(s: Bytes): (r: Parse<Json>)
    ensures r.Parsed? ==> |r.rest| < |s|
  {
    if TRUE <= s then Parsed(Boolean(true), s[4..])
    else if FALSE <= s then Parsed(Boolean(false), s[5..])
    else if NULL <= s then Parsed(Null, s[4..])
    else Failed
  }

  function ParseValue(s: Bytes, floats: Floats): (r: Parse<Json>)
    ensures r.Parsed? ==> |r.rest| < |s|
    decreases |s|, 0
  {
    if Peeks(s, OPEN_BRACE) then ParseObject(s[1..], floats)
    else if Peeks(s, OPEN_BRACKET) then ParseArray(s[1..], floats)
    else if Peeks(s, QUOTE) then
      var text := ParseString(s);
      if text.Failed? then Failed else Parsed(String(text.value), text.rest)
    else if s != [] && s[0] in {0x74, 0x66, 0x6e} then ParseLiteral(s)
    else ParseNumber(s, floats)
  }

  function ParseArray(s: Bytes, floats: Floats): (r: Parse<Json>)
    ensures r.Parsed? ==> |r.rest| <= |s|
    decreases |s|, 2
  {
    var t := Skip(s);
    if Peeks(t, CLOSE_BRACKET) then Parsed(Array([]), t[1..])
    else
      var items := ParseItems(t, floats);
      if items.Failed? then Failed else Parsed(Array(items.value), items.rest)
  }

  function ParseItems(s: Bytes, floats: Floats): (r: Parse<seq<Json>>)
    ensures r.Parsed? ==> |r.rest| <= |s|
    decreases |s|, 1
  {
    var item := ParseValue(Skip(s), floats);
    if item.Failed? then Failed
    else
      var t := Skip(item.rest);
      if Peeks(t, COMMA) then
        var more := ParseItems(t[1..], floats);
        if more.Failed? then Failed else Parsed([item.value] + more.value, more.rest)
      else if Peeks(t, CLOSE_BRACKET) then Parsed([item.value], t[1..])
      else Failed
  }

  function ParseObject(s: Bytes, floats: Floats): (r: Parse<Json>)
    ensures r.Parsed? ==> |r.rest| <= |s|
    decreases |s|, 3
  {
    var t := Skip(s);
    if Peeks(t, CLOSE_BRACE) then Parsed(Object([]), t[1..])
    else
      var members := ParseMembers(t, [], floats);
      if members.Failed? then Failed else Parsed(Object(members.value), members.rest)
  }

  /** One member: its key, a colon and its value. */
  function ParseMember(s: Bytes, floats: Floats): (r: Parse<Entry<Json>>)
    ensures r.Parsed? ==> |r.rest| < |s|
    decreases |s|, 1
  {
    var key := ParseString(Skip(s));
    if key.Failed? then Failed
    else
      var t := Skip(key.rest);
      if !Peeks(t, COLON) then Failed
      else
        var value := ParseValue(Skip(t[1..]), floats);
        if value.Failed? then Failed else Parsed(Entry(key.value, value.value), value.rest)
  }

  function ParseMembers(s: Bytes, members: seq<Entry<Json>>, floats: Floats): (r: Parse<seq<Entry<Json>>>)
    ensures r.Parsed? ==> |r.rest| <= |s|
    decreases |s|, 2
  {
    var member := ParseMember(s, floats);
    if member.Failed? then Failed
    else
      var more := Emplace(members, member.value.key, member.value.value);
      var t := Skip(member.rest);
      if Peeks(t, COMMA) then ParseMembers(t[1..], more, floats)
      else if Peeks(t, CLOSE_BRACE) then Parsed(more, t[1..])
      else Failed
  }

  ghost function Prepend(done: seq<Json>, r: Parse<seq<Json>>): Parse<seq<Json>> {
    if r.Failed? then Failed else Parsed(done + r.value, r.rest)
  }

  lemma PrependNothing(r: Parse<seq<Json>>)
    ensures Prepend([], r) == r
  {
    assert r.Parsed? ==> [] + r.value == r.value;
  }

  lemma PrependTwice(a: seq<Json>, b: seq<Json>, r: Parse<seq<Json>>)
    ensures Prepend(a, Prepend(b, r)) == Prepend(a + b, r)
  {
    assert r.Parsed? ==> a + (b + r.value) == a + b + r.value;
  }

  lemma ItemsUnfold(s: Bytes, floats: Floats)
    ensures ParseItems(s, floats) ==
            var item := ParseValue(Skip(s), floats);
            if item.Failed? then Failed
            else
              var t := Skip(item.rest);
              if Peeks(t, COMMA) then Prepend([item.value], ParseItems(t[1..], floats))
              else if Peeks(t, CLOSE_BRACKET) then Parsed([item.value], t[1..])
              else Failed
  {
    hide ParseValue, Skip;
  }

  lemma MembersUnfold(s: Bytes, members: seq<Entry<Json>>, floats: Floats)
    ensures ParseMembers(s, members, floats) ==
            var member := ParseMember(s, floats);
            if member.Failed? then Failed
            else
              var more := Emplace(members, member.value.key, member.value.value);
              var t := Skip(member.rest);
              if Peeks(t, COMMA) then ParseMembers(t[1..], more, floats)
              else if Peeks(t, CLOSE_BRACE) then Parsed(more, t[1..])
              else Failed
  {
    hide ParseMember, Skip, Emplace;
  }

  function ParseDocument(s: Bytes, floats: Floats): Result<Json> {
    var value := ParseValue(Skip(s), floats);
    if value.Failed? || Skip(value.rest) != [] then Err(Protocol) else Ok(value.value)
  }
}
