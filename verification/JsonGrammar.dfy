/**
 The JSON texts that are accepted and what each one means, as a grammar of its own: a text
 is laid out with any blanks around its tokens and any of the escapes of RFC 8259. Every
 byte of it is written out here, so the parser is held to the bytes themselves.
 */
module JsonGrammar {
  import opened Words
  import opened Dictionaries
  import opened Decimal
  import opened JsonFormat

  // ---------------------------------------------------------------------------
  // Layouts and what they print
  // ---------------------------------------------------------------------------

  /** One byte as it is, an escape of one letter, or a code unit as four hexadecimal digits. */
  datatype Piece = Raw(c: Byte) | Short(letter: Byte) | Unit(w: Word16, upper: seq<bool>)

  datatype Exponent = Exponent(letter: Byte, sign: Option<Byte>, digits: Bytes)

  datatype Form =
    | NullWord
    | TrueWord
    | FalseWord
    | NumberForm(negative: bool, whole: Bytes, fraction: Option<Bytes>, exponent: Option<Exponent>)
    | StringForm(pieces: seq<Piece>)
    | ArrayForm(gap: Bytes, items: seq<Laid>)
    | ObjectForm(gap: Bytes, members: seq<Member>)

  /** A value between blanks. */
  datatype Laid = Laid(before: Bytes, form: Form, after: Bytes)

  /** A key between blanks, a colon and a value. */
  datatype Member = Member(before: Bytes, key: seq<Piece>, between: Bytes, value: Laid)

  const LOWER_HEX: Bytes := [0x30, 0x31, 0x32, 0x33, 0x34, 0x35, 0x36, 0x37, 0x38, 0x39,
                             0x61, 0x62, 0x63, 0x64, 0x65, 0x66]
  const UPPER_HEX: Bytes := [0x30, 0x31, 0x32, 0x33, 0x34, 0x35, 0x36, 0x37, 0x38, 0x39,
                             0x41, 0x42, 0x43, 0x44, 0x45, 0x46]

  function Hex(d: nat, upper: bool): Byte
    requires d < 16
  {
    if upper then UPPER_HEX[d] else LOWER_HEX[d]
  }

  function HexDigits(w: Word16, upper: seq<bool>): Bytes
    requires |upper| == 4
  {
    [Hex(w / 0x1000, upper[0]), Hex(w / 0x100 % 16, upper[1]), Hex(w / 16 % 16, upper[2]), Hex(w % 16, upper[3])]
  }

  predicate GoodPiece(p: Piece) {
    match p
    case Raw(c) => c != 0x22 && c != 0x5c
    case Short(letter) => letter in {0x22, 0x5c, 0x2f, 0x62, 0x66, 0x6e, 0x72, 0x74}
    case Unit(_, upper) => |upper| == 4
  }

  predicate GoodPieces(pieces: seq<Piece>) {
    forall i :: 0 <= i < |pieces| ==> GoodPiece(pieces[i])
  }

  function PrintPiece(p: Piece): (s: Bytes)
    requires GoodPiece(p)
    ensures s != []
  {
    match p
    case Raw(c) => [c]
    case Short(letter) => [0x5c, letter]
    case Unit(w, upper) => [0x5c, 0x75] + HexDigits(w, upper)
  }

  function PrintPieces(pieces: seq<Piece>): Bytes
    requires GoodPieces(pieces)
  {
    if pieces == [] then [] else PrintPiece(pieces[0]) + PrintPieces(pieces[1..])
  }

  predicate Blanks(s: Bytes) {
    forall i :: 0 <= i < |s| ==> s[i] in {0x20, 0x09, 0x0a, 0x0d}
  }

  predicate Digitals(s: Bytes) {
    forall i :: 0 <= i < |s| ==> 0x30 <= s[i] <= 0x39
  }

  function PrintNumber(f: Form): Bytes
    requires f.NumberForm?
  {
    (if f.negative then [0x2d] else []) + (f.whole + (PrintFraction(f.fraction) + PrintExponent(f.exponent)))
  }

  function PrintFraction(fraction: Option<Bytes>): Bytes {
    if fraction.Some? then [0x2e] + fraction.value else []
  }

  function PrintExponent(exponent: Option<Exponent>): Bytes {
    if exponent.None? then []
    else if exponent.value.sign.Some? then [exponent.value.letter, exponent.value.sign.value] + exponent.value.digits
    else [exponent.value.letter] + exponent.value.digits
  }

  /** The number a token stands for: whole and below 10^15, or whatever the conversion makes of it. */
  function NumberMeaning(f: Form, floats: Floats): Option<JsonNumber>
    requires f.NumberForm?
  {
    if PrintNumber(f) == [] then None
    else if f.fraction.None? && f.exponent.None? && f.whole != [] && FromDigits(f.whole) < 1_000_000_000_000_000 then
      Some(Whole(if f.negative then -FromDigits(f.whole) else FromDigits(f.whole)))
    else floats.scan(PrintNumber(f))
  }

  predicate GoodExponent(e: Exponent) {
    && (e.letter == 0x65 || e.letter == 0x45)
    && (e.sign.Some? ==> e.sign.value == 0x2b || e.sign.value == 0x2d)
    && Digitals(e.digits)
  }

  predicate GoodNumber(f: Form, floats: Floats)
    requires f.NumberForm?
  {
    && Digitals(f.whole)
    && (f.fraction.Some? ==> Digitals(f.fraction.value))
    && (f.exponent.Some? ==> GoodExponent(f.exponent.value))
    && NumberMeaning(f, floats).Some?
  }

  ghost predicate GoodForm(f: Form, floats: Floats)
    decreases f
  {
    match f
    case NumberForm(_, _, _, _) => GoodNumber(f, floats)
    case StringForm(pieces) => GoodPieces(pieces)
    case ArrayForm(gap, items) => Blanks(gap) && (items != [] ==> gap == []) && GoodItems(items, floats)
    case ObjectForm(gap, members) => Blanks(gap) && (members != [] ==> gap == []) && GoodMembers(members, floats)
    case _ => true
  }

  ghost predicate GoodLaid(l: Laid, floats: Floats)
    decreases l
  {
    Blanks(l.before) && GoodForm(l.form, floats) && Blanks(l.after)
  }

  ghost predicate GoodItems(items: seq<Laid>, floats: Floats)
    decreases items
  {
    items == [] || (GoodLaid(items[0], floats) && GoodItems(items[1..], floats))
  }

  ghost predicate GoodMembers(members: seq<Member>, floats: Floats)
    decreases members
  {
    members == [] ||
    (&& Blanks(members[0].before) && GoodPieces(members[0].key) && Blanks(members[0].between)
     && GoodLaid(members[0].value, floats) && GoodMembers(members[1..], floats))
  }

  ghost function PrintForm(f: Form, floats: Floats): Bytes
    requires GoodForm(f, floats)
    decreases f
  {
    match f
    case NullWord => [0x6e, 0x75, 0x6c, 0x6c]
    case TrueWord => [0x74, 0x72, 0x75, 0x65]
    case FalseWord => [0x66, 0x61, 0x6c, 0x73, 0x65]
    case NumberForm(_, _, _, _) => PrintNumber(f)
    case StringForm(pieces) => PrintString(pieces)
    case ArrayForm(gap, items) => [0x5b] + (if items == [] then gap + [0x5d] else PrintItems(items, floats))
    case ObjectForm(gap, members) => [0x7b] + (if members == [] then gap + [0x7d] else PrintMembers(members, floats))
  }

  function PrintString(pieces: seq<Piece>): Bytes
    requires GoodPieces(pieces)
  {
    [0x22] + (PrintPieces(pieces) + [0x22])
  }

  ghost function Print(l: Laid, floats: Floats): Bytes
    requires GoodLaid(l, floats)
    decreases l
  {
    l.before + (PrintForm(l.form, floats) + l.after)
  }

  /** Items with commas between them, and the closing bracket. */
  ghost function PrintItems(items: seq<Laid>, floats: Floats): Bytes
    requires items != [] && GoodItems(items, floats)
    decreases items
  {
    Print(items[0], floats) + if |items| == 1 then [0x5d] else [0x2c] + PrintItems(items[1..], floats)
  }

  ghost function PrintMember(m: Member, floats: Floats): Bytes
    requires GoodMembers([m], floats)
    decreases m
  {
    assert [m][0] == m;
    m.before + (PrintString(m.key) + (m.between + ([0x3a] + Print(m.value, floats))))
  }

  /** Members with commas between them, and the closing brace. */
  ghost function PrintMembers(members: seq<Member>, floats: Floats): Bytes
    requires members != [] && GoodMembers(members, floats)
    decreases members
  {
    PrintMember(members[0], floats) + if |members| == 1 then [0x7d] else [0x2c] + PrintMembers(members[1..], floats)
  }

  // ---------------------------------------------------------------------------
  // What a layout means
  // ---------------------------------------------------------------------------

  predicate HighUnit(p: Piece) {
    p.Unit? && 0xd800 <= p.w <= 0xdbff
  }

  predicate LowUnit(p: Piece) {
    p.Unit? && 0xdc00 <= p.w <= 0xdfff
  }

  /** The UTF-8 bytes of a code point (section 3 of RFC 3629). */
  function CodePoint(code: nat): Bytes
    requires code < 0x11_0000
  {
    if code < 0x80 then [code]
    else if code < 0x800 then [0xc0 + code / 64, 0x80 + code % 64]
    else if code < 0x1_0000 then [0xe0 + code / 4096, 0x80 + code / 64 % 64, 0x80 + code % 64]
    else [0xf0 + code / 262144, 0x80 + code / 4096 % 64, 0x80 + code / 64 % 64, 0x80 + code % 64]
  }

  function PieceMeaning(p: Piece): Bytes
    requires GoodPiece(p)
  {
    match p
    case Raw(c) => [c]
    case Short(letter) =>
      [if letter == 0x62 then 0x08
       else if letter == 0x66 then 0x0c
       else if letter == 0x6e then 0x0a
       else if letter == 0x72 then 0x0d
       else if letter == 0x74 then 0x09
       else letter]
    case Unit(w, _) => CodePoint(w)
  }

  /** The bytes of a string: a high surrogate and a low one right after it are one code point. */
  function PiecesMeaning(pieces: seq<Piece>): Bytes
    requires GoodPieces(pieces)
  {
    if pieces == [] then []
    else if |pieces| > 1 && HighUnit(pieces[0]) && LowUnit(pieces[1]) then
      CodePoint(0x1_0000 + (pieces[0].w - 0xd800) * 1024 + (pieces[1].w - 0xdc00)) + PiecesMeaning(pieces[2..])
    else PieceMeaning(pieces[0]) + PiecesMeaning(pieces[1..])
  }

  ghost function FormMeaning(f: Form, floats: Floats): Json
    requires GoodForm(f, floats)
    decreases f
  {
    match f
    case NullWord => Null
    case TrueWord => Boolean(true)
    case FalseWord => Boolean(false)
    case NumberForm(_, _, _, _) => Number(NumberMeaning(f, floats).value)
    case StringForm(pieces) => String(PiecesMeaning(pieces))
    case ArrayForm(_, items) => Array(ItemsMeaning(items, floats))
    case ObjectForm(_, members) => Object(MembersMeaning(members, [], floats))
  }

  ghost function Meaning(l: Laid, floats: Floats): Json
    requires GoodLaid(l, floats)
    decreases l
  {
    FormMeaning(l.form, floats)
  }

  ghost function ItemsMeaning(items: seq<Laid>, floats: Floats): seq<Json>
    requires GoodItems(items, floats)
    decreases items
  {
    if items == [] then [] else [Meaning(items[0], floats)] + ItemsMeaning(items[1..], floats)
  }

  /** Of equal keys the first one counts. */
  ghost function MembersMeaning(members: seq<Member>, done: seq<Entry<Json>>, floats: Floats): seq<Entry<Json>>
    requires GoodMembers(members, floats)
    decreases members
  {
    if members == [] then done
    else
      var m := members[0];
      MembersMeaning(members[1..], Emplace(done, PiecesMeaning(m.key), Meaning(m.value, floats)), floats)
  }

  // ---------------------------------------------------------------------------
  // Strings: from layout to value
  // ---------------------------------------------------------------------------

  lemma HexIs(d: nat, upper: bool)
    requires d < 16
    ensures HexValue(Hex(d, upper)) == d
  {
  }

  lemma HexDigitsRead(w: Word16, upper: seq<bool>, rest: Bytes)
    requires |upper| == 4
    ensures Hex4(HexDigits(w, upper) + rest) == Some(w) && (HexDigits(w, upper) + rest)[4..] == rest
  {
    hide Hex, HexValue;
    HexIs(w / 0x1000, upper[0]);
    HexIs(w / 0x100 % 16, upper[1]);
    HexIs(w / 16 % 16, upper[2]);
    HexIs(w % 16, upper[3]);
    var s := HexDigits(w, upper) + rest;
    assert s[0] == HexDigits(w, upper)[0] && s[1] == HexDigits(w, upper)[1];
    assert s[2] == HexDigits(w, upper)[2] && s[3] == HexDigits(w, upper)[3];
    NibblesOf(w);
  }

  lemma NibblesOf(w: Word16)
    ensures w == 0x1000 * (w / 0x1000) + 0x100 * (w / 0x100 % 16) + 16 * (w / 16 % 16) + w % 16
  {
    assert w / 16 / 16 == w / 0x100 && w / 0x100 / 16 == w / 0x1000;
  }

  lemma SameUtf8(code: nat)
    requires code < 0x11_0000
    ensures Utf8(code) == CodePoint(code)
  {
  }

  lemma ShortReads(letter: Byte, rest: Bytes)
    requires GoodPiece(Short(letter))
    ensures EscapeAt([letter] + rest) == Parsed(PieceMeaning(Short(letter)), rest)
  {
    hide UnicodeAt;
    assert ([letter] + rest)[1..] == rest;
  }

  /** A unicode escape is not a surrogate that what follows completes. */
  lemma UnitReads(w: Word16, upper: seq<bool>, rest: Bytes)
    requires |upper| == 4
    requires IsHigh(w) && EscapeFollows(rest) ==> Hex4(rest[2..]).Some? && !IsLow(Hex4(rest[2..]).value)
    ensures EscapeAt([0x75] + (HexDigits(w, upper) + rest)) == Parsed(CodePoint(w), rest)
  {
    hide Hex4, HexDigits, CodePoint, Utf8;
    assert ([0x75] + (HexDigits(w, upper) + rest))[1..] == HexDigits(w, upper) + rest;
    HexDigitsRead(w, upper, rest);
    SameUtf8(w);
  }

  lemma PairReads(high: Word16, upper: seq<bool>, low: Word16, lower: seq<bool>, rest: Bytes)
    requires |upper| == |lower| == 4 && IsHigh(high) && IsLow(low)
    ensures EscapeAt([0x75] + (HexDigits(high, upper) + ([0x5c, 0x75] + (HexDigits(low, lower) + rest)))) ==
            Parsed(CodePoint(0x1_0000 + (high - 0xd800) * 1024 + (low - 0xdc00)), rest)
  {
    hide Hex4, HexDigits, CodePoint, Utf8;
    var second := [0x5c, 0x75] + (HexDigits(low, lower) + rest);
    assert ([0x75] + (HexDigits(high, upper) + second))[1..] == HexDigits(high, upper) + second;
    HexDigitsRead(high, upper, second);
    assert second[2..] == HexDigits(low, lower) + rest;
    HexDigitsRead(low, lower, rest);
    assert second[6..] == (HexDigits(low, lower) + rest)[4..];
    SixMore(HexDigits(low, lower), rest);
    SameUtf8(Combined(high, low));
  }

  lemma SixMore(digits: Bytes, rest: Bytes)
    requires |digits| == 4
    ensures |[0x5c, 0x75] + (digits + rest)| >= 6
  {
  }

  /** A surrogate that what follows the piece completes. */
  predicate Completed(p: Piece, after: Bytes) {
    HighUnit(p) && EscapeFollows(after) && (Hex4(after[2..]).None? || IsLow(Hex4(after[2..]).value))
  }

  lemma PieceReads(p: Piece, after: Bytes)
    requires GoodPiece(p) && !Completed(p, after)
    ensures StringFrom(PrintPiece(p) + after) == Prefixed(PieceMeaning(p), StringFrom(after))
  {
    hide StringFrom, EscapeAt, HexDigits, CodePoint, Hex4, Prefixed;
    var s := PrintPiece(p) + after;
    StringStep(s);
    match p
    case Raw(c) => assert s[1..] == after;
    case Short(letter) =>
      assert s[1..] == [letter] + after;
      ShortReads(letter, after);
    case Unit(w, upper) =>
      assert s[1..] == [0x75] + (HexDigits(w, upper) + after);
      UnitReads(w, upper, after);
  }

  lemma BothReads(p: Piece, q: Piece, after: Bytes)
    requires GoodPiece(p) && GoodPiece(q) && HighUnit(p) && LowUnit(q)
    ensures StringFrom(PrintPiece(p) + (PrintPiece(q) + after)) ==
            Prefixed(CodePoint(0x1_0000 + (p.w - 0xd800) * 1024 + (q.w - 0xdc00)), StringFrom(after))
  {
    hide StringFrom, EscapeAt, HexDigits, CodePoint, Prefixed, PrintPiece;
    var s := PrintPiece(p) + (PrintPiece(q) + after);
    StringStep(s);
    BothPrinted(p, q, after);
    PairReads(p.w, p.upper, q.w, q.upper, after);
  }

  lemma BothPrinted(p: Piece, q: Piece, after: Bytes)
    requires GoodPiece(p) && GoodPiece(q) && p.Unit? && q.Unit?
    ensures var s := PrintPiece(p) + (PrintPiece(q) + after);
            && s != [] && s[0] == 0x5c
            && s[1..] == [0x75] + (HexDigits(p.w, p.upper) + ([0x5c, 0x75] + (HexDigits(q.w, q.upper) + after)))
  {
    hide HexDigits;
    assert PrintPiece(q) + after == [0x5c, 0x75] + (HexDigits(q.w, q.upper) + after);
  }

  /** The pieces of a string are read back as what they mean, up to its closing quote. */
  lemma {:induction false} PiecesRead(pieces: seq<Piece>, rest: Bytes)
    requires GoodPieces(pieces)
    ensures StringFrom(PrintPieces(pieces) + ([0x22] + rest)) == Parsed(PiecesMeaning(pieces), rest)
    decreases |pieces|
  {
    hide StringFrom, PrintPiece, PieceMeaning, CodePoint, Hex4;
    var s := PrintPieces(pieces) + ([0x22] + rest);
    if pieces == [] {
      assert s == [0x22] + rest;
      QuoteStops(rest);
    } else {
      var p := pieces[0];
      var after := PrintPieces(pieces[1..]) + ([0x22] + rest);
      assert s == PrintPiece(p) + after;
      if |pieces| > 1 && HighUnit(p) && LowUnit(pieces[1]) {
        var third := PrintPieces(pieces[2..]) + ([0x22] + rest);
        assert pieces[1..][1..] == pieces[2..];
        assert after == PrintPiece(pieces[1]) + third;
        BothReads(p, pieces[1], third);
        PiecesRead(pieces[2..], rest);
      } else {
        NextUnit(pieces[1..], rest);
        PieceReads(p, after);
        PiecesRead(pieces[1..], rest);
      }
    }
  }

  lemma QuoteStops(rest: Bytes)
    ensures StringFrom([0x22] + rest) == Parsed([], rest)
  {
    assert ([0x22] + rest)[1..] == rest;
  }

  /** Where another unicode escape follows, it is the next piece. */
  lemma NextUnit(pieces: seq<Piece>, rest: Bytes)
    requires GoodPieces(pieces)
    ensures var s := PrintPieces(pieces) + ([0x22] + rest);
            EscapeFollows(s) ==>
              && pieces != [] && pieces[0].Unit? && Hex4(s[2..]) == Some(pieces[0].w)
  {
    hide HexDigits, Hex4, PrintPieces;
    var s := PrintPieces(pieces) + ([0x22] + rest);
    PrintStep(pieces);
    if pieces == [] {
      assert s[0] == 0x22;
    } else {
      var after := PrintPieces(pieces[1..]) + ([0x22] + rest);
      assert s == PrintPiece(pieces[0]) + after;
      if pieces[0].Unit? {
        var u := pieces[0];
        assert s[2..] == HexDigits(u.w, u.upper) + after;
        HexDigitsRead(u.w, u.upper, after);
      }
    }
  }

  lemma PrintStep(pieces: seq<Piece>)
    requires GoodPieces(pieces)
    ensures PrintPieces(pieces) == if pieces == [] then [] else PrintPiece(pieces[0]) + PrintPieces(pieces[1..])
  {
  }

  lemma StringReads(pieces: seq<Piece>, rest: Bytes)
    requires GoodPieces(pieces)
    ensures ParseString(PrintString(pieces) + rest) == Parsed(PiecesMeaning(pieces), rest)
    ensures Peeks(PrintString(pieces) + rest, 0x22)
  {
    hide PrintPieces, PiecesMeaning, StringFrom;
    var s := PrintString(pieces) + rest;
    assert s[1..] == PrintPieces(pieces) + ([0x22] + rest);
    PiecesRead(pieces, rest);
  }
}
