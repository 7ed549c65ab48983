/** The text inside the elements of an XML plist: entities, decimal integers and white space. */
module XmlText {
  import opened Words
  import opened Decimal
  import opened Base64

  const LESS: Byte := 0x3c
  const GREATER: Byte := 0x3e
  const AMPERSAND: Byte := 0x26

  // "&amp;", "&lt;", "&gt;", "&quot;" and "&apos;"
  const AMP: Bytes := [0x26, 0x61, 0x6d, 0x70, 0x3b]
  const LT: Bytes := [0x26, 0x6c, 0x74, 0x3b]
  const GT: Bytes := [0x26, 0x67, 0x74, 0x3b]
  const QUOT: Bytes := [0x26, 0x71, 0x75, 0x6f, 0x74, 0x3b]
  const APOS: Bytes := [0x26, 0x61, 0x70, 0x6f, 0x73, 0x3b]

  function Escaped(c: Byte): Bytes {
    if c == AMPERSAND then AMP else if c == LESS then LT else if c == GREATER then GT else [c]
  }

  function Escape(text: Bytes): Bytes {
    if text == [] then [] else Escaped(text[0]) + Escape(text[1..])
  }

  /** The character at the start of `text` and how many bytes stand for it. */
  function FirstCharacter(text: Bytes): (r: (Byte, nat))
    requires text != []
    ensures 1 <= r.1 <= |text|
  {
    if AMP <= text then (AMPERSAND, 5)
    else if LT <= text then (LESS, 4)
    else if GT <= text then (GREATER, 4)
    else if QUOT <= text then (0x22, 6)
    else if APOS <= text then (0x27, 6)
    else (text[0], 1)
  }

  function Unescape(text: Bytes): Bytes {
    if text == [] then [] else [FirstCharacter(text).0] + Unescape(text[FirstCharacter(text).1..])
  }

  method XmlEscape(text: Bytes) returns (out: Bytes)
    ensures out == Escape(text)
  {
    hide Escaped;
    out := [];
    assert text[0..] == text;
    for i := 0 to |text|
      invariant out + Escape(text[i..]) == Escape(text)
    {
      assert text[i..][1..] == text[i + 1..];
      out := out + Escaped(text[i]);
    }
  }

  method XmlUnescape(text: Bytes) returns (out: Bytes)
    ensures out == Unescape(text)
  {
    hide FirstCharacter;
    out := [];
    assert text[0..] == text;
    var i := 0;
    while i < |text|
      invariant 0 <= i <= |text|
      invariant out + Unescape(text[i..]) == Unescape(text)
    {
      var first := FirstCharacter(text[i..]);
      assert text[i..][first.1..] == text[i + first.1..];
      out := out + [first.0];
      i := i + first.1;
    }
  }

  lemma EscapedBack(c: Byte, rest: Bytes)
    ensures FirstCharacter(Escaped(c) + rest) == (c, |Escaped(c)|)
    ensures LESS !in Escaped(c)
  {
    var s := Escaped(c) + rest;
    assert Escaped(c) <= s;
    assert s[0] == if c == LESS || c == GREATER then AMPERSAND else c;
    if c == LESS {
      assert s[1] == LT[1] && AMP[1] != LT[1];
    } else if c == GREATER {
      assert s[1] == GT[1] && AMP[1] != GT[1] && LT[1] != GT[1];
    } else if c != AMPERSAND {
      assert AMP[0] == LT[0] == GT[0] == QUOT[0] == APOS[0] == AMPERSAND;
    }
  }

  /** Arbitrary bytes come back from their escaped form, which holds no `<`. */
  lemma {:induction false} EscapeBack(text: Bytes)
    ensures Unescape(Escape(text)) == text && LESS !in Escape(text)
  {
    hide Escaped, FirstCharacter;
    if text != [] {
      var rest := Escape(text[1..]);
      EscapeBack(text[1..]);
      EscapedBack(text[0], rest);
      assert (Escaped(text[0]) + rest)[|Escaped(text[0])|..] == rest;
      assert [text[0]] + text[1..] == text;
    }
  }

  // ---------------------------------------------------------------------------
  // Integers
  // ---------------------------------------------------------------------------

  const PLUS: Byte := 0x2b

  function IntegerText(n: int): Bytes {
    if n < 0 then [MINUS] + Digits(-n) else Digits(n)
  }

  function SkipSpace(s: Bytes): (r: Bytes)
    ensures |r| <= |s| && (r == [] || !IsSpace(r[0]))
    ensures s != [] && !IsSpace(s[0]) ==> r == s
  {
    if s != [] && IsSpace(s[0]) then SkipSpace(s[1..]) else s
  }

  /** The digits `s` starts with. */
  function LeadingRun(s: Bytes): Bytes {
    if s != [] && IsDigit(s[0]) then [s[0]] + LeadingRun(s[1..]) else []
  }

  function Clamp(n: int): Int64 {
    if n < -TWO_TO_THE_63 then -TWO_TO_THE_63 else if n >= TWO_TO_THE_63 then TWO_TO_THE_63 - 1 else n
  }

  /** `strtoll` in base 10: white space, a sign and digits; what is out of range saturates. */
  function ReadInteger(s: Bytes): Int64 {
    var t := SkipSpace(s);
    var digits := LeadingRun(if t != [] && (t[0] == MINUS || t[0] == PLUS) then t[1..] else t);
    Clamp(if t != [] && t[0] == MINUS then -FromDigits(digits) else FromDigits(digits))
  }

  lemma {:induction false} AllRun(s: Bytes)
    requires AllDigits(s)
    ensures LeadingRun(s) == s
  {
    if s != [] {
      AllRun(s[1..]);
      assert [s[0]] + s[1..] == s;
    }
  }

  lemma IntegerBack(n: int)
    ensures ReadInteger(IntegerText(n)) == Clamp(n) && LESS !in IntegerText(n)
  {
    hide Digits, FromDigits, LeadingRun;
    var d := Digits(if n < 0 then -n else n);
    DigitsBack(if n < 0 then -n else n);
    AllRun(d);
    var s := IntegerText(n);
    assert IsDigit(d[0]);
    assert !IsSpace(s[0]);
    if n < 0 {
      assert s[1..] == d;
    }
    forall i | 0 <= i < |d|
      ensures d[i] != LESS
    {
      assert IsDigit(d[i]);
    }
  }

  // ---------------------------------------------------------------------------
  // Searching
  // ---------------------------------------------------------------------------

  /** Where `token` first occurs in `s`. */
  function Search(s: Bytes, token: Bytes): (r: Option<nat>)
    ensures r.Some? ==> r.value + |token| <= |s| && s[r.value..r.value + |token|] == token
    decreases |s|
  {
    if token <= s then Some(0)
    else if s == [] then None
    else
      var later := Search(s[1..], token);
      if later.None? then None else
      assert s[1..][later.value..later.value + |token|] == s[later.value + 1..later.value + 1 + |token|];
      Some(later.value + 1)
  }

  /** A token that opens with `<` is found after a body that holds none. */
  lemma {:induction false} SearchAfter(body: Bytes, token: Bytes, rest: Bytes)
    requires LESS !in body && token != [] && token[0] == LESS
    ensures Search(body + token + rest, token) == Some(|body|)
  {
    var s := body + token + rest;
    if body == [] {
      assert s == token + rest;
      assert s[..|token|] == token;
    } else {
      assert s[0] == body[0] && body[0] in body;
      assert s[1..] == body[1..] + token + rest;
      assert LESS !in body[1..];
      SearchAfter(body[1..], token, rest);
    }
  }
}
