/**
 The parser accepts exactly the texts that the grammar lays out, and reads each as what it
 means.
 */
module JsonExactly {
  import opened Words
  import opened Dictionaries
  import opened Decimal
  import opened JsonFormat
  import opened JsonGrammar

  /** What can follow a value: nothing, a blank, or the comma or bracket after it. */
  predicate Stops(rest: Bytes) {
    rest == [] || rest[0] in {0x2c, 0x5d, 0x7d, 0x20, 0x09, 0x0a, 0x0d}
  }

  predicate Ends(rest: Bytes) {
    rest == [] || rest[0] in {0x2c, 0x5d, 0x7d}
  }

  lemma {:induction false} SkipBlanks(blanks: Bytes, rest: Bytes)
    requires Blanks(blanks) && (rest == [] || rest[0] !in {0x20, 0x09, 0x0a, 0x0d})
    ensures Skip(blanks + rest) == rest
  {
    if blanks == [] {
      assert blanks + rest == rest;
    } else {
      assert (blanks + rest)[1..] == blanks[1..] + rest;
      SkipBlanks(blanks[1..], rest);
    }
  }

  lemma BlanksStop(blanks: Bytes, rest: Bytes)
    requires Blanks(blanks) && Ends(rest)
    ensures Stops(blanks + rest) && Skip(blanks + rest) == rest
  {
    SkipBlanks(blanks, rest);
    assert blanks != [] ==> (blanks + rest)[0] == blanks[0];
  }

  lemma {:induction false} SkipForth(s: Bytes) returns (blanks: Bytes)
    ensures Blanks(blanks) && s == blanks + Skip(s)
    ensures Skip(s) == [] || Skip(s)[0] !in {0x20, 0x09, 0x0a, 0x0d}
  {
    if s != [] && IsBlank(s[0]) {
      var more := SkipForth(s[1..]);
      blanks := [s[0]] + more;
    } else {
      blanks := [];
    }
  }

  // ---------------------------------------------------------------------------
  // Numbers
  // ---------------------------------------------------------------------------

  predicate NoDigit(s: Bytes) {
    s == [] || !(0x30 <= s[0] <= 0x39)
  }

  lemma {:induction false} RunReads(digits: Bytes, rest: Bytes)
    requires Digitals(digits) && NoDigit(rest)
    ensures DigitRun(digits + rest) == |digits|
  {
    if digits == [] {
      assert digits + rest == rest;
    } else {
      assert (digits + rest)[1..] == digits[1..] + rest;
      RunReads(digits[1..], rest);
    }
  }

  function Sign(negative: bool): Bytes {
    if negative then [0x2d] else []
  }

  lemma WholeReads(negative: bool, whole: Bytes, tail: Bytes)
    requires Digitals(whole) && NoDigit(tail) && (tail == [] || tail[0] != 0x2d)
    ensures var s := Sign(negative) + (whole + tail);
            var n := |Sign(negative)| + |whole|;
            WholePart(s) == n && n <= |s| && s[n..] == tail && s[..n] == Sign(negative) + whole
  {
    hide DigitRun;
    var s := Sign(negative) + (whole + tail);
    RunReads(whole, tail);
    assert negative ==> s[1..] == whole + tail;
    assert !negative ==> s == whole + tail;
  }

  lemma FractionReads(fraction: Option<Bytes>, tail: Bytes)
    requires fraction.Some? ==> Digitals(fraction.value)
    requires NoDigit(tail) && (tail == [] || tail[0] != 0x2e)
    ensures var s := PrintFraction(fraction) + tail; FractionPart(s) == |PrintFraction(fraction)|
  {
    hide DigitRun;
    var s := PrintFraction(fraction) + tail;
    if fraction.Some? {
      assert s[1..] == fraction.value + tail;
      RunReads(fraction.value, tail);
    } else {
      assert s == tail;
    }
  }

  lemma ExponentReads(exponent: Option<Exponent>, rest: Bytes)
    requires (exponent.Some? ==> GoodExponent(exponent.value)) && Stops(rest)
    ensures ExponentPart(PrintExponent(exponent) + rest) == |PrintExponent(exponent)|
  {
    hide Digitals, ExponentPart, Stops;
    if exponent.None? {
      assert PrintExponent(exponent) + rest == rest;
      NoExponent(rest);
    } else if exponent.value.sign.None? {
      UnsignedReads(exponent.value.letter, exponent.value.digits, rest);
    } else {
      SignedReads(exponent.value.letter, exponent.value.sign.value, exponent.value.digits, rest);
    }
  }

  lemma NoExponent(rest: Bytes)
    requires Stops(rest)
    ensures ExponentPart(rest) == 0
  {
  }

  lemma UnsignedReads(letter: Byte, digits: Bytes, rest: Bytes)
    requires (letter == 0x65 || letter == 0x45) && Digitals(digits) && Stops(rest)
    ensures ExponentPart([letter] + digits + rest) == 1 + |digits|
  {
    hide DigitRun;
    var s := [letter] + digits + rest;
    assert s[1..] == digits + rest;
    assert digits != [] ==> s[1..][0] == digits[0];
    RunReads(digits, rest);
  }

  lemma SignedReads(letter: Byte, sign: Byte, digits: Bytes, rest: Bytes)
    requires (letter == 0x65 || letter == 0x45) && (sign == 0x2b || sign == 0x2d) && Digitals(digits) && Stops(rest)
    ensures ExponentPart([letter, sign] + digits + rest) == 2 + |digits|
  {
    hide DigitRun;
    var s := [letter, sign] + digits + rest;
    assert s[2..] == digits + rest;
    RunReads(digits, rest);
  }

  lemma TailStarts(f: Form, rest: Bytes)
    requires f.NumberForm? && (f.exponent.Some? ==> GoodExponent(f.exponent.value)) && Stops(rest)
    ensures var tail := PrintExponent(f.exponent) + rest;
            NoDigit(tail) && (tail == [] || (tail[0] != 0x2d && tail[0] != 0x2e))
    ensures var tail := PrintFraction(f.fraction) + (PrintExponent(f.exponent) + rest);
            NoDigit(tail) && (tail == [] || tail[0] != 0x2d)
  {
  }

  lemma ThreeParts(a: Bytes, b: Bytes, c: Bytes, rest: Bytes)
    requires WholePart(a + (b + (c + rest))) == |a|
    requires FractionPart(b + (c + rest)) == |b| && ExponentPart(c + rest) == |c|
    ensures TokenLength(a + (b + (c + rest))) == |a| + |b| + |c|
  {
    hide WholePart, FractionPart, ExponentPart;
    var s := a + (b + (c + rest));
    assert s[|a|..] == b + (c + rest);
    assert s[|a| + |b|..] == c + rest;
  }

  lemma TokenReads(f: Form, rest: Bytes)
    requires f.NumberForm? && Digitals(f.whole) && (f.fraction.Some? ==> Digitals(f.fraction.value))
    requires (f.exponent.Some? ==> GoodExponent(f.exponent.value)) && Stops(rest)
    ensures TokenLength(PrintNumber(f) + rest) == |PrintNumber(f)|
  {
    hide WholePart, FractionPart, ExponentPart, PrintFraction, PrintExponent, Digitals, TokenLength, GoodExponent,
         Stops;
    var a, b, c := Sign(f.negative) + f.whole, PrintFraction(f.fraction), PrintExponent(f.exponent);
    TailStarts(f, rest);
    WholeReads(f.negative, f.whole, b + (c + rest));
    FractionReads(f.fraction, c + rest);
    ExponentReads(f.exponent, rest);
    PartsInOrder(Sign(f.negative), f.whole, b, c, rest);
    ThreeParts(a, b, c, rest);
  }

  lemma PartsInOrder(sign: Bytes, whole: Bytes, b: Bytes, c: Bytes, rest: Bytes)
    ensures sign + (whole + (b + (c + rest))) == sign + whole + (b + (c + rest)) == sign + (whole + (b + c)) + rest
  {
  }

  lemma NotWhole(before: Bytes, c: Byte, more: Bytes)
    requires c == 0x2e || c == 0x65 || c == 0x45
    ensures WholeValue(before + ([c] + more)) == None
  {
    hide FromDigits;
    var token := before + ([c] + more);
    assert token[|before|] == c;
    if Peeks(token, MINUS) {
      assert token[1..][|before| - 1] == c;
    }
  }

  lemma WholeIs(negative: bool, whole: Bytes)
    requires Digitals(whole) && whole != []
    ensures WholeValue(Sign(negative) + whole) ==
            if FromDigits(whole) >= WHOLE_LIMIT then None
            else Some(if negative then -FromDigits(whole) else FromDigits(whole))
  {
    hide FromDigits;
    var token := Sign(negative) + whole;
    assert negative ==> token[1..] == whole;
    assert !negative ==> token == whole;
  }

  lemma SignIsNotWhole(negative: bool)
    ensures WholeValue(Sign(negative)) == None
  {
  }

  /** The number a token stands for, by its parts and by its bytes. */
  lemma NumberIs(f: Form, floats: Floats)
    requires f.NumberForm? && Digitals(f.whole)
    requires f.exponent.Some? ==> GoodExponent(f.exponent.value)
    ensures NumberMeaning(f, floats) == NumberOf(PrintNumber(f), floats)
  {
    hide FromDigits, WholeValue, Digitals, PrintFraction, PrintExponent, GoodExponent;
    var before := Sign(f.negative) + f.whole;
    var b, c := PrintFraction(f.fraction), PrintExponent(f.exponent);
    assert PrintNumber(f) == before + (b + c);
    if f.fraction.Some? || f.exponent.Some? {
      var mark := TailMark(f);
      NotWhole(before, mark, (b + c)[1..]);
      assert b + c == [mark] + (b + c)[1..];
    } else {
      NoTail(f);
      assert before + ([] + []) == before;
      if f.whole == [] {
        assert before == Sign(f.negative);
        SignIsNotWhole(f.negative);
      } else {
        WholeIs(f.negative, f.whole);
      }
    }
  }

  lemma TailMark(f: Form) returns (mark: Byte)
    requires f.NumberForm? && (f.fraction.Some? || f.exponent.Some?)
    requires f.exponent.Some? ==> GoodExponent(f.exponent.value)
    ensures mark == 0x2e || mark == 0x65 || mark == 0x45
    ensures var s := PrintFraction(f.fraction) + PrintExponent(f.exponent); s != [] && s[0] == mark
  {
    mark := if f.fraction.Some? then 0x2e else f.exponent.value.letter;
  }

  lemma NoTail(f: Form)
    requires f.NumberForm? && f.fraction.None? && f.exponent.None?
    ensures PrintFraction(f.fraction) == [] && PrintExponent(f.exponent) == []
  {
  }

  lemma NumberReads(f: Form, rest: Bytes, floats: Floats)
    requires f.NumberForm? && GoodNumber(f, floats) && Stops(rest)
    ensures ParseNumber(PrintNumber(f) + rest, floats) == Parsed(FormMeaning(f, floats), rest)
    ensures PrintNumber(f) != [] && PrintNumber(f)[0] in {0x2d, 0x2e, 0x65, 0x45, 0x30, 0x31, 0x32, 0x33, 0x34,
                                                         0x35, 0x36, 0x37, 0x38, 0x39}
  {
    hide TokenLength, NumberOf;
    TokenReads(f, rest);
    NumberIs(f, floats);
    var s := PrintNumber(f) + rest;
    assert s[..|PrintNumber(f)|] == PrintNumber(f);
    assert s[|PrintNumber(f)|..] == rest;
    assert f.whole != [] ==> 0x30 <= f.whole[0] <= 0x39;
  }

  lemma FractionForth(s: Bytes) returns (fraction: Option<Bytes>)
    ensures fraction.Some? ==> Digitals(fraction.value)
    ensures s[..FractionPart(s)] == PrintFraction(fraction)
  {
    hide DigitRun;
    if Peeks(s, 0x2e) {
      var n := DigitRun(s[1..]);
      fraction := Some(s[1..][..n]);
      assert s[..1 + n] == [0x2e] + s[1..][..n];
    } else {
      fraction := None;
    }
  }

  lemma ExponentForth(s: Bytes) returns (exponent: Option<Exponent>)
    ensures exponent.Some? ==> GoodExponent(exponent.value)
    ensures s[..ExponentPart(s)] == PrintExponent(exponent)
  {
    hide DigitRun;
    if !Peeks(s, 0x65) && !Peeks(s, 0x45) {
      exponent := None;
    } else if Peeks(s[1..], 0x2b) || Peeks(s[1..], MINUS) {
      var n := DigitRun(s[2..]);
      exponent := Some(Exponent(s[0], Some(s[1]), s[2..][..n]));
      assert s[..2 + n] == [s[0], s[1]] + s[2..][..n];
    } else {
      var n := DigitRun(s[1..]);
      exponent := Some(Exponent(s[0], None, s[1..][..n]));
      assert s[..1 + n] == [s[0]] + s[1..][..n];
    }
  }

  lemma WholeForth(s: Bytes) returns (negative: bool, whole: Bytes)
    ensures Digitals(whole) && s[..WholePart(s)] == Sign(negative) + whole
  {
    hide DigitRun;
    negative := Peeks(s, MINUS);
    if negative {
      var n := DigitRun(s[1..]);
      whole := s[1..][..n];
      assert s[..1 + n] == [0x2d] + whole;
    } else {
      whole := s[..DigitRun(s)];
    }
  }

  lemma NumberForth(s: Bytes, floats: Floats) returns (f: Form)
    requires ParseNumber(s, floats).Parsed?
    ensures f.NumberForm? && GoodNumber(f, floats) && s == PrintNumber(f) + ParseNumber(s, floats).rest
    ensures ParseNumber(s, floats).value == FormMeaning(f, floats)
  {
    hide WholePart, FractionPart, ExponentPart, NumberOf, PrintFraction, PrintExponent, Digitals, NumberMeaning,
         GoodExponent;
    var n := TokenLength(s);
    var w := WholePart(s);
    var p := w + FractionPart(s[w..]);
    var negative, whole := WholeForth(s);
    var fraction := FractionForth(s[w..]);
    var exponent := ExponentForth(s[p..]);
    f := NumberForm(negative, whole, fraction, exponent);
    assert s[..n] == s[..w] + (s[w..][..p - w] + s[p..][..n - p]);
    assert s[..n] == PrintNumber(f);
    NumberIs(f, floats);
  }

  // ---------------------------------------------------------------------------
  // Strings: from text to layout
  // ---------------------------------------------------------------------------

  lemma DigitForth(c: Byte) returns (upper: bool)
    requires HexValue(c) >= 0
    ensures Hex(HexValue(c), upper) == c
  {
    upper := 0x41 <= c <= 0x46;
  }

  lemma UnitForth(s: Bytes) returns (upper: seq<bool>)
    requires Hex4(s).Some?
    ensures |upper| == 4 && s == HexDigits(Hex4(s).value, upper) + s[4..]
  {
    hide Hex, HexValue;
    var a := DigitForth(s[0]);
    var b := DigitForth(s[1]);
    var c := DigitForth(s[2]);
    var d := DigitForth(s[3]);
    upper := [a, b, c, d];
    NibblesBack(HexValue(s[0]), HexValue(s[1]), HexValue(s[2]), HexValue(s[3]));
    assert HexDigits(Hex4(s).value, upper) == [s[0], s[1], s[2], s[3]];
    assert s == [s[0], s[1], s[2], s[3]] + s[4..];
  }

  lemma NibblesBack(a: nat, b: nat, c: nat, d: nat)
    requires a < 16 && b < 16 && c < 16 && d < 16
    ensures var w := 0x1000 * a + 0x100 * b + 16 * c + d;
            w < 0x1_0000 && w / 0x1000 == a && w / 0x100 % 16 == b && w / 16 % 16 == c && w % 16 == d
  {
    var w := 0x1000 * a + 0x100 * b + 16 * c + d;
    QuotientIs(w, 0x1000, a, 0x100 * b + 16 * c + d);
    QuotientIs(w, 0x100, 16 * a + b, 16 * c + d);
    QuotientIs(w, 16, 0x100 * a + 16 * b + c, d);
    QuotientIs(16 * a + b, 16, a, b);
    QuotientIs(0x100 * a + 16 * b + c, 16, 16 * a + b, c);
  }

  /** The one or two pieces that an escape is. */
  lemma EscapeForth(s: Bytes) returns (pieces: seq<Piece>)
    requires EscapeAt(s).Parsed?
    ensures GoodPieces(pieces) && [0x5c] + s == PrintPieces(pieces) + EscapeAt(s).rest
    ensures 1 <= |pieces| <= 2 && EscapeAt(s).value == PiecesMeaning(pieces)
    ensures |pieces| == 2 <==> |pieces| > 1 && HighUnit(pieces[0]) && LowUnit(pieces[1])
    ensures |pieces| == 1 ==> !Completed(pieces[0], EscapeAt(s).rest)
  {
    hide Hex4, HexDigits, Utf8, CodePoint, UnicodeAt;
    if s[0] == 0x75 {
      pieces := UnicodeForth(s[1..]);
      assert [0x5c] + s == [0x5c, 0x75] + s[1..];
    } else {
      pieces := [Short(s[0])];
      assert [0x5c] + s == [0x5c, s[0]] + s[1..];
      OnePiece(Short(s[0]));
    }
  }

  lemma OnePiece(p: Piece)
    requires GoodPiece(p)
    ensures GoodPieces([p]) && PrintPieces([p]) == PrintPiece(p) && PiecesMeaning([p]) == PieceMeaning(p)
  {
    hide PrintPiece, PieceMeaning;
    assert [p][1..] == [];
    assert PrintPieces([]) == [] && PiecesMeaning([]) == [];
  }

  lemma TwoPieces(p: Piece, q: Piece)
    requires GoodPiece(p) && GoodPiece(q) && HighUnit(p) && LowUnit(q)
    ensures GoodPieces([p, q]) && PrintPieces([p, q]) == PrintPiece(p) + PrintPiece(q)
    ensures PiecesMeaning([p, q]) == CodePoint(0x1_0000 + (p.w - 0xd800) * 1024 + (q.w - 0xdc00))
  {
    hide PrintPiece, PieceMeaning, CodePoint;
    OnePiece(q);
    assert [p, q][1..] == [q] && [p, q][2..] == [];
    assert PiecesMeaning([]) == [];
  }

  lemma UnicodeForth(s: Bytes) returns (pieces: seq<Piece>)
    requires UnicodeAt(s).Parsed?
    ensures GoodPieces(pieces) && [0x5c, 0x75] + s == PrintPieces(pieces) + UnicodeAt(s).rest
    ensures 1 <= |pieces| <= 2 && UnicodeAt(s).value == PiecesMeaning(pieces)
    ensures |pieces| == 2 <==> |pieces| > 1 && HighUnit(pieces[0]) && LowUnit(pieces[1])
    ensures |pieces| == 1 ==> !Completed(pieces[0], UnicodeAt(s).rest)
  {
    hide Hex4, HexDigits, Utf8, CodePoint, PrintPieces, PiecesMeaning, PrintPiece;
    var w := Hex4(s).value;
    var rest := s[4..];
    var p := UnitPiece(s);
    OnePiece(p);
    if IsHigh(w) && EscapeFollows(rest) && IsLow(Hex4(rest[2..]).value) {
      var q := UnitPiece(rest[2..]);
      pieces := [p, q];
      TwoPieces(p, q);
      SameUtf8(Combined(w, q.w));
      BothForth(s, p, q);
    } else {
      pieces := [p];
      SameUtf8(w);
      UnitMeaning(p);
    }
  }

  lemma BothForth(s: Bytes, p: Piece, q: Piece)
    requires |s| >= 10 && s[4] == 0x5c && s[5] == 0x75 && GoodPiece(p) && GoodPiece(q)
    requires [0x5c, 0x75] + s == PrintPiece(p) + s[4..]
    requires [0x5c, 0x75] + s[4..][2..] == PrintPiece(q) + s[4..][2..][4..]
    ensures [0x5c, 0x75] + s == PrintPiece(p) + PrintPiece(q) + s[4..][6..]
  {
    hide PrintPiece;
    var rest := s[4..];
    assert rest == [0x5c, 0x75] + rest[2..] && rest[2..][4..] == rest[6..];
    assert PrintPiece(p) + (PrintPiece(q) + rest[6..]) == PrintPiece(p) + PrintPiece(q) + rest[6..];
  }

  /** A code unit read is a piece. */
  lemma UnitPiece(s: Bytes) returns (p: Piece)
    requires Hex4(s).Some?
    ensures p.Unit? && p.w == Hex4(s).value && GoodPiece(p)
    ensures [0x5c, 0x75] + s == PrintPiece(p) + s[4..]
  {
    hide Hex4, HexDigits;
    var upper := UnitForth(s);
    p := Unit(Hex4(s).value, upper);
    assert [0x5c, 0x75] + (HexDigits(p.w, upper) + s[4..]) == [0x5c, 0x75] + HexDigits(p.w, upper) + s[4..];
  }

  lemma UnitMeaning(p: Piece)
    requires p.Unit? && GoodPiece(p)
    ensures PieceMeaning(p) == CodePoint(p.w)
  {
  }

  /** What pieces in front of others print and mean, if no surrogate is completed across. */
  lemma PiecesJoin(front: seq<Piece>, more: seq<Piece>)
    requires GoodPieces(front) && GoodPieces(more) && 1 <= |front| <= 2
    requires |front| == 2 ==> HighUnit(front[0]) && LowUnit(front[1])
    requires |front| == 1 && HighUnit(front[0]) ==> more == [] || !LowUnit(more[0])
    ensures GoodPieces(front + more)
    ensures PrintPieces(front + more) == PrintPieces(front) + PrintPieces(more)
    ensures PiecesMeaning(front + more) == PiecesMeaning(front) + PiecesMeaning(more)
  {
    hide PrintPieces, PiecesMeaning, HighUnit, LowUnit;
    if |front| == 1 {
      assert front == [front[0]];
      JoinOne(front[0], more);
    } else {
      assert front == [front[0], front[1]];
      JoinTwo(front[0], front[1], more);
    }
  }

  lemma JoinOne(p: Piece, more: seq<Piece>)
    requires GoodPiece(p) && GoodPieces(more) && (HighUnit(p) ==> more == [] || !LowUnit(more[0]))
    ensures GoodPieces([p] + more)
    ensures PrintPieces([p] + more) == PrintPieces([p]) + PrintPieces(more)
    ensures PiecesMeaning([p] + more) == PiecesMeaning([p]) + PiecesMeaning(more)
  {
    hide PrintPiece, PieceMeaning, CodePoint, HighUnit, LowUnit;
    OnePiece(p);
    assert ([p] + more)[1..] == more;
  }

  lemma JoinTwo(p: Piece, q: Piece, more: seq<Piece>)
    requires GoodPiece(p) && GoodPiece(q) && GoodPieces(more) && HighUnit(p) && LowUnit(q)
    ensures GoodPieces([p, q] + more)
    ensures PrintPieces([p, q] + more) == PrintPieces([p, q]) + PrintPieces(more)
    ensures PiecesMeaning([p, q] + more) == PiecesMeaning([p, q]) + PiecesMeaning(more)
  {
    hide PrintPiece, PieceMeaning, CodePoint, HighUnit, LowUnit, PrintPieces;
    TwoPieces(p, q);
    var all := [p, q] + more;
    assert forall i :: 0 <= i < |all| ==> all[i] == if i == 0 then p else if i == 1 then q else more[i - 2];
    assert all[1..] == [q] + more && ([q] + more)[1..] == more && all[2..] == more;
    PrintStep(all);
    PrintStep([q] + more);
  }

  /** Whatever string is read, it was laid out as pieces. */
  lemma {:induction false} PiecesForth(s: Bytes) returns (pieces: seq<Piece>)
    requires StringFrom(s).Parsed?
    ensures GoodPieces(pieces) && s == PrintPieces(pieces) + ([0x22] + StringFrom(s).rest)
    ensures StringFrom(s).value == PiecesMeaning(pieces)
    decreases |s|
  {
    hide StringFrom, EscapeAt, PrintPieces, PiecesMeaning, Hex4;
    StringStep(s);
    if s[0] == 0x22 {
      pieces := [];
      NoPieces();
      assert s == [] + ([0x22] + s[1..]);
    } else {
      var front: seq<Piece>, rest: Bytes;
      if s[0] != 0x5c {
        front, rest := [Raw(s[0])], s[1..];
        OnePiece(Raw(s[0]));
        assert s == [s[0]] + rest;
      } else {
        front := EscapeForth(s[1..]);
        rest := EscapeAt(s[1..]).rest;
        assert s == [0x5c] + s[1..];
      }
      var more := PiecesForth(rest);
      NextUnit(more, StringFrom(rest).rest);
      NextIsUnit(more, StringFrom(rest).rest);
      PiecesJoin(front, more);
      pieces := front + more;
      assert s == PrintPieces(front) + (PrintPieces(more) + ([0x22] + StringFrom(s).rest));
    }
  }

  lemma NoPieces()
    ensures GoodPieces([]) && PrintPieces([]) == [] && PiecesMeaning([]) == []
  {
  }

  lemma NextIsUnit(pieces: seq<Piece>, rest: Bytes)
    requires GoodPieces(pieces)
    ensures pieces != [] && pieces[0].Unit? ==> EscapeFollows(PrintPieces(pieces) + ([0x22] + rest))
  {
    hide PrintPieces;
    PrintStep(pieces);
  }

  lemma StringForth(s: Bytes) returns (pieces: seq<Piece>)
    requires ParseString(s).Parsed?
    ensures GoodPieces(pieces) && s == PrintString(pieces) + ParseString(s).rest
    ensures ParseString(s).value == PiecesMeaning(pieces)
  {
    hide StringFrom, PrintPieces, PiecesMeaning;
    pieces := PiecesForth(s[1..]);
    assert s == [0x22] + s[1..];
  }

  // ---------------------------------------------------------------------------
  // Values: from layout to value
  // ---------------------------------------------------------------------------

  /** No form opens with a blank or with what ends a list. */
  lemma FormStarts(f: Form, floats: Floats)
    requires GoodForm(f, floats)
    ensures var s := PrintForm(f, floats);
            s != [] && s[0] !in {0x20, 0x09, 0x0a, 0x0d, 0x2c, 0x5d, 0x7d}
  {
    hide GoodItems, GoodMembers, PrintItems, PrintMembers, PrintPieces, PrintNumber, NumberMeaning;
    if f.NumberForm? {
      assert PrintNumber(f) + [] == PrintNumber(f);
      NumberReads(f, [], floats);
    }
  }

  lemma WordReads(f: Form, rest: Bytes, floats: Floats)
    requires f.NullWord? || f.TrueWord? || f.FalseWord?
    ensures ParseValue(PrintForm(f, floats) + rest, floats) == Parsed(FormMeaning(f, floats), rest)
  {
    hide ParseObject, ParseArray, ParseNumber, ParseString;
    var w := PrintForm(f, floats);
    var s := w + rest;
    assert w <= s && s[|w|..] == rest && s[0] == w[0];
  }

  lemma ScalarReads(f: Form, rest: Bytes, floats: Floats)
    requires (f.NumberForm? || f.StringForm?) && GoodForm(f, floats) && Stops(rest)
    ensures ParseValue(PrintForm(f, floats) + rest, floats) == Parsed(FormMeaning(f, floats), rest)
  {
    hide ParseObject, ParseArray, ParseNumber, ParseString, PrintNumber, NumberMeaning, PrintString, PiecesMeaning,
         Stops;
    if f.NumberForm? {
      NumberReads(f, rest, floats);
    } else {
      StringReads(f.pieces, rest);
    }
  }

  lemma {:induction false} FormReads(f: Form, rest: Bytes, floats: Floats)
    requires GoodForm(f, floats) && Stops(rest)
    ensures ParseValue(PrintForm(f, floats) + rest, floats) == Parsed(FormMeaning(f, floats), rest)
    decreases f, 1
  {
    hide ParseValue, PrintForm, GoodForm, FormMeaning, Stops;
    match f
    case NumberForm(_, _, _, _) => ScalarReads(f, rest, floats);
    case StringForm(_) => ScalarReads(f, rest, floats);
    case ArrayForm(_, _) => ArrayReads(f, rest, floats);
    case ObjectForm(_, _) => ObjectReads(f, rest, floats);
    case _ => WordReads(f, rest, floats);
  }

  /** A value between blanks is read, and the blanks after it are left. */
  lemma {:induction false} LaidReads(l: Laid, rest: Bytes, floats: Floats)
    requires GoodLaid(l, floats) && Ends(rest)
    ensures var s := Print(l, floats) + rest;
            && ParseValue(Skip(s), floats) == Parsed(Meaning(l, floats), l.after + rest)
            && Skip(l.after + rest) == rest
            && Skip(s) != [] && Skip(s)[0] !in {0x2c, 0x5d, 0x7d}
    decreases l, 0
  {
    hide ParseValue, PrintForm, GoodForm, FormMeaning, Skip, Stops, Ends;
    var form := PrintForm(l.form, floats);
    BlanksStop(l.after, rest);
    FormStarts(l.form, floats);
    SkipBlanks(l.before, form + (l.after + rest));
    assert Print(l, floats) + rest == l.before + (form + (l.after + rest));
    FormReads(l.form, l.after + rest, floats);
  }

  lemma SkipTwice(s: Bytes)
    ensures Skip(Skip(s)) == Skip(s)
  {
  }

  lemma ItemsSkip(s: Bytes, floats: Floats)
    ensures ParseItems(Skip(s), floats) == ParseItems(s, floats)
  {
    hide ParseValue, Skip, ParseItems;
    SkipTwice(s);
    ItemsUnfold(s, floats);
    ItemsUnfold(Skip(s), floats);
  }

  lemma MembersSkip(s: Bytes, done: seq<Entry<Json>>, floats: Floats)
    ensures ParseMembers(Skip(s), done, floats) == ParseMembers(s, done, floats)
  {
    hide ParseValue, Skip, ParseMembers, ParseString, Emplace;
    SkipTwice(s);
    MembersUnfold(s, done, floats);
    MembersUnfold(Skip(s), done, floats);
  }

  lemma FirstPeeks(c: Byte, rest: Bytes)
    requires c in {0x2c, 0x5d, 0x7d}
    ensures Ends([c] + rest) && Peeks([c] + rest, c) && ([c] + rest)[1..] == rest && Skip([c] + rest) == [c] + rest
    ensures c != 0x2c ==> !Peeks([c] + rest, 0x2c)
  {
  }

  lemma {:induction false} ItemsRead(items: seq<Laid>, rest: Bytes, floats: Floats)
    requires items != [] && GoodItems(items, floats)
    ensures var s := PrintItems(items, floats) + rest;
            && ParseItems(s, floats) == Parsed(ItemsMeaning(items, floats), rest)
            && Skip(s) != [] && !Peeks(Skip(s), 0x5d)
    decreases items
  {
    hide ParseValue, Print, GoodLaid, Meaning, Skip, ParseItems, Ends;
    var s := PrintItems(items, floats) + rest;
    if |items| == 1 {
      assert s == Print(items[0], floats) + ([0x5d] + rest);
      FirstPeeks(0x5d, rest);
      LaidReads(items[0], [0x5d] + rest, floats);
      ItemsUnfold(s, floats);
      assert items[1..] == [];
      NothingMeans(floats);
      assert [Meaning(items[0], floats)] + [] == [Meaning(items[0], floats)];
    } else {
      var more := PrintItems(items[1..], floats) + rest;
      assert s == Print(items[0], floats) + ([0x2c] + more);
      FirstPeeks(0x2c, more);
      LaidReads(items[0], [0x2c] + more, floats);
      ItemsRead(items[1..], rest, floats);
      ItemsUnfold(s, floats);
    }
  }

  lemma {:induction false} ArrayReads(f: Form, rest: Bytes, floats: Floats)
    requires f.ArrayForm? && GoodForm(f, floats)
    ensures ParseValue(PrintForm(f, floats) + rest, floats) == Parsed(FormMeaning(f, floats), rest)
    decreases f, 0
  {
    hide ParseObject, ParseItems, ParseNumber, ParseString, Skip, PrintItems, GoodItems, ItemsMeaning;
    var s := PrintForm(f, floats) + rest;
    if f.items == [] {
      assert s == [0x5b] + (f.gap + ([0x5d] + rest));
      assert s[1..] == f.gap + ([0x5d] + rest);
      FirstPeeks(0x5d, rest);
      BlanksStop(f.gap, [0x5d] + rest);
      NothingMeans(floats);
    } else {
      assert s == [0x5b] + (PrintItems(f.items, floats) + rest);
      assert s[1..] == PrintItems(f.items, floats) + rest;
      ItemsRead(f.items, rest, floats);
      ItemsSkip(s[1..], floats);
    }
  }

  lemma NothingMeans(floats: Floats)
    ensures ItemsMeaning([], floats) == [] && forall done :: MembersMeaning([], done, floats) == done
  {
  }

  lemma {:induction false} MemberReads(m: Member, rest: Bytes, floats: Floats)
    requires GoodMembers([m], floats) && Ends(rest)
    ensures var s := PrintMember(m, floats) + rest;
            && ParseMember(s, floats) ==
               Parsed(Entry(PiecesMeaning(m.key), Meaning(m.value, floats)), m.value.after + rest)
            && Skip(m.value.after + rest) == rest
            && Skip(s) != [] && !Peeks(Skip(s), 0x7d)
    decreases m, 1
  {
    hide ParseValue, Print, GoodLaid, Meaning, Skip, Ends, ParseString, PrintString, PiecesMeaning;
    assert [m][0] == m;
    var s := PrintMember(m, floats) + rest;
    var value := Print(m.value, floats) + rest;
    var colon := [0x3a] + value;
    assert s == m.before + (PrintString(m.key) + (m.between + colon));
    StringReads(m.key, m.between + colon);
    SkipBlanks(m.before, PrintString(m.key) + (m.between + colon));
    SkipBlanks(m.between, colon);
    assert colon[1..] == value;
    LaidReads(m.value, rest, floats);
  }

  lemma {:induction false} MembersRead(members: seq<Member>, done: seq<Entry<Json>>, rest: Bytes, floats: Floats)
    requires members != [] && GoodMembers(members, floats)
    ensures var s := PrintMembers(members, floats) + rest;
            && ParseMembers(s, done, floats) == Parsed(MembersMeaning(members, done, floats), rest)
            && Skip(s) != [] && !Peeks(Skip(s), 0x7d)
    decreases members
  {
    hide ParseMember, PrintMember, GoodLaid, Meaning, Skip, ParseMembers, Ends, PiecesMeaning, Emplace;
    var s := PrintMembers(members, floats) + rest;
    var m := members[0];
    if |members| == 1 {
      assert s == PrintMember(m, floats) + ([0x7d] + rest);
      FirstPeeks(0x7d, rest);
      MemberReads(m, [0x7d] + rest, floats);
      MembersUnfold(s, done, floats);
      assert members[1..] == [];
    } else {
      var more := PrintMembers(members[1..], floats) + rest;
      assert s == PrintMember(m, floats) + ([0x2c] + more);
      FirstPeeks(0x2c, more);
      MemberReads(m, [0x2c] + more, floats);
      MembersRead(members[1..], Emplace(done, PiecesMeaning(m.key), Meaning(m.value, floats)), rest, floats);
      MembersUnfold(s, done, floats);
    }
  }

  lemma {:induction false} ObjectReads(f: Form, rest: Bytes, floats: Floats)
    requires f.ObjectForm? && GoodForm(f, floats)
    ensures ParseValue(PrintForm(f, floats) + rest, floats) == Parsed(FormMeaning(f, floats), rest)
    decreases f, 0
  {
    hide ParseArray, ParseMembers, ParseNumber, ParseString, Skip, PrintMembers, GoodMembers, MembersMeaning;
    var s := PrintForm(f, floats) + rest;
    if f.members == [] {
      assert s == [0x7b] + (f.gap + ([0x7d] + rest));
      assert s[1..] == f.gap + ([0x7d] + rest);
      FirstPeeks(0x7d, rest);
      BlanksStop(f.gap, [0x7d] + rest);
      NothingMeans(floats);
    } else {
      assert s == [0x7b] + (PrintMembers(f.members, floats) + rest);
      assert s[1..] == PrintMembers(f.members, floats) + rest;
      MembersRead(f.members, [], rest, floats);
      MembersSkip(s[1..], [], floats);
    }
  }

  // ---------------------------------------------------------------------------
  // Values: from text to layout
  // ---------------------------------------------------------------------------

  lemma WordForth(s: Bytes, floats: Floats) returns (f: Form)
    requires ParseLiteral(s).Parsed?
    ensures GoodForm(f, floats) && s == PrintForm(f, floats) + ParseLiteral(s).rest
    ensures ParseLiteral(s).value == FormMeaning(f, floats)
  {
    f := if TRUE <= s then TrueWord else if FALSE <= s then FalseWord else NullWord;
  }

  lemma {:induction false} FormForth(s: Bytes, floats: Floats) returns (f: Form)
    requires ParseValue(s, floats).Parsed?
    ensures GoodForm(f, floats) && s == PrintForm(f, floats) + ParseValue(s, floats).rest
    ensures ParseValue(s, floats).value == FormMeaning(f, floats)
    decreases |s|, 0
  {
    hide ParseObject, ParseArray, ParseNumber, ParseString, ParseLiteral, PrintItems, PrintMembers, GoodNumber,
         PrintNumber, NumberMeaning, PrintString, PiecesMeaning, GoodItems, GoodMembers, ItemsMeaning, MembersMeaning;
    if Peeks(s, 0x7b) {
      f := ObjectForth(s[1..], floats);
      assert s == [0x7b] + s[1..];
    } else if Peeks(s, 0x5b) {
      f := ArrayForth(s[1..], floats);
      assert s == [0x5b] + s[1..];
    } else if Peeks(s, 0x22) {
      var pieces := StringForth(s);
      f := StringForm(pieces);
    } else if s != [] && s[0] in {0x74, 0x66, 0x6e} {
      f := WordForth(s, floats);
    } else {
      f := NumberForth(s, floats);
    }
  }

  /** A value read after blanks, before blanks and one of two more bytes. */
  lemma {:induction false} LaidForth(s: Bytes, floats: Floats) returns (l: Laid)
    requires ParseValue(Skip(s), floats).Parsed?
    ensures GoodLaid(l, floats) && s == Print(l, floats) + Skip(ParseValue(Skip(s), floats).rest)
    ensures ParseValue(Skip(s), floats).value == Meaning(l, floats)
    decreases |s|, 1
  {
    hide ParseValue, GoodForm, PrintForm, FormMeaning, Skip, Blanks;
    var before := SkipForth(s);
    var value := ParseValue(Skip(s), floats);
    var f := FormForth(Skip(s), floats);
    var after := SkipForth(value.rest);
    l := Laid(before, f, after);
    assert s == before + (PrintForm(f, floats) + (after + Skip(value.rest)));
    assert before + (PrintForm(f, floats) + (after + Skip(value.rest))) ==
           before + (PrintForm(f, floats) + after) + Skip(value.rest);
  }

  /** The rest of an array after its bracket. */
  lemma {:induction false} ArrayForth(s: Bytes, floats: Floats) returns (f: Form)
    requires ParseArray(s, floats).Parsed?
    ensures f.ArrayForm? && GoodForm(f, floats) && [0x5b] + s == PrintForm(f, floats) + ParseArray(s, floats).rest
    ensures ParseArray(s, floats).value == FormMeaning(f, floats)
    decreases |s|, 3
  {
    hide ParseItems, Skip, PrintItems, GoodItems, ItemsMeaning;
    var t := Skip(s);
    if Peeks(t, 0x5d) {
      var gap := SkipForth(s);
      f := ArrayForm(gap, []);
      NoItems(floats);
      assert [0x5b] + s == [0x5b] + (gap + [0x5d]) + t[1..];
    } else {
      ItemsSkip(s, floats);
      var items := ItemsForth(s, floats);
      f := ArrayForm([], items);
    }
  }

  lemma NoItems(floats: Floats)
    ensures GoodItems([], floats) && ItemsMeaning([], floats) == []
    ensures GoodMembers([], floats) && forall done :: MembersMeaning([], done, floats) == done
  {
  }

  lemma {:induction false} ItemsForth(s: Bytes, floats: Floats) returns (items: seq<Laid>)
    requires ParseItems(s, floats).Parsed?
    ensures items != [] && GoodItems(items, floats)
    ensures s == PrintItems(items, floats) + ParseItems(s, floats).rest
    ensures ParseItems(s, floats).value == ItemsMeaning(items, floats)
    decreases |s|, 2
  {
    hide ParseValue, ParseItems, Skip, GoodLaid, Print, Meaning;
    ItemsUnfold(s, floats);
    var item := ParseValue(Skip(s), floats);
    var l := LaidForth(s, floats);
    var t := Skip(item.rest);
    NoItems(floats);
    if Peeks(t, 0x2c) {
      var more := ItemsForth(t[1..], floats);
      items := [l] + more;
      assert items[1..] == more;
      assert s == Print(l, floats) + ([0x2c] + (PrintItems(more, floats) + ParseItems(s, floats).rest));
    } else {
      items := [l];
      assert items[1..] == [];
      assert s == Print(l, floats) + ([0x5d] + t[1..]);
    }
  }

  lemma {:induction false} MemberForth(s: Bytes, floats: Floats) returns (m: Member)
    requires ParseMember(s, floats).Parsed?
    ensures GoodMembers([m], floats) && s == PrintMember(m, floats) + Skip(ParseMember(s, floats).rest)
    ensures ParseMember(s, floats).value == Entry(PiecesMeaning(m.key), Meaning(m.value, floats))
    decreases |s|, 2
  {
    hide ParseValue, ParseString, Skip, GoodLaid, Print, Meaning, PrintString, PiecesMeaning, Blanks, GoodPieces;
    var before := SkipForth(s);
    var key := ParseString(Skip(s));
    var pieces := StringForth(Skip(s));
    var between := SkipForth(key.rest);
    var t := Skip(key.rest);
    var l := LaidForth(t[1..], floats);
    m := Member(before, pieces, between, l);
    NoItems(floats);
    assert [m][0] == m && [m][1..] == [];
    var end := Skip(ParseMember(s, floats).rest);
    assert t == [0x3a] + (Print(l, floats) + end);
    assert s == before + (PrintString(pieces) + (between + t));
  }

  lemma {:induction false} MembersForth(s: Bytes, done: seq<Entry<Json>>, floats: Floats) returns (members: seq<Member>)
    requires ParseMembers(s, done, floats).Parsed?
    ensures members != [] && GoodMembers(members, floats)
    ensures s == PrintMembers(members, floats) + ParseMembers(s, done, floats).rest
    ensures ParseMembers(s, done, floats).value == MembersMeaning(members, done, floats)
    decreases |s|, 3
  {
    hide ParseMember, ParseMembers, Skip, GoodLaid, PrintMember, Meaning, PiecesMeaning, Emplace, Blanks, GoodPieces;
    MembersUnfold(s, done, floats);
    var member := ParseMember(s, floats);
    var m := MemberForth(s, floats);
    var now := Emplace(done, member.value.key, member.value.value);
    var t := Skip(member.rest);
    NoItems(floats);
    if Peeks(t, 0x2c) {
      var more := MembersForth(t[1..], now, floats);
      members := [m] + more;
      assert [m][0] == m && members[1..] == more;
      assert s == PrintMember(m, floats) + ([0x2c] + (PrintMembers(more, floats) + ParseMembers(s, done, floats).rest));
    } else {
      members := [m];
      assert members[1..] == [];
      assert s == PrintMember(m, floats) + ([0x7d] + t[1..]);
    }
  }

  lemma {:induction false} ObjectForth(s: Bytes, floats: Floats) returns (f: Form)
    requires ParseObject(s, floats).Parsed?
    ensures f.ObjectForm? && GoodForm(f, floats) && [0x7b] + s == PrintForm(f, floats) + ParseObject(s, floats).rest
    ensures ParseObject(s, floats).value == FormMeaning(f, floats)
    decreases |s|, 4
  {
    hide ParseMembers, Skip, PrintMembers, GoodMembers, MembersMeaning;
    var t := Skip(s);
    if Peeks(t, 0x7d) {
      var gap := SkipForth(s);
      f := ObjectForm(gap, []);
      NoItems(floats);
      assert [0x7b] + s == [0x7b] + (gap + [0x7d]) + t[1..];
    } else {
      MembersSkip(s, [], floats);
      var members := MembersForth(s, [], floats);
      f := ObjectForm([], members);
    }
  }

  // ---------------------------------------------------------------------------
  // Whole texts
  // ---------------------------------------------------------------------------

  /** The layout `l` prints the text and means the value. */
  ghost predicate LaysOut(l: Laid, text: Bytes, value: Json, floats: Floats) {
    GoodLaid(l, floats) && Print(l, floats) == text && Meaning(l, floats) == value
  }

  /** Every layout is read as what it means, wherever its blanks stand and however its strings are escaped. */
  lemma LayoutIsRead(l: Laid, floats: Floats)
    requires GoodLaid(l, floats)
    ensures ParseDocument(Print(l, floats), floats) == Ok(Meaning(l, floats))
  {
    hide ParseValue, Skip, GoodLaid, Print, Meaning;
    LaidReads(l, [], floats);
    assert Print(l, floats) + [] == Print(l, floats) && l.after + [] == l.after;
  }

  /** The exact language of the parser: a text is read as a value if and only if some layout of it means the value. */
  lemma ParsesExactly(text: Bytes, value: Json, floats: Floats)
    ensures ParseDocument(text, floats) == Ok(value) <==> exists l :: LaysOut(l, text, value, floats)
  {
    hide ParseValue, Skip, GoodLaid, Print, Meaning;
    if ParseDocument(text, floats) == Ok(value) {
      var l := LaidForth(text, floats);
      assert Print(l, floats) + [] == Print(l, floats);
      assert LaysOut(l, text, value, floats);
    }
    if l :| LaysOut(l, text, value, floats) {
      LayoutIsRead(l, floats);
    }
  }

  /** The bytes of a code point stand for it, and their lead byte says how many they are. */
  lemma CodePointDecodes(code: nat)
    requires code < 0x11_0000
    ensures var s: seq<int> := CodePoint(code);
            if code < 0x80 then s == [code]
            else
              && (forall i :: 1 <= i < |s| ==> 0x80 <= s[i] <= 0xbf)
              && if code < 0x800 then
                   |s| == 2 && 0xc2 <= s[0] <= 0xdf && (s[0] - 0xc0) * 64 + (s[1] - 0x80) == code
                 else if code < 0x1_0000 then
                   && |s| == 3 && 0xe0 <= s[0] <= 0xef
                   && (s[0] - 0xe0) * 4096 + (s[1] - 0x80) * 64 + (s[2] - 0x80) == code
                 else
                   && |s| == 4 && 0xf0 <= s[0] <= 0xf4
                   && (s[0] - 0xf0) * 262144 + (s[1] - 0x80) * 4096 + (s[2] - 0x80) * 64 + (s[3] - 0x80) == code
  {
    assert code / 64 / 64 == code / 4096 && code / 4096 / 64 == code / 262144;
  }

  /** An object of one member, whose value stands right before the closing brace. */
  lemma OneMember(key: seq<Piece>, value: Laid, floats: Floats)
    requires GoodPieces(key) && GoodLaid(value, floats)
    ensures var l := Laid([], ObjectForm([], [Member([], key, [], value)]), []);
            && GoodLaid(l, floats)
            && Print(l, floats) == [0x7b] + (PrintString(key) + ([0x3a] + Print(value, floats))) + [0x7d]
            && Meaning(l, floats) == Object([Entry(PiecesMeaning(key), Meaning(value, floats))])
  {
    hide PrintString, PiecesMeaning, Print, Meaning, GoodPieces, Less;
    var m := Member([], key, [], value);
    NoItems(floats);
    assert [m][0] == m && [m][1..] == [];
    var e := Entry(PiecesMeaning(key), Meaning(value, floats));
    assert Emplace([], e.key, e.value) == [e];
    assert MembersMeaning([m], [], floats) == MembersMeaning([], [e], floats);
    assert PrintMember(m, floats) == PrintString(key) + ([0x3a] + Print(value, floats));
    assert PrintMembers([m], floats) == PrintMember(m, floats) + [0x7d];
    OneForm(Laid([], ObjectForm([], [m]), []), floats);
  }

  lemma OneForm(l: Laid, floats: Floats)
    requires l.before == l.after == [] && GoodForm(l.form, floats)
    ensures GoodLaid(l, floats) && Print(l, floats) == PrintForm(l.form, floats)
    ensures Meaning(l, floats) == FormMeaning(l.form, floats)
  {
    hide GoodForm, PrintForm, FormMeaning;
    assert [] + (PrintForm(l.form, floats) + []) == PrintForm(l.form, floats);
  }

  lemma OneNumber(before: Bytes, digits: Bytes, floats: Floats)
    requires Blanks(before) && digits != [] && Digitals(digits) && FromDigits(digits) < 1_000_000
    ensures var l := Laid(before, NumberForm(false, digits, None, None), []);
            && GoodLaid(l, floats) && Print(l, floats) == before + digits
            && Meaning(l, floats) == Number(Whole(FromDigits(digits)))
  {
    hide FromDigits;
    var f := NumberForm(false, digits, None, None);
    assert PrintNumber(f) == digits;
    assert before + (digits + []) == before + digits;
  }

  /** `{"mtu": 1280}`: a blank may stand after the colon. */
  lemma BlankAfterColon(floats: Floats)
    ensures ParseDocument([0x7b, 0x22, 0x6d, 0x74, 0x75, 0x22, 0x3a, 0x20, 0x31, 0x32, 0x38, 0x30, 0x7d], floats) ==
            Ok(Object([Entry([0x6d, 0x74, 0x75], Number(Whole(1280)))]))
  {
    hide ParseDocument, FromDigits, GoodLaid, Print, Meaning, PiecesMeaning, PrintPieces;
    var value := Laid([0x20], NumberForm(false, [0x31, 0x32, 0x38, 0x30], None, None), []);
    var key := [Raw(0x6d), Raw(0x74), Raw(0x75)];
    ThreeRaw(0x6d, 0x74, 0x75);
    TwelveEighty();
    OneNumber([0x20], [0x31, 0x32, 0x38, 0x30], floats);
    OneMember(key, value, floats);
    LayoutIsRead(Laid([], ObjectForm([], [Member([], key, [], value)]), []), floats);
    assert PrintString(key) == [0x22, 0x6d, 0x74, 0x75, 0x22];
    assert [0x7b] + (PrintString(key) + ([0x3a] + ([0x20] + [0x31, 0x32, 0x38, 0x30]))) + [0x7d] ==
           [0x7b, 0x22, 0x6d, 0x74, 0x75, 0x22, 0x3a, 0x20, 0x31, 0x32, 0x38, 0x30, 0x7d];
  }

  lemma ThreeRaw(a: Byte, b: Byte, c: Byte)
    requires GoodPiece(Raw(a)) && GoodPiece(Raw(b)) && GoodPiece(Raw(c))
    ensures var key := [Raw(a), Raw(b), Raw(c)];
            GoodPieces(key) && PrintPieces(key) == PiecesMeaning(key) == [a, b, c]
  {
    hide PrintPieces, PiecesMeaning;
    OnePiece(Raw(c));
    JoinOne(Raw(b), [Raw(c)]);
    OnePiece(Raw(b));
    JoinOne(Raw(a), [Raw(b), Raw(c)]);
    OnePiece(Raw(a));
    assert [Raw(b)] + [Raw(c)] == [Raw(b), Raw(c)] && [Raw(a)] + [Raw(b), Raw(c)] == [Raw(a), Raw(b), Raw(c)];
  }

  lemma TwelveEighty()
    ensures FromDigits([0x31, 0x32, 0x38, 0x30]) == 1280
  {
    hide FromDigits;
    DecimalReads([], 0x31);
    DecimalReads([0x31], 0x32);
    DecimalReads([0x31, 0x32], 0x38);
    DecimalReads([0x31, 0x32, 0x38], 0x30);
    assert [] + [0x31] == [0x31] && [0x31] + [0x32] == [0x31, 0x32] && [0x31, 0x32] + [0x38] == [0x31, 0x32, 0x38];
    assert [0x31, 0x32, 0x38] + [0x30] == [0x31, 0x32, 0x38, 0x30];
  }

  /** What the escapes that the serializer never writes are read as. */
  lemma ForeignEscapes(slash: Piece, two: Piece, three: Piece)
    requires slash == Short(0x2f)
    requires two == Unit(0xe9, [false, false, false, false])
    requires three == Unit(0x20ac, [true, true, true, true])
    ensures GoodPiece(slash) && PrintPiece(slash) == [0x5c, 0x2f] && PieceMeaning(slash) == [0x2f]
    ensures GoodPiece(two) && PrintPiece(two) == [0x5c, 0x75, 0x30, 0x30, 0x65, 0x39]
    ensures PieceMeaning(two) == [0xc3, 0xa9]
    ensures GoodPiece(three) && PrintPiece(three) == [0x5c, 0x75, 0x32, 0x30, 0x41, 0x43]
    ensures PieceMeaning(three) == [0xe2, 0x82, 0xac]
  {
  }

  lemma OneStringIsRead(p: Piece, floats: Floats)
    requires GoodPiece(p)
    ensures ParseDocument([0x22] + (PrintPiece(p) + [0x22]), floats) == Ok(String(PieceMeaning(p)))
  {
    hide ParseDocument, PrintPiece, PieceMeaning, PrintPieces, PiecesMeaning;
    OnePiece(p);
    var l := Laid([], StringForm([p]), []);
    OneForm(l, floats);
    LayoutIsRead(l, floats);
  }

  /** `"\/"`, `"\u00e9"` and `"\u20AC"` are read as one byte, two bytes and three bytes of UTF-8. */
  lemma ForeignEscapesAreRead(floats: Floats)
    ensures ParseDocument([0x22, 0x5c, 0x2f, 0x22], floats) == Ok(String([0x2f]))
    ensures ParseDocument([0x22, 0x5c, 0x75, 0x30, 0x30, 0x65, 0x39, 0x22], floats) == Ok(String([0xc3, 0xa9]))
    ensures ParseDocument([0x22, 0x5c, 0x75, 0x32, 0x30, 0x41, 0x43, 0x22], floats) == Ok(String([0xe2, 0x82, 0xac]))
  {
    hide ParseDocument, PrintPiece, PieceMeaning;
    var slash, two, three :=
      Short(0x2f), Unit(0xe9, [false, false, false, false]), Unit(0x20ac, [true, true, true, true]);
    ForeignEscapes(slash, two, three);
    OneStringIsRead(slash, floats);
    OneStringIsRead(two, floats);
    OneStringIsRead(three, floats);
    assert [0x22] + ([0x5c, 0x2f] + [0x22]) == [0x22, 0x5c, 0x2f, 0x22];
    assert [0x22] + ([0x5c, 0x75, 0x30, 0x30, 0x65, 0x39] + [0x22]) == [0x22, 0x5c, 0x75, 0x30, 0x30, 0x65, 0x39, 0x22];
    assert [0x22] + ([0x5c, 0x75, 0x32, 0x30, 0x41, 0x43] + [0x22]) == [0x22, 0x5c, 0x75, 0x32, 0x30, 0x41, 0x43, 0x22];
  }
}
