/** The ISO 8601 text of a plist date and how it is read back. */
module PlistDate {
  import opened Words
  import opened CivilDate
  import opened Decimal

  const EPOCH_SECONDS := 978307200
  const SECONDS_PER_DAY := 86400

  const DASH: Byte := 0x2d
  const COLON: Byte := 0x3a
  const LETTER_T: Byte := 0x54
  const LETTER_Z: Byte := 0x5a

  // ---------------------------------------------------------------------------
  // Formatting
  // ---------------------------------------------------------------------------

  /** Floor division by the day, shifted by almost a day for a time before 1970. */
  function DayOf(seconds: int): int {
    Truncated(if seconds >= 0 then seconds else seconds - (SECONDS_PER_DAY - 1), SECONDS_PER_DAY)
  }

  /** The civil date of a count of seconds since 2001. */
  function DateOf(secondsSince2001: int): Date {
    CivilFromDays(DayOf(secondsSince2001 + EPOCH_SECONDS))
  }

  /** `%04lld`: the sign counts toward the width. */
  function YearText(year: int): Bytes {
    if year >= 0 then PadTo(Digits(year), 4) else [MINUS] + PadTo(Digits(-year), 3)
  }

  /** `%02u`. */
  function Two(n: nat): Bytes {
    PadTo(Digits(n), 2)
  }

  function TimeText(remainder: nat): Bytes {
    [LETTER_T] + Two(remainder / 3600) + [COLON] + Two(remainder % 3600 / 60) + [COLON] + Two(remainder % 60) +
    [LETTER_Z]
  }

  function FormatDate(secondsSince2001: int): Bytes {
    var seconds := secondsSince2001 + EPOCH_SECONDS;
    FloorByTruncation(seconds, SECONDS_PER_DAY);
    var remainder := seconds - DayOf(seconds) * SECONDS_PER_DAY;
    var date := DateOf(secondsSince2001);
    YearText(date.year) + [DASH] + Two(date.month) + [DASH] + Two(date.day) + TimeText(remainder)
  }

  // ---------------------------------------------------------------------------
  // Parsing
  // ---------------------------------------------------------------------------

  /** The number `count` characters stand for, or -1 when one is not a digit. */
  function Number(text: Bytes, offset: nat, count: nat): int
    requires offset + count <= |text|
  {
    var field := text[offset..offset + count];
    if AllDigits(field) then FromDigits(field) else -1
  }

  function ParsedDate(text: Bytes): Result<int> {
    if |text| < 19 then Err(Protocol)
    else
      var year, month, day := Number(text, 0, 4), Number(text, 5, 2), Number(text, 8, 2);
      var hour, minute, second := Number(text, 11, 2), Number(text, 14, 2), Number(text, 17, 2);
      if year < 0 || month < 0 || day < 0 || hour < 0 || minute < 0 || second < 0 then Err(Protocol)
      else
        Ok(DaysFromCivil(year, Wrap32(month), Wrap32(day)) * 86400 + hour * 3600 + minute * 60 + second - EPOCH_SECONDS)
  }

  /** One fixed-width field, read a character at a time. */
  method ReadNumber(text: Bytes, offset: nat, count: nat) returns (value: int)
    requires offset + count <= |text|
    ensures value == Number(text, offset, count)
  {
    ghost var field := text[offset..offset + count];
    value := 0;
    for i := 0 to count
      invariant AllDigits(field[..i]) && value == FromDigits(field[..i])
    {
      if !IsDigit(text[offset + i]) {
        assert !IsDigit(field[i]);
        return -1;
      }
      assert field[..i + 1][..i] == field[..i];
      value := value * 10 + (text[offset + i] - ZERO);
    }
    assert field[..count] == field;
  }

  method ParseDate(text: Bytes) returns (r: Result<int>)
    ensures r == ParsedDate(text)
  {
    hide DaysFromCivil, Wrap32, Number;
    if |text| < 19 {
      return Err(Protocol);
    }
    var year := ReadNumber(text, 0, 4);
    var month := ReadNumber(text, 5, 2);
    var day := ReadNumber(text, 8, 2);
    var hour := ReadNumber(text, 11, 2);
    var minute := ReadNumber(text, 14, 2);
    var second := ReadNumber(text, 17, 2);
    if year < 0 || month < 0 || day < 0 || hour < 0 || minute < 0 || second < 0 {
      return Err(Protocol);
    }
    var days := DaysFromCivil(year, Wrap32(month), Wrap32(day));
    return Ok(days * 86400 + hour * 3600 + minute * 60 + second - EPOCH_SECONDS);
  }

  /** Whatever the text, the seconds it is read as fit 64 bits. */
  lemma ParsedDateFits(text: Bytes)
    ensures ParsedDate(text).Ok? ==> -TWO_TO_THE_63 <= ParsedDate(text).value < TWO_TO_THE_63
  {
    hide DaysFromCivil, Number;
    if ParsedDate(text).Ok? {
      var year, month, day := Number(text, 0, 4), Number(text, 5, 2), Number(text, 8, 2);
      NumberRange(text, 0, 4);
      NumberRange(text, 11, 2);
      NumberRange(text, 14, 2);
      NumberRange(text, 17, 2);
      DaysInReach(year, Wrap32(month), Wrap32(day));
    }
  }

  lemma DaysInReach(year: nat, month: Word32, day: Word32)
    requires year <= 9999
    ensures -1000000 <= DaysFromCivil(year, month, day) < 0x2_0000_0000
  {
    hide Truncated, YearStart, Wrap32;
    var y := if month <= 2 then year - 1 else year;
    FloorByTruncation(y, 400);
    assert -1 <= y / 400 <= 24;
  }

  // ---------------------------------------------------------------------------
  // Years 0 to 9999 come back, and no other year does
  // ---------------------------------------------------------------------------

  lemma TwoBack(n: nat)
    requires n < 100
    ensures |Two(n)| == 2 && AllDigits(Two(n)) && FromDigits(Two(n)) == n
  {
    PaddedBack(n, 2);
    assert Pow10(2) == 10 * Pow10(1);
    DigitCount(n, 2);
  }

  /** The text after the year. */
  function Tail(month: nat, day: nat, remainder: nat): Bytes {
    [DASH] + Two(month) + [DASH] + Two(day) + TimeText(remainder)
  }

  /** The fixed-width fields of a text whose year part has four characters. */
  lemma FieldsOf(year: Bytes, month: nat, day: nat, remainder: nat)
    requires |year| == 4 && month < 100 && day < 100 && remainder < SECONDS_PER_DAY
    ensures var text := year + Tail(month, day, remainder);
            && |text| == 20
            && Number(text, 0, 4) == (if AllDigits(year) then FromDigits(year) else -1)
            && Number(text, 5, 2) == month && Number(text, 8, 2) == day
            && Number(text, 11, 2) == remainder / 3600
            && Number(text, 14, 2) == remainder % 3600 / 60 && Number(text, 17, 2) == remainder % 60
  {
    hide Two, FromDigits, AllDigits;
    var h, mi, s := remainder / 3600, remainder % 3600 / 60, remainder % 60;
    TwoBack(month);
    TwoBack(day);
    TwoBack(h);
    TwoBack(mi);
    TwoBack(s);
    var text := year + Tail(month, day, remainder);
    assert text == year + [DASH] + Two(month) + [DASH] + Two(day) +
                   [LETTER_T] + Two(h) + [COLON] + Two(mi) + [COLON] + Two(s) + [LETTER_Z];
    assert text[0..4] == year;
    assert text[5..7] == Two(month);
    assert text[8..10] == Two(day);
    assert text[11..13] == Two(h);
    assert text[14..16] == Two(mi);
    assert text[17..19] == Two(s);
  }

  lemma RemainderRange(seconds: int)
    ensures DayOf(seconds) == seconds / SECONDS_PER_DAY
    ensures 0 <= seconds - DayOf(seconds) * SECONDS_PER_DAY < SECONDS_PER_DAY
  {
    FloorByTruncation(seconds, SECONDS_PER_DAY);
  }

  lemma FormatIsYearAndTail(s: int)
    ensures var date := DateOf(s);
            var remainder := s + EPOCH_SECONDS - DayOf(s + EPOCH_SECONDS) * SECONDS_PER_DAY;
            && IsDate(date) && 0 <= remainder < SECONDS_PER_DAY
            && FormatDate(s) == YearText(date.year) + Tail(date.month, date.day, remainder)
  {
    hide DateOf, TimeText, Two, YearText, DayOf;
    RemainderRange(s + EPOCH_SECONDS);
    DateOfIsDate(s);
    var date := DateOf(s);
    var remainder := s + EPOCH_SECONDS - DayOf(s + EPOCH_SECONDS) * SECONDS_PER_DAY;
    assert FormatDate(s) == YearText(date.year) + Tail(date.month, date.day, remainder);
  }

  lemma DateOfIsDate(s: int)
    ensures IsDate(DateOf(s))
    ensures DaysFromCivil(DateOf(s).year, DateOf(s).month, DateOf(s).day) == DayOf(s + EPOCH_SECONDS)
  {
    hide DaysFromCivil, CivilFromDays, DayOf;
    DaysRoundTrip(DayOf(s + EPOCH_SECONDS));
  }

  lemma YearTextShort(year: nat)
    ensures |YearText(year)| == 4 <==> year <= 9999
    ensures AllDigits(YearText(year)) && FromDigits(YearText(year)) == year
    ensures year > 9999 ==> YearText(year) == Digits(year)
  {
    assert Pow10(4) == 10 * Pow10(3);
    assert Pow10(2) == 10 * Pow10(1);
    DigitCount(year, 4);
    PaddedBack(year, 4);
  }

  lemma FieldsMakeSeconds(days: int, remainder: nat)
    requires remainder < SECONDS_PER_DAY
    ensures remainder / 3600 * 3600 + remainder % 3600 / 60 * 60 + remainder % 60 == remainder
  {
  }

  /** A date whose year is 0..9999 is read back to the second, negative times included. */
  lemma DateTextRoundTrip(s: int)
    requires 0 <= DateOf(s).year <= 9999
    ensures ParsedDate(FormatDate(s)) == Ok(s)
  {
    hide FormatDate, DateOf, DaysFromCivil, Number, YearText, Tail, DayOf;
    var date := DateOf(s);
    var seconds := s + EPOCH_SECONDS;
    var remainder := seconds - DayOf(seconds) * SECONDS_PER_DAY;
    FormatIsYearAndTail(s);
    DateOfIsDate(s);
    YearTextShort(date.year);
    FieldsOf(YearText(date.year), date.month, date.day, remainder);
    FieldsMakeSeconds(DayOf(seconds), remainder);
    NoWrap(date.month);
    NoWrap(date.day);
  }

  lemma NonDigitRefused(text: Bytes, offset: nat, count: nat, i: nat)
    requires offset + count <= |text| && offset <= i < offset + count && !IsDigit(text[i])
    ensures Number(text, offset, count) == -1
  {
    assert text[offset..offset + count][i - offset] == text[i];
  }

  /** A year before 0 prints a sign, and one of five or six digits pushes a dash into the month field. */
  lemma OtherShortYearsRefused(s: int)
    requires DateOf(s).year < 0 || 9999 < DateOf(s).year < 1000000
    ensures ParsedDate(FormatDate(s)).Err?
  {
    hide FormatDate, DateOf, DaysFromCivil, Number, DayOf, Digits, PadTo, Two, TimeText;
    FormatIsYearAndTail(s);
    var year, text := DateOf(s).year, FormatDate(s);
    if year < 0 {
      assert text[0] == MINUS;
      NonDigitRefused(text, 0, 4, 0);
    } else {
      YearTextShort(year);
      assert Pow10(6) == 1000000 by {
        assert Pow10(5) == 10 * Pow10(4) && Pow10(3) == 10 * Pow10(2);
      }
      DigitCount(year, 6);
      DigitCount(year, 4);
      assert 5 <= |YearText(year)| <= 6;
      assert text[|YearText(year)|] == DASH;
      NonDigitRefused(text, 5, 2, |YearText(year)|);
    }
  }

  /**
   The day count of a date whose fields were read from text: small, or, for day 0 of March of
   a year divisible by 400, wrapped past 2^32 days.
   */
  lemma ReadDayCount(year: nat, month: nat, day: nat)
    requires year <= 9999 && month < 100 && day < 100
    ensures var days := DaysFromCivil(year, month, day);
            || days < 5000000
            || (year % 400 == 0 && days == year / 400 * 146097 + TWO_TO_THE_32 - 1 - 719468)
  {
    hide Truncated, Wrap32, YearStart;
    var y := if month <= 2 then year - 1 else year;
    var yoe, shifted := y % 400, if month > 2 then month - 3 else month + 9;
    FloorByTruncation(y, 400);
    NoWrap(yoe);
    NoWrap(shifted);
    NoWrap(153 * shifted + 2);
    YearStartBound(yoe);
    var doy := (153 * shifted + 2) / 5 + day - 1;
    if doy >= 0 {
      NoWrap(doy);
      NoWrap(YearStart(yoe) + doy);
    } else {
      WrapsBelowZero(yoe);
    }
  }

  lemma WrapsBelowZero(yoe: nat)
    requires yoe < 400
    ensures Wrap32(-1) == TWO_TO_THE_32 - 1
    ensures Wrap32(YearStart(yoe) + TWO_TO_THE_32 - 1) == if yoe == 0 then TWO_TO_THE_32 - 1 else YearStart(yoe) - 1
  {
  }

  lemma LateYearsHaveLateDays(date: Date)
    requires IsDate(date) && date.year >= 1000000
    ensures DaysFromCivil(date.year, date.month, date.day) > 6000000
  {
    hide DaysFromCivil, LeapEnd, YearStart;
    var m := MarchOfDate(date);
    DaysOfMarch(m);
    MonthBack(m.mp, m.day, LeapEnd(m.yoe));
    YearStartBound(m.yoe);
    assert m.era >= 2499;
  }

  /** The dates the wrapped day counts stand for. */
  lemma WrappedDays(k: nat, j: nat)
    requires k <= 24 && j <= 4
    ensures CivilFromDays(k * 146097 + TWO_TO_THE_32 - 1 - 719468 + j) == Date(11759221 + 400 * k, 3, 20 + j)
  {
    hide CivilFromDays;
    var m := March(k + 29398, 21, 0, 20 + j);
    assert m.Days() == k * 146097 + TWO_TO_THE_32 - 1 - 719468 + j;
    CivilOfMarch(m);
  }

  lemma LateYearsDoNotComeBack(s: int)
    requires DateOf(s).year >= 1000000
    ensures ParsedDate(FormatDate(s)) != Ok(s)
  {
    hide FormatDate, DaysFromCivil, CivilFromDays, DayOf, Number;
    var text := FormatDate(s);
    if ParsedDate(text) == Ok(s) {
      NumberRange(text, 0, 4);
      NumberRange(text, 5, 2);
      NumberRange(text, 8, 2);
      NumberRange(text, 11, 2);
      NumberRange(text, 14, 2);
      NumberRange(text, 17, 2);
      var year, month, day := Number(text, 0, 4), Number(text, 5, 2), Number(text, 8, 2);
      NoWrap(month);
      NoWrap(day);
      ReadDayCount(year, month, day);
      var days := DaysFromCivil(year, month, day);
      DayWithin(s, days, Number(text, 11, 2) * 3600 + Number(text, 14, 2) * 60 + Number(text, 17, 2));
      DateOfIsDate(s);
      LateYearsHaveLateDays(DateOf(s));
      WrappedYearsDoNotMatch(s, year, DayOf(s + EPOCH_SECONDS) - days);
    }
  }

  lemma NumberRange(text: Bytes, offset: nat, count: nat)
    requires offset + count <= |text| && count in {2, 4}
    ensures Number(text, offset, count) <= if count == 2 then 99 else 9999
  {
    var field := text[offset..offset + count];
    assert Pow10(2) == 10 * Pow10(1) && Pow10(3) == 10 * Pow10(2);
    if AllDigits(field) {
      DigitsBound(field);
    }
  }

  lemma DayWithin(s: int, days: int, rest: nat)
    requires s == days * 86400 + rest - EPOCH_SECONDS && rest <= 99 * 3600 + 99 * 60 + 99
    ensures days <= DayOf(s + EPOCH_SECONDS) <= days + 4
  {
    RemainderRange(s + EPOCH_SECONDS);
  }

  /** A wrapped day count prints as a year that starts with 1175 or 1176, which no multiple of 400 does. */
  lemma WrappedYearsDoNotMatch(s: int, year: nat, j: nat)
    requires year <= 9999 && year % 400 == 0 && j <= 4
    requires DayOf(s + EPOCH_SECONDS) == year / 400 * 146097 + TWO_TO_THE_32 - 1 - 719468 + j
    ensures Number(FormatDate(s), 0, 4) != year
  {
    hide FormatDate, DateOf, DayOf, CivilFromDays, FromDigits, Digits, AllDigits, Tail;
    FormatIsYearAndTail(s);
    WrappedDays(year / 400, j);
    var printed := 11759221 + year / 400 * 400;
    assert DateOf(s).year == printed by {
      DateOfDay(s);
    }
    YearTextShort(printed);
    EightDigits(printed);
    LeadingDigits(printed, 4);
    assert FormatDate(s)[0..4] == Digits(printed)[..4];
  }

  lemma DateOfDay(s: int)
    ensures DateOf(s) == CivilFromDays(DayOf(s + EPOCH_SECONDS))
  {
  }

  lemma EightDigits(n: nat)
    requires 10000000 <= n < 100000000
    ensures |Digits(n)| == 8 && Pow10(4) == 10000
  {
    assert Pow10(4) == 10 * Pow10(3) && Pow10(2) == 10 * Pow10(1);
    assert Pow10(8) == 10 * Pow10(7) && Pow10(6) == 10 * Pow10(5);
    DigitCount(n, 8);
    DigitCount(n, 7);
  }

  /** The exact domain of the date text: the years the four-digit field can hold. */
  lemma DateTextExactly(s: int)
    ensures ParsedDate(FormatDate(s)) == Ok(s) <==> 0 <= DateOf(s).year <= 9999
  {
    hide ParsedDate, FormatDate, DateOf;
    if 0 <= DateOf(s).year <= 9999 {
      DateTextRoundTrip(s);
    } else if DateOf(s).year < 1000000 {
      OtherShortYearsRefused(s);
    } else {
      LateYearsDoNotComeBack(s);
    }
  }

  lemma FirstOfYearTenThousand()
    ensures DateOf(252_423_993_600) == CivilDate.Date(10000, 1, 1)
  {
    hide CivilFromDays;
    assert DaysFromCivil(10000, 1, 1) == 2_932_897;
    DateRoundTrip(CivilDate.Date(10000, 1, 1));
  }
}
