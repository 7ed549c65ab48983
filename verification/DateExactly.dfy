/** The text of a plist date, character by character. */
module DateExactly {
  import opened Words
  import opened CivilDate
  import opened Decimal
  import opened PlistDate

  function TwoDigits(n: nat): Bytes {
    [0x30 + n / 10 % 10, 0x30 + n % 10]
  }

  function FourDigits(n: nat): Bytes {
    TwoDigits(n / 100) + TwoDigits(n % 100)
  }

  /** `YYYY-MM-DDThh:mm:ssZ`. */
  function TextOf(year: nat, month: nat, day: nat, hour: nat, minute: nat, second: nat): Bytes {
    FourDigits(year) + [0x2d] + TwoDigits(month) + [0x2d] + TwoDigits(day) + [0x54] +
    TwoDigits(hour) + [0x3a] + TwoDigits(minute) + [0x3a] + TwoDigits(second) + [0x5a]
  }

  function Numeral(c: Byte): int {
    c as int - 0x30
  }

  lemma OfTwo(s: Bytes)
    requires |s| == 2
    ensures FromDigits(s) == 10 * Numeral(s[0]) + Numeral(s[1])
  {
    assert s[..1][..0] == [];
    assert FromDigits(s[..1]) == Numeral(s[0]);
  }

  lemma OfFour(s: Bytes)
    requires |s| == 4
    ensures FromDigits(s) == 1000 * Numeral(s[0]) + 100 * Numeral(s[1]) + 10 * Numeral(s[2]) + Numeral(s[3])
  {
    OfTwo(s[..2]);
    assert s[..3][..2] == s[..2];
    assert FromDigits(s[..3]) == FromDigits(s[..2]) * 10 + Numeral(s[2]);
  }

  lemma TwoIs(n: nat)
    requires n < 100
    ensures Two(n) == TwoDigits(n)
  {
    hide Two, FromDigits;
    TwoBack(n);
    OfTwo(Two(n));
    var t := Two(n);
    QuotientIs(n, 10, Numeral(t[0]), Numeral(t[1]));
  }

  lemma YearIs(year: nat)
    requires year <= 9999
    ensures YearText(year) == FourDigits(year)
  {
    hide YearText, FromDigits;
    YearTextShort(year);
    var t := YearText(year);
    OfFour(t);
    var high, low := 10 * Numeral(t[0]) + Numeral(t[1]), 10 * Numeral(t[2]) + Numeral(t[3]);
    QuotientIs(year, 100, high, low);
    QuotientIs(high, 10, Numeral(t[0]), Numeral(t[1]));
    QuotientIs(low, 10, Numeral(t[2]), Numeral(t[3]));
  }

  /** A time of day of any date of the years 0 to 9999. */
  lemma FormatIs(date: Date, hour: nat, minute: nat, second: nat)
    requires IsDate(date) && 0 <= date.year <= 9999 && hour < 24 && minute < 60 && second < 60
    ensures var days := DaysFromCivil(date.year, date.month, date.day);
            FormatDate(days * 86400 + hour * 3600 + minute * 60 + second - 978307200) ==
            TextOf(date.year, date.month, date.day, hour, minute, second)
  {
    hide FormatDate, DaysFromCivil, CivilFromDays, Two, YearText, TwoDigits, FourDigits, DayOf;
    var days := DaysFromCivil(date.year, date.month, date.day);
    var rest := hour * 3600 + minute * 60 + second;
    var s := days * 86400 + rest - 978307200;
    DateRoundTrip(date);
    RemainderRange(s + 978307200);
    QuotientIs(s + 978307200, 86400, days, rest);
    DateOfDay(s);
    FormatIsYearAndTail(s);
    TimeOfDay(hour, minute, second);
    YearIs(date.year);
    TwoIs(date.month);
    TwoIs(date.day);
    TwoIs(hour);
    TwoIs(minute);
    TwoIs(second);
  }

  lemma TimeOfDay(hour: nat, minute: nat, second: nat)
    requires minute < 60 && second < 60
    ensures var rest := hour * 3600 + minute * 60 + second;
            rest / 3600 == hour && rest % 3600 / 60 == minute && rest % 60 == second
  {
    var rest := hour * 3600 + minute * 60 + second;
    QuotientIs(rest, 3600, hour, minute * 60 + second);
    QuotientIs(minute * 60 + second, 60, minute, second);
    QuotientIs(rest, 60, hour * 60 + minute, second);
  }

  lemma FirstOf2001()
    ensures DaysFromCivil(2001, 1, 1) == 11323
  {
  }

  /** Second 0 is the first of 2001: `2001-01-01T00:00:00Z`. */
  lemma EpochText()
    ensures FormatDate(0) == [0x32, 0x30, 0x30, 0x31, 0x2d, 0x30, 0x31, 0x2d, 0x30, 0x31, 0x54,
                              0x30, 0x30, 0x3a, 0x30, 0x30, 0x3a, 0x30, 0x30, 0x5a]
  {
    hide FormatDate, DaysFromCivil;
    FirstOf2001();
    FormatIs(CivilDate.Date(2001, 1, 1), 0, 0, 0);
  }

  predicate DigitAt(s: Bytes, i: nat)
    requires i < |s|
  {
    0x30 <= s[i] <= 0x39
  }

  function TwoAt(s: Bytes, i: nat): int
    requires i + 2 <= |s|
  {
    10 * Numeral(s[i]) + Numeral(s[i + 1])
  }

  /** The fields are where `TextOf` puts them; what stands between and after them is not looked at. */
  predicate HasFields(text: Bytes) {
    && |text| >= 19
    && DigitAt(text, 0) && DigitAt(text, 1) && DigitAt(text, 2) && DigitAt(text, 3)
    && DigitAt(text, 5) && DigitAt(text, 6) && DigitAt(text, 8) && DigitAt(text, 9)
    && DigitAt(text, 11) && DigitAt(text, 12) && DigitAt(text, 14) && DigitAt(text, 15)
    && DigitAt(text, 17) && DigitAt(text, 18)
  }

  lemma NumberOfTwo(text: Bytes, i: nat)
    requires i + 2 <= |text|
    ensures Number(text, i, 2) == if DigitAt(text, i) && DigitAt(text, i + 1) then TwoAt(text, i) else -1
  {
    hide FromDigits;
    var f := text[i..i + 2];
    OfTwo(f);
    assert f[0] == text[i] && f[1] == text[i + 1];
    assert AllDigits(f) <==> DigitAt(text, i) && DigitAt(text, i + 1);
  }

  lemma NumberOfFour(text: Bytes)
    requires |text| >= 4
    ensures Number(text, 0, 4) ==
            if DigitAt(text, 0) && DigitAt(text, 1) && DigitAt(text, 2) && DigitAt(text, 3)
            then 100 * TwoAt(text, 0) + TwoAt(text, 2) else -1
  {
    hide FromDigits;
    var f := text[0..4];
    OfFour(f);
    assert f[0] == text[0] && f[1] == text[1] && f[2] == text[2] && f[3] == text[3];
    assert AllDigits(f) <==> DigitAt(text, 0) && DigitAt(text, 1) && DigitAt(text, 2) && DigitAt(text, 3);
  }

  /** What is read of any text: its fields as a date of any month and day below 100, or a protocol error. */
  lemma ParsesExactly(text: Bytes)
    ensures ParsedDate(text) ==
            if HasFields(text) then
              Ok(DaysFromCivil(100 * TwoAt(text, 0) + TwoAt(text, 2), TwoAt(text, 5), TwoAt(text, 8)) * 86400 +
                 TwoAt(text, 11) * 3600 + TwoAt(text, 14) * 60 + TwoAt(text, 17) - 978307200)
            else Err(Protocol)
  {
    hide Number, DaysFromCivil, Wrap32;
    if |text| >= 19 {
      NumberOfFour(text);
      NumberOfTwo(text, 5);
      NumberOfTwo(text, 8);
      NumberOfTwo(text, 11);
      NumberOfTwo(text, 14);
      NumberOfTwo(text, 17);
      if HasFields(text) {
        NoWrap(TwoAt(text, 5));
        NoWrap(TwoAt(text, 8));
      }
    }
  }
}
