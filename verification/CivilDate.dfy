/** The proleptic Gregorian calendar conversions behind plist dates. */
module CivilDate {
  import opened Words

  // ---------------------------------------------------------------------------
  // The conversions
  // ---------------------------------------------------------------------------

  /** C++ integer division, which truncates toward zero. */
  function Truncated(a: int, b: int): int
    requires b > 0
  {
    if a >= 0 then a / b else -(-a / b)
  }

  /** Reduction to a 32-bit `unsigned`. */
  function Wrap32(x: int): Word32 {
    x % TWO_TO_THE_32
  }

  /** Days from 1970-01-01 to the date, with the month and day in wrapping `unsigned` arithmetic. */
  function DaysFromCivil(year: int, m: Word32, d: Word32): int {
    var y := if m <= 2 then year - 1 else year;
    var era := Truncated(if y >= 0 then y else y - 399, 400);
    var yoe := Wrap32(y - era * 400);
    var shifted := Wrap32(m + (if m > 2 then -3 else 9));
    var doy := Wrap32(Wrap32(153 * shifted + 2) / 5 + d - 1);
    var doe := Wrap32(YearStart(yoe) + doy);
    era * 146097 + doe - 719468
  }

  datatype Date = Date(year: int, month: Word32, day: Word32)

  /** The civil date of a day count. */
  function CivilFromDays(days: int): Date {
    var z := days + 719468;
    var era := Truncated(if z >= 0 then z else z - 146096, 146097);
    CivilFromEra(era, Wrap32(z - era * 146097))
  }

  /** What `civil_from_days` divides by 365 to get the year of the era. */
  function YearNumerator(doe: int): int {
    doe - doe / 1460 + doe / 36524 - doe / 146096
  }

  /** The first day of March year `yoe` of an era. */
  function YearStart(yoe: int): int {
    365 * yoe + yoe / 4 - yoe / 100
  }

  /** The civil date of day `doe` of an era of 400 years. */
  function CivilFromEra(era: int, doe: Word32): Date {
    var yoe := Wrap32(YearNumerator(doe)) / 365;
    var doy := Wrap32(doe - Wrap32(YearStart(yoe)));
    CivilFromYear(yoe + era * 400, doy)
  }

  /** The civil date of day `doy` of a year that starts in March. */
  function CivilFromYear(y: int, doy: Word32): Date {
    var mp := Wrap32(5 * doy + 2) / 153;
    var d := Wrap32(doy - Wrap32(153 * mp + 2) / 5 + 1);
    var m := Wrap32(mp + (if mp < 10 then 3 else -9));
    Date(if m <= 2 then y + 1 else y, m, d)
  }

  // ---------------------------------------------------------------------------
  // The Gregorian calendar, independently
  // ---------------------------------------------------------------------------

  predicate IsLeap(year: int) {
    year % 4 == 0 && (year % 100 != 0 || year % 400 == 0)
  }

  function DaysInMonth(year: int, month: int): int {
    if month == 2 then (if IsLeap(year) then 29 else 28)
    else if month in {4, 6, 9, 11} then 30
    else 31
  }

  predicate IsDate(date: Date) {
    1 <= date.month <= 12 && 1 <= date.day <= DaysInMonth(date.year, date.month)
  }

  /** The day after a date. */
  function NextDay(date: Date): Date
    requires IsDate(date)
  {
    if date.day < DaysInMonth(date.year, date.month) then date.(day := date.day + 1)
    else if date.month < 12 then Date(date.year, date.month + 1, 1)
    else Date(date.year + 1, 1, 1)
  }

  // ---------------------------------------------------------------------------
  // The arithmetic without the machine: years that start in March, eras of 400 years
  // ---------------------------------------------------------------------------

  lemma FloorByTruncation(a: int, b: int)
    requires b > 0
    ensures Truncated(if a >= 0 then a else a - (b - 1), b) == a / b
  {
    if a < 0 {
      var q := a / b;
      assert a == q * b + a % b;
      assert -(a - (b - 1)) == -q * b + (b - 1 - a % b);
      QuotientIs(-(a - (b - 1)), b, -q, b - 1 - a % b);
    }
  }

  /** The first day of month `mp` of a March year. */
  function MonthStart(mp: nat): nat {
    (153 * mp + 2) / 5
  }

  /** Day of the era of day `doy` of March year `yoe`. */
  function DayOfEra(yoe: nat, doy: nat): int {
    YearStart(yoe) + doy
  }

  /** Whether March year `yoe` of an era ends in a leap February. */
  predicate LeapEnd(yoe: nat) {
    (yoe + 1) % 4 == 0 && ((yoe + 1) % 100 != 0 || yoe + 1 == 400)
  }

  function YearOfEra(doe: nat): int {
    YearNumerator(doe) / 365
  }

  /** The century terms cancel to the century of the year, the era's last day included. */
  lemma CenturyOfEra(yoe: nat, doy: nat)
    requires yoe < 400 && doy < (if LeapEnd(yoe) then 366 else 365)
    ensures var doe := DayOfEra(yoe, doy); 0 <= doe < 146097 && doe / 36524 - doe / 146096 == yoe / 100
  {
    var c, w := yoe / 100, yoe % 100;
    var t := 365 * w + w / 4 + doy;
    assert yoe / 4 == 25 * c + w / 4;
    assert DayOfEra(yoe, doy) == 36524 * c + t;
    assert t <= 36524;
    if t == 36524 {
      assert w == 99 && doy == 365;
      assert c == 3;
    } else {
      QuotientIs(36524 * c + t, 36524, c, t);
    }
  }

  /** The leap day, the last of four years, is the one that the division by 1460 takes back. */
  lemma LeapDayCarries(yoe: nat, doy: nat)
    requires yoe < 400 && doy < (if LeapEnd(yoe) then 366 else 365)
    ensures var n := yoe / 4 - yoe / 100 + 365 * (yoe % 4) + doy;
            n >= 0 && 0 <= doy - n / 1460 < 365
  {
    var q, r := yoe / 4, yoe % 4;
    assert 0 <= q - yoe / 100 < 100;
    assert r < 3 ==> !LeapEnd(yoe);
  }

  lemma YearOfEraBack(yoe: nat, doy: nat)
    requires yoe < 400 && doy < (if LeapEnd(yoe) then 366 else 365)
    ensures 0 <= DayOfEra(yoe, doy) < 146097 && YearOfEra(DayOfEra(yoe, doy)) == yoe
  {
    CenturyOfEra(yoe, doy);
    var c, e, r := yoe / 100, yoe / 4, yoe % 4;
    var doe, n := DayOfEra(yoe, doy), e - c + 365 * r + doy;
    LeapDayCarries(yoe, doy);
    hide LeapEnd;
    assert doe == 1460 * e + n;
    QuotientIs(doe, 1460, e + n / 1460, n % 1460);
    QuotientIs(doe - doe / 1460 + c, 365, yoe, doy - n / 1460);
  }

  /** Every day of the era lies in exactly one March year. */
  lemma {:induction false} SplitEra(doe: nat, years: nat) returns (yoe: nat, doy: nat)
    requires 0 < years <= 400 && doe < DayOfEra(years - 1, if LeapEnd(years - 1) then 366 else 365)
    ensures yoe < years && doy < (if LeapEnd(yoe) then 366 else 365) && DayOfEra(yoe, doy) == doe
  {
    if doe >= DayOfEra(years - 1, 0) {
      yoe, doy := years - 1, doe - DayOfEra(years - 1, 0);
    } else {
      assert years > 1;
      YearEnds(years - 2);
      yoe, doy := SplitEra(doe, years - 1);
    }
  }

  function MonthLength(mp: nat, leapEnd: bool): nat {
    if mp == 11 then (if leapEnd then 29 else 28) else if mp in {1, 3, 6, 8} then 30 else 31
  }

  lemma MonthTable()
    ensures MonthStart(0) == 0 && MonthStart(1) == 31 && MonthStart(2) == 61 && MonthStart(3) == 92
    ensures MonthStart(4) == 122 && MonthStart(5) == 153 && MonthStart(6) == 184 && MonthStart(7) == 214
    ensures MonthStart(8) == 245 && MonthStart(9) == 275 && MonthStart(10) == 306 && MonthStart(11) == 337
  {
  }

  /** The month and day of a day of the March year. */
  lemma MonthBack(mp: nat, d: nat, leapEnd: bool)
    requires mp < 12 && 1 <= d <= MonthLength(mp, leapEnd)
    ensures var doy := MonthStart(mp) + d - 1;
            doy < (if leapEnd then 366 else 365) && (5 * doy + 2) / 153 == mp
  {
    MonthTable();
  }

  lemma SplitYear(doy: nat, leapEnd: bool) returns (mp: nat, d: nat)
    requires doy < (if leapEnd then 366 else 365)
    ensures mp < 12 && 1 <= d <= MonthLength(mp, leapEnd) && doy == MonthStart(mp) + d - 1
  {
    mp := (5 * doy + 2) / 153;
    MonthTable();
    d := doy - MonthStart(mp) + 1;
  }

  lemma LeapEndIsLeap(era: int, yoe: nat)
    requires yoe < 400
    ensures IsLeap(era * 400 + yoe + 1) <==> LeapEnd(yoe)
  {
    var y := era * 400 + yoe + 1;
    QuotientIs(y, 4, era * 100 + (yoe + 1) / 4, (yoe + 1) % 4);
    QuotientIs(y, 100, era * 4 + (yoe + 1) / 100, (yoe + 1) % 100);
    if yoe + 1 == 400 {
      QuotientIs(y, 400, era + 1, 0);
    } else {
      QuotientIs(y, 400, era, yoe + 1);
    }
  }

  // ---------------------------------------------------------------------------
  // Both conversions go through the same March date
  // ---------------------------------------------------------------------------

  /** Day `day` of month `mp`, counted from March, of year `yoe` of an era of 400 March years. */
  datatype March = March(era: int, yoe: nat, mp: nat, day: nat) {
    predicate Valid() {
      yoe < 400 && mp < 12 && 1 <= day <= MonthLength(mp, LeapEnd(yoe))
    }

    function Doy(): nat
      requires Valid()
    {
      MonthStart(mp) + day - 1
    }

    function AsDate(): Date
      requires Valid()
    {
      Date(era * 400 + yoe + (if mp >= 10 then 1 else 0), if mp < 10 then mp + 3 else mp - 9, day)
    }

    function Days(): int
      requires Valid()
    {
      era * 146097 + DayOfEra(yoe, Doy()) - 719468
    }

    function Next(): March
      requires Valid()
    {
      if day < MonthLength(mp, LeapEnd(yoe)) then this.(day := day + 1)
      else if mp < 11 then this.(mp := mp + 1, day := 1)
      else if yoe < 399 then March(era, yoe + 1, 0, 1)
      else March(era + 1, 0, 0, 1)
    }
  }

  lemma MarchIsDate(m: March)
    requires m.Valid()
    ensures IsDate(m.AsDate())
  {
    LeapEndIsLeap(m.era, m.yoe);
  }

  /** In range, the `unsigned` arithmetic does not wrap. */
  lemma NoWrap(x: int)
    requires 0 <= x < TWO_TO_THE_32
    ensures Wrap32(x) == x
  {
  }

  lemma DaysOfMarch(m: March)
    requires m.Valid()
    ensures DaysFromCivil(m.AsDate().year, m.AsDate().month, m.AsDate().day) == m.Days()
  {
    hide LeapEnd, Wrap32, Truncated, YearStart, MonthLength;
    var leapEnd := LeapEnd(m.yoe);
    assert MonthLength(m.mp, leapEnd) <= 31 by {
      MonthLengthBound(m.mp, leapEnd);
    }
    MonthBack(m.mp, m.day, leapEnd);
    YearStartBound(m.yoe);
    var y := m.era * 400 + m.yoe;
    FloorByTruncation(y, 400);
    QuotientIs(y, 400, m.era, m.yoe);
    NoWrap(m.yoe);
    NoWrap(m.mp);
    NoWrap(153 * m.mp + 2);
    NoWrap(m.Doy());
    NoWrap(DayOfEra(m.yoe, m.Doy()));
  }

  lemma MonthLengthBound(mp: nat, leapEnd: bool)
    ensures MonthLength(mp, leapEnd) <= 31
  {
  }

  lemma CivilOfYear(y: int, mp: nat, d: nat, leapEnd: bool)
    requires mp < 12 && 1 <= d <= MonthLength(mp, leapEnd)
    ensures CivilFromYear(y, MonthStart(mp) + d - 1)
         == Date(if mp >= 10 then y + 1 else y, if mp < 10 then mp + 3 else mp - 9, d)
  {
    hide Wrap32;
    MonthBack(mp, d, leapEnd);
    NoWrap(5 * (MonthStart(mp) + d - 1) + 2);
    NoWrap(153 * mp + 2);
    NoWrap(d);
    NoWrap(if mp < 10 then mp + 3 else mp - 9);
  }

  lemma CivilOfEra(era: int, yoe: nat, doy: nat, doe: nat)
    requires yoe < 400 && doy < (if LeapEnd(yoe) then 366 else 365) && doe == DayOfEra(yoe, doy)
    ensures CivilFromEra(era, doe) == CivilFromYear(yoe + era * 400, doy)
  {
    hide Wrap32, CivilFromYear, LeapEnd, YearNumerator, YearStart;
    YearOfEraBack(yoe, doy);
    YearOfWrapped(YearNumerator(doe), yoe);
    YearStartBound(yoe);
    NoWrap(YearStart(yoe));
    NoWrap(doy);
  }

  lemma YearStartBound(yoe: nat)
    requires yoe < 400
    ensures 0 <= YearStart(yoe) < 146097
  {
  }

  lemma YearOfWrapped(n: int, yoe: nat)
    requires n / 365 == yoe < 400
    ensures Wrap32(n) / 365 == yoe
  {
  }

  lemma CivilOfMarch(m: March)
    requires m.Valid()
    ensures CivilFromDays(m.Days()) == m.AsDate()
  {
    hide LeapEnd, Wrap32, Truncated, MonthLength, CivilFromEra, CivilFromYear, MonthStart, DayOfEra;
    var doy := m.Doy();
    var doe := DayOfEra(m.yoe, doy);
    MonthBack(m.mp, m.day, LeapEnd(m.yoe));
    YearOfEraBack(m.yoe, doy);
    EraOfDay(m);
    NoWrap(doe);
    CivilOfEra(m.era, m.yoe, doy, doe);
    CivilOfYear(m.yoe + m.era * 400, m.mp, m.day, LeapEnd(m.yoe));
  }

  lemma EraOfDay(m: March)
    requires m.Valid()
    ensures var z := m.Days() + 719468;
            Truncated(if z >= 0 then z else z - 146096, 146097) == m.era
  {
    YearOfEraBack(m.yoe, m.Doy());
    MonthBack(m.mp, m.day, LeapEnd(m.yoe));
    var z := m.Days() + 719468;
    FloorByTruncation(z, 146097);
    QuotientIs(z, 146097, m.era, DayOfEra(m.yoe, m.Doy()));
  }

  lemma MarchOfDays(days: int) returns (m: March)
    ensures m.Valid() && m.Days() == days
  {
    var z := days + 719468;
    var yoe, doy := SplitEra(z % 146097, 400);
    var mp, d := SplitYear(doy, LeapEnd(yoe));
    m := March(z / 146097, yoe, mp, d);
  }

  lemma MarchOfDate(date: Date) returns (m: March)
    requires IsDate(date)
    ensures m.Valid() && m.AsDate() == date
  {
    var y := if date.month <= 2 then date.year - 1 else date.year;
    LeapEndIsLeap(y / 400, y % 400);
    m := March(y / 400, y % 400, if date.month > 2 then date.month - 3 else date.month + 9, date.day);
  }

  // ---------------------------------------------------------------------------
  // The conversions are inverse and follow the calendar
  // ---------------------------------------------------------------------------

  /** A date survives the trip through its day count, whatever the era. */
  lemma DateRoundTrip(date: Date)
    requires IsDate(date)
    ensures CivilFromDays(DaysFromCivil(date.year, date.month, date.day)) == date
  {
    hide DaysFromCivil, CivilFromDays;
    var m := MarchOfDate(date);
    DaysOfMarch(m);
    CivilOfMarch(m);
  }

  /** Every day count is a date's, and survives the trip through it. */
  lemma DaysRoundTrip(days: int)
    ensures var date := CivilFromDays(days);
            IsDate(date) && DaysFromCivil(date.year, date.month, date.day) == days
  {
    hide DaysFromCivil, CivilFromDays;
    var m := MarchOfDays(days);
    MarchIsDate(m);
    DaysOfMarch(m);
    CivilOfMarch(m);
  }

  lemma NextMarch(m: March)
    requires m.Valid()
    ensures m.Next().Valid() && m.Next().Days() == m.Days() + 1
  {
    MonthEnds(m.mp);
    if m.mp == 11 {
      YearEnds(m.yoe);
    }
  }

  lemma MonthEnds(mp: nat)
    requires mp < 12
    ensures mp < 11 ==> forall leap :: MonthStart(mp + 1) == MonthStart(mp) + MonthLength(mp, leap)
    ensures mp == 11 ==> forall leap :: MonthStart(mp) + MonthLength(mp, leap) == if leap then 366 else 365
  {
    MonthTable();
  }

  lemma YearEnds(yoe: nat)
    requires yoe < 400
    ensures DayOfEra(yoe, if LeapEnd(yoe) then 366 else 365) == if yoe == 399 then 146097 else DayOfEra(yoe + 1, 0)
  {
    assert (yoe + 1) / 4 == yoe / 4 + if (yoe + 1) % 4 == 0 then 1 else 0;
    assert (yoe + 1) / 100 == yoe / 100 + if (yoe + 1) % 100 == 0 then 1 else 0;
    assert (yoe + 1) % 100 == 0 ==> (yoe + 1) % 4 == 0;
  }

  lemma NextCivil(m: March)
    requires m.Valid() && m.Next().Valid() && IsDate(m.AsDate())
    ensures m.Next().AsDate() == NextDay(m.AsDate())
  {
    LeapEndIsLeap(m.era, m.yoe);
  }

  lemma DayZero()
    ensures CivilFromDays(0) == Date(1970, 1, 1)
  {
    hide CivilFromDays;
    assert DaysFromCivil(1970, 1, 1) == 0;
    DateRoundTrip(Date(1970, 1, 1));
  }

  /** Each day count is the Gregorian day after the one before it; day 0 is 1970-01-01. */
  lemma DaysFollowTheCalendar(days: int)
    ensures IsDate(CivilFromDays(days)) && CivilFromDays(days + 1) == NextDay(CivilFromDays(days))
  {
    hide CivilFromDays, March.Days, March.AsDate, March.Next;
    var m := MarchOfDays(days);
    MarchIsDate(m);
    NextMarch(m);
    NextCivil(m);
    CivilOfMarch(m);
    CivilOfMarch(m.Next());
  }
}
