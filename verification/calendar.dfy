/**
 The camera's clock: a Unix second written as an RFC 3339 timestamp without a date library.

 The arithmetic is Hinnant's days-to-civil. Its reference here is the proleptic Gregorian calendar
 itself: the leap rule, the month lengths and the day that follows a day.
 */
module Calendar {
  datatype Date = Date(year: int, month: int, day: int)

  // ----- the calendar, as RFC 3339 section 5.7 and appendix C define it

  predicate Leap(year: int) {
    year % 4 == 0 && (year % 100 != 0 || year % 400 == 0)
  }

  function MonthLength(year: int, month: int): int {
    if month == 2 then (if Leap(year) then 29 else 28)
    else if month in {4, 6, 9, 11} then 30
    else 31
  }

  predicate Valid(date: Date) {
    1 <= date.month <= 12 && 1 <= date.day <= MonthLength(date.year, date.month)
  }

  /** The day after a day. */
  function Tomorrow(date: Date): Date {
    if date.day < MonthLength(date.year, date.month) then date.(day := date.day + 1)
    else if date.month < 12 then Date(date.year, date.month + 1, 1)
    else Date(date.year + 1, 1, 1)
  }

  /** The day `n` days after 1 January 1970, one day at a time. */
  function DayAfterEpoch(n: nat): Date {
    if n == 0 then Date(1970, 1, 1) else Tomorrow(DayAfterEpoch(n - 1))
  }

  predicate Before(a: Date, b: Date) {
    a.year < b.year
    || (a.year == b.year && (a.month < b.month || (a.month == b.month && a.day < b.day)))
  }

  // ----- the arithmetic

  function YearOfEra(doe: int): int {
    (doe - doe / 1460 + doe / 36_524 - doe / 146_096) / 365
  }

  /** Days of an era before its year `yoe`, years counted from 1 March. */
  function DaysBefore(yoe: int): int {
    365 * yoe + yoe / 4 - yoe / 100
  }

  /** The months from March: which one day `doy` falls into, and on which day of it. */
  function MonthIndex(doy: int): int {
    (5 * doy + 2) / 153
  }

  function DayOfMonth(doy: int): int {
    doy - (153 * MonthIndex(doy) + 2) / 5 + 1
  }

  function DateOf(era: int, yoe: int, doy: int): Date {
    var mp := MonthIndex(doy);
    var month := if mp < 10 then mp + 3 else mp - 9;
    Date(yoe + era * 400 + (if month <= 2 then 1 else 0), month, DayOfMonth(doy))
  }

  /** The date of a day counted from 1 January 1970. */
  function CivilOf(days: int): Date {
    var z := days + 719_468;
    var era := z / 146_097;
    var doe := z - era * 146_097;
    var yoe := YearOfEra(doe);
    DateOf(era, yoe, doe - DaysBefore(yoe))
  }

  /** Days of the year `yoe` of an era: the year holds the February that ends it. */
  function YearLength(yoe: int): int {
    if Leap(yoe + 1) then 366 else 365
  }

  // The four terms of the year formula, for a day given by its century, its four years within
  // the century, its year within them and its day within the year.
  lemma YearOfParts(c: int, q: int, r: int, x: int)
    requires 0 <= c < 4 && 0 <= q < 25 && 0 <= r < 4 && 0 <= x < 366
    requires x == 365 ==> r == 3 && (q < 24 || c == 3)
    ensures YearOfEra(36_524 * c + 1461 * q + 365 * r + x) == 100 * c + 4 * q + r
    ensures DaysBefore(100 * c + 4 * q + r) == 36_524 * c + 1461 * q + 365 * r
    ensures x < YearLength(100 * c + 4 * q + r)
  {
    var doe := 36_524 * c + 1461 * q + 365 * r + x;
    var n := 1461 * q + 365 * r + x;
    var y := 100 * c + 4 * q + r;
    assert doe / 36_524 == c + (if c == 3 && n == 36_524 then 1 else 0);
    assert doe / 146_096 == if c == 3 && n == 36_524 then 1 else 0;
    assert doe == 1460 * (25 * c + q) + (24 * c + q + 365 * r + x);
    assert 24 * c + q + 365 * r + x < 1460 + 365;
    assert y / 4 == 25 * c + q;
    assert y / 100 == c;
  }

  lemma YearFits(doe: int)
    requires 0 <= doe < 146_097
    ensures 0 <= YearOfEra(doe) < 400
    ensures 0 <= doe - DaysBefore(YearOfEra(doe)) < YearLength(YearOfEra(doe))
  {
    var c := if doe == 146_096 then 3 else doe / 36_524;
    var n := doe - 36_524 * c;
    var q := n / 1461;
    var m := n - 1461 * q;
    var r := if m == 1460 then 3 else m / 365;
    YearOfParts(c, q, r, m - 365 * r);
  }

  lemma YearsAreBackToBack(yoe: int)
    requires 0 <= yoe < 400
    ensures DaysBefore(yoe) + YearLength(yoe) == if yoe == 399 then 146_097 else DaysBefore(yoe + 1)
  {
    QuotientSteps(yoe, 4);
    QuotientSteps(yoe, 100);
    assert (yoe + 1) % 400 == 0 <==> yoe == 399;
    assert yoe == 399 ==> yoe / 4 == 99 && yoe / 100 == 3;
  }

  // A quotient grows by one at the multiples of its divisor.
  lemma QuotientSteps(n: nat, m: nat)
    requires m == 4 || m == 100
    ensures (n + 1) / m == n / m + if (n + 1) % m == 0 then 1 else 0
  {}

  // Within the year that starts on 1 March, the next day of the year is the calendar's next day.
  lemma NextDayOfYear(era: int, yoe: int, doy: int)
    requires 0 <= yoe < 400 && 0 <= doy && doy + 1 < YearLength(yoe)
    ensures Tomorrow(DateOf(era, yoe, doy)) == DateOf(era, yoe, doy + 1)
    ensures Valid(DateOf(era, yoe, doy))
  {
    LeapRepeats(era, yoe + 1);
    NextInMonths(doy);
    hide Leap, MonthIndex, DayOfMonth;
  }

  /** Days of the month `mp` from March, of all but February. */
  function LengthFromMarch(mp: int): int {
    if mp in {1, 3, 6, 8} then 30 else 31
  }

  // The next day of the year is the next day of its month, or the first of the next month.
  lemma NextInMonths(doy: int)
    requires 0 <= doy < 365
    ensures var mp, day := MonthIndex(doy), DayOfMonth(doy);
      && 0 <= mp < 12 && 1 <= day && (mp < 11 ==> day <= LengthFromMarch(mp)) && (mp == 11 ==> day == doy - 336)
      && (if mp == 11 || day < LengthFromMarch(mp)
          then MonthIndex(doy + 1) == mp && DayOfMonth(doy + 1) == day + 1
          else MonthIndex(doy + 1) == mp + 1 && DayOfMonth(doy + 1) == 1)
  {
    MonthsFromMarch(doy);
    MonthsFromMarch(doy + 1);
    var mp := MonthIndex(doy);
    assert (153 * (mp + 1) + 2) / 5 == (153 * mp + 2) / 5 + LengthFromMarch(mp) || mp == 11;
    hide MonthIndex;
  }

  lemma LastDayOfYear(era: int, yoe: int, doy: int)
    requires 0 <= yoe < 400 && doy == YearLength(yoe) - 1
    ensures DateOf(era, yoe, doy) == Date(yoe + era * 400 + 1, 2, doy - 336)
    ensures Valid(DateOf(era, yoe, doy))
    ensures Tomorrow(DateOf(era, yoe, doy)) == Date(yoe + era * 400 + 1, 3, 1)
  {
    LeapRepeats(era, yoe + 1);
    hide Leap;
  }

  // Each month's first day of the year, from 1 March.
  lemma MonthsFromMarch(doy: int)
    requires 0 <= doy < 366
    ensures 0 <= MonthIndex(doy) < 12
    ensures (153 * MonthIndex(doy) + 2) / 5 <= doy < (153 * (MonthIndex(doy) + 1) + 2) / 5
  {}

  lemma LeapRepeats(era: int, year: int)
    ensures Leap(year + era * 400) == Leap(year)
  {
    assert (year + era * 400) % 4 == year % 4 by { ModShift(year, 4, era * 100); }
    assert (year + era * 400) % 100 == year % 100 by { ModShift(year, 100, era * 4); }
    assert (year + era * 400) % 400 == year % 400 by { ModShift(year, 400, era); }
  }

  lemma ModShift(a: int, m: int, k: int)
    requires m in {4, 100, 400}
    ensures (a + m * k) % m == a % m
  {}

  // Every day is one day `doy` of one year `yoe` of one era.
  lemma Parts(days: int) returns (era: int, yoe: int, doy: int)
    ensures 0 <= yoe < 400 && 0 <= doy < YearLength(yoe)
    ensures days + 719_468 == era * 146_097 + DaysBefore(yoe) + doy
    ensures CivilOf(days) == DateOf(era, yoe, doy)
  {
    hide YearOfEra, DaysBefore, YearLength, DateOf;
    var z := days + 719_468;
    era := z / 146_097;
    YearFits(z - era * 146_097);
    yoe := YearOfEra(z - era * 146_097);
    doy := z - era * 146_097 - DaysBefore(yoe);
  }

  lemma YearOfDay(yoe: int, doy: int)
    requires 0 <= yoe < 400 && 0 <= doy < YearLength(yoe)
    ensures 0 <= DaysBefore(yoe) + doy < 146_097
    ensures YearOfEra(DaysBefore(yoe) + doy) == yoe
  {
    var c, q, r := yoe / 100, yoe % 100 / 4, yoe % 4;
    assert yoe == 100 * c + 4 * q + r;
    YearOfParts(c, q, r, doy);
  }

  lemma FromParts(era: int, yoe: int, doy: int, days: int)
    requires 0 <= yoe < 400 && 0 <= doy < YearLength(yoe)
    requires days + 719_468 == era * 146_097 + DaysBefore(yoe) + doy
    ensures CivilOf(days) == DateOf(era, yoe, doy)
  {
    hide YearOfEra, DaysBefore, YearLength, DateOf;
    YearOfDay(yoe, doy);
    assert (days + 719_468) / 146_097 == era;
  }

  lemma NewYear(era: int, yoe: int, days: int)
    requires 0 <= yoe < 400
    requires days + 719_468 == era * 146_097 + DaysBefore(yoe) + YearLength(yoe)
    ensures CivilOf(days) == Date(yoe + era * 400 + 1, 3, 1)
  {
    hide *;
    YearsAreBackToBack(yoe);
    if yoe == 399 {
      FirstOfMarch(era + 1, 0);
      FromParts(era + 1, 0, 0, days);
    } else {
      FirstOfMarch(era, yoe + 1);
      FromParts(era, yoe + 1, 0, days);
    }
  }

  lemma FirstOfMarch(era: int, yoe: int)
    ensures DateOf(era, yoe, 0) == Date(yoe + era * 400, 3, 1) && YearLength(yoe) > 0 && DaysBefore(0) == 0
  {
    hide Leap;
  }

  /** One day later in the count is one day later in the calendar, on every day there is. */
  lemma CivilStep(days: int)
    ensures Valid(CivilOf(days))
    ensures CivilOf(days + 1) == Tomorrow(CivilOf(days))
  {
    hide *;
    var era, yoe, doy := Parts(days);
    if doy + 1 < YearLength(yoe) {
      NextDayOfYear(era, yoe, doy);
      FromParts(era, yoe, doy + 1, days + 1);
    } else {
      LastDayOfYear(era, yoe, doy);
      NewYear(era, yoe, days + 1);
    }
  }

  lemma Epoch()
    ensures CivilOf(0) == Date(1970, 1, 1)
  {
    assert DaysBefore(369) == 134_774 && YearLength(369) == 365;
    assert DateOf(4, 369, 306) == Date(1970, 1, 1);
    hide *;
    FromParts(4, 369, 306, 0);
  }

  // The calendar is the only count of days that starts at the epoch and goes on by the next day.
  lemma {:induction false} OnlyTheCalendar(dates: int -> Date, n: nat)
    requires dates(0) == Date(1970, 1, 1)
    requires forall k: nat :: dates(k + 1) == Tomorrow(dates(k))
    ensures dates(n) == DayAfterEpoch(n)
  {
    if n > 0 {
      OnlyTheCalendar(dates, n - 1);
      assert dates(n - 1 + 1) == Tomorrow(dates(n - 1));
    }
  }

  /** The conversion is the calendar: the date of day `n` is the n-th day after 1 January 1970. */
  lemma CivilIsTheCalendar(n: nat)
    ensures CivilOf(n) == DayAfterEpoch(n)
  {
    hide CivilOf, Tomorrow, Valid;
    var dates := (days: int) => CivilOf(days);
    Epoch();
    forall k: nat
      ensures dates(k + 1) == Tomorrow(dates(k))
    {
      CivilStep(k);
    }
    OnlyTheCalendar(dates, n);
  }

  // ----- the inverse

  /** Days from 1 January 1970 to a date. */
  function DaysFromCivil(date: Date): int {
    var y := if date.month <= 2 then date.year - 1 else date.year;
    var era := y / 400;
    var mp := if date.month > 2 then date.month - 3 else date.month + 9;
    era * 146_097 + DaysBefore(y - era * 400) + (153 * mp + 2) / 5 + date.day - 1 - 719_468
  }

  lemma DaysOfCivil(days: int)
    ensures DaysFromCivil(CivilOf(days)) == days
  {
    hide CivilOf, Valid, DaysBefore, YearOfEra, DateOf, DaysFromCivil, YearLength;
    var era, yoe, doy := Parts(days);
    YearIsShort(yoe);
    DaysOfParts(era, yoe, doy);
  }

  lemma YearIsShort(yoe: int)
    ensures YearLength(yoe) <= 366
  {}

  lemma DaysOfParts(era: int, yoe: int, doy: int)
    requires 0 <= yoe < 400 && 0 <= doy < 366
    ensures DaysFromCivil(DateOf(era, yoe, doy)) == era * 146_097 + DaysBefore(yoe) + doy - 719_468
  {
    MonthsFromMarch(doy);
    hide DaysBefore;
    assert (yoe + era * 400) / 400 == era;
  }

  lemma CivilOfDays(date: Date)
    requires Valid(date)
    ensures CivilOf(DaysFromCivil(date)) == date
  {
    hide *;
    var y := if date.month <= 2 then date.year - 1 else date.year;
    var era, yoe := y / 400, y % 400;
    var mp := if date.month > 2 then date.month - 3 else date.month + 9;
    ValidInItsYear(date, era, yoe, mp);
    MonthOfDay(mp, date.day, yoe);
    DateOfMonth(date, era, yoe, mp);
    FromParts(era, yoe, (153 * mp + 2) / 5 + date.day - 1, DaysFromCivil(date));
  }

  lemma ValidInItsYear(date: Date, era: int, yoe: int, mp: int)
    requires Valid(date) && mp == if date.month > 2 then date.month - 3 else date.month + 9
    requires yoe + era * 400 == if date.month <= 2 then date.year - 1 else date.year
    ensures 0 <= mp < 12 && (mp < 10 <==> date.month > 2)
    ensures 1 <= date.day <= MonthLength(if mp < 10 then yoe else yoe + 1, if mp < 10 then mp + 3 else mp - 9)
  {
    LeapRepeats(era, yoe + 1);
    LeapRepeats(era, yoe);
    hide Leap;
  }

  lemma DateOfMonth(date: Date, era: int, yoe: int, mp: int)
    requires 1 <= date.month <= 12 && mp == if date.month > 2 then date.month - 3 else date.month + 9
    requires 0 <= yoe < 400 && yoe + era * 400 == if date.month <= 2 then date.year - 1 else date.year
    requires var doy := (153 * mp + 2) / 5 + date.day - 1; MonthIndex(doy) == mp && DayOfMonth(doy) == date.day
    ensures var doy := (153 * mp + 2) / 5 + date.day - 1;
      && DateOf(era, yoe, doy) == date
      && DaysFromCivil(date) + 719_468 == era * 146_097 + DaysBefore(yoe) + doy
  {
    hide MonthIndex, DayOfMonth, DaysBefore;
  }

  lemma MonthOfDay(mp: int, day: int, yoe: int)
    requires 0 <= mp < 12 && 0 <= yoe < 400
    requires 1 <= day <= MonthLength(if mp < 10 then yoe else yoe + 1, if mp < 10 then mp + 3 else mp - 9)
    ensures var doy := (153 * mp + 2) / 5 + day - 1;
      0 <= doy < YearLength(yoe) && MonthIndex(doy) == mp && DayOfMonth(doy) == day
  {}

  lemma {:induction false} CivilKeepsOrder(a: int, b: int)
    requires a < b
    ensures Before(CivilOf(a), CivilOf(b))
    decreases b - a
  {
    hide *;
    CivilStep(b - 1);
    LaterTomorrow(CivilOf(b - 1));
    if a < b - 1 {
      CivilKeepsOrder(a, b - 1);
      BeforeIsTransitive(CivilOf(a), CivilOf(b - 1), CivilOf(b));
    }
  }

  lemma LaterTomorrow(date: Date)
    requires Valid(date)
    ensures Before(date, Tomorrow(date))
  {}

  lemma BeforeIsTransitive(a: Date, b: Date, c: Date)
    requires Before(a, b) && Before(b, c)
    ensures Before(a, c)
  {}

  // ----- the timestamp

  const SECONDS_A_DAY := 86_400

  /** The first second of the year 10000, the first one RFC 3339's four-digit years cannot write. */
  const YEAR_10000 := 253_402_300_800

  function Digit(n: int): char
    requires 0 <= n < 10
  {
    (n as char - 0 as char) + '0'
  }

  function Decimal(n: nat): string {
    if n < 10 then [Digit(n)] else Decimal(n / 10) + [Digit(n % 10)]
  }

  /** A number with leading zeros up to `width` places, never cut. */
  function Padded(n: nat, width: nat): string {
    Zeros(width - |Decimal(n)|) + Decimal(n)
  }

  function Zeros(n: int): string {
    if n <= 0 then "" else "0" + Zeros(n - 1)
  }

  function DateText(date: Date): string
    requires 0 <= date.year && 0 <= date.month && 0 <= date.day
  {
    Padded(date.year, 4) + "-" + Padded(date.month, 2) + "-" + Padded(date.day, 2)
  }

  function ClockText(rest: nat): string {
    Padded(rest / 3600, 2) + ":" + Padded(rest % 3600 / 60, 2) + ":" + Padded(rest % 60, 2)
  }

  /** `YYYY-MM-DDTHH:MM:SSZ` of a Unix second. */
  function Rfc3339(seconds: nat): string {
    var date := CivilOf(seconds / SECONDS_A_DAY);
    DatesAreNatural(seconds / SECONDS_A_DAY);
    DateText(date) + "T" + ClockText(seconds % SECONDS_A_DAY) + "Z"
  }

  lemma DatesAreNatural(days: nat)
    ensures var date := CivilOf(days); 1970 <= date.year && Valid(date)
  {
    hide CivilOf, Tomorrow, Valid;
    CivilStep(days);
    Epoch();
    if days > 0 {
      CivilKeepsOrder(0, days);
    }
  }

  // A reader of the timestamp, from its end: the year is whatever comes before the month.

  function Value(digits: string): int {
    if digits == "" then 0
    else Value(digits[..|digits| - 1]) * 10 + (digits[|digits| - 1] as int - '0' as int)
  }

  function SecondsOf(text: string): int
    requires |text| >= 16
  {
    var y := |text| - 16;
    var date := Date(Value(text[..y]), Value(text[y + 1..y + 3]), Value(text[y + 4..y + 6]));
    InSeconds(date, Value(text[y + 7..y + 9]), Value(text[y + 10..y + 12]), Value(text[y + 13..y + 15]))
  }

  function InSeconds(date: Date, hour: int, minute: int, second: int): int {
    DaysFromCivil(date) * SECONDS_A_DAY + hour * 3600 + minute * 60 + second
  }

  lemma {:induction false} DecimalReads(n: nat)
    ensures Value(Decimal(n)) == n && |Decimal(n)| >= 1
    ensures forall k: nat {:trigger Pow10(k)} :: (|Decimal(n)| <= k) <==> (k > 0 && n < Pow10(k))
  {
    if n >= 10 {
      DecimalReads(n / 10);
      forall k: nat
        ensures (|Decimal(n)| <= k) <==> (k > 0 && n < Pow10(k))
      {
        if k > 0 {
          assert |Decimal(n / 10)| <= k - 1 <==> (k - 1 > 0 && n / 10 < Pow10(k - 1));
        }
      }
    } else {
      forall k: nat
        ensures (|Decimal(n)| <= k) <==> (k > 0 && n < Pow10(k))
      {
        if k > 0 {
          Pow10Positive(k - 1);
        }
      }
    }
  }

  function Pow10(k: nat): int {
    if k == 0 then 1 else 10 * Pow10(k - 1)
  }

  lemma Pow10Positive(k: nat)
    ensures Pow10(k) >= 1
  {}

  lemma {:induction false} ZerosAdd(n: int, digits: string)
    ensures Value(Zeros(n) + digits) == Value(digits)
    ensures |Zeros(n)| == if n <= 0 then 0 else n
    decreases n, |digits|
  {
    if n > 0 {
      ZerosAdd(n - 1, digits);
      ZeroInFront(Zeros(n - 1) + digits);
      assert Zeros(n) + digits == "0" + (Zeros(n - 1) + digits);
    } else {
      assert Zeros(n) + digits == digits;
    }
  }

  lemma {:induction false} ZeroInFront(digits: string)
    ensures Value("0" + digits) == Value(digits)
  {
    var s := "0" + digits;
    if digits != "" {
      ZeroInFront(digits[..|digits| - 1]);
      assert s[..|s| - 1] == "0" + digits[..|digits| - 1];
    } else {
      assert s[..0] == "";
    }
  }

  lemma PaddedReads(n: nat, width: nat)
    requires width >= 1
    ensures Value(Padded(n, width)) == n
    ensures |Padded(n, width)| == width <==> n < Pow10(width)
    ensures |Padded(n, width)| >= width
  {
    DecimalReads(n);
    ZerosAdd(width - |Decimal(n)|, Decimal(n));
  }

  lemma TwoDigits(n: nat)
    requires n < 100
    ensures |Padded(n, 2)| == 2 && Value(Padded(n, 2)) == n
  {
    PaddedReads(n, 2);
    assert Pow10(2) == 100;
  }

  function Stamp(year: string, month: string, day: string, hour: string, minute: string, second: string): string {
    (year + "-" + month + "-" + day) + "T" + (hour + ":" + minute + ":" + second) + "Z"
  }

  // Each field is read from its own place.
  lemma FieldsRead(year: string, month: string, day: string, hour: string, minute: string, second: string)
    requires |month| == |day| == |hour| == |minute| == |second| == 2
    ensures var text := Stamp(year, month, day, hour, minute, second);
      && |text| == |year| + 16
      && SecondsOf(text)
         == InSeconds(Date(Value(year), Value(month), Value(day)), Value(hour), Value(minute), Value(second))
  {
    hide Stamp, Value, InSeconds;
    YearPart(year, month, day, hour, minute, second);
    var parts := [month, day, hour, minute, second];
    PartReads(year, parts, 0);
    PartReads(year, parts, 1);
    PartReads(year, parts, 2);
    PartReads(year, parts, 3);
    PartReads(year, parts, 4);
  }

  lemma YearPart(year: string, month: string, day: string, hour: string, minute: string, second: string)
    requires |month| == |day| == |hour| == |minute| == |second| == 2
    ensures var text := Stamp(year, month, day, hour, minute, second);
      |text| == |year| + 16 && Value(text[..|year|]) == Value(year)
  {
    hide Value;
    assert Stamp(year, month, day, hour, minute, second)[..|year|] == year;
  }

  // The parts behind the year stand three characters apart.
  lemma PartReads(year: string, parts: seq<string>, k: nat)
    requires |parts| == 5 && k < 5 && forall i | 0 <= i < 5 :: |parts[i]| == 2
    ensures var text, at := Stamp(year, parts[0], parts[1], parts[2], parts[3], parts[4]), |year| + 3 * k + 1;
      at + 2 <= |text| && Value(text[at..at + 2]) == Value(parts[k])
  {
    hide Value;
    var text, at := Stamp(year, parts[0], parts[1], parts[2], parts[3], parts[4]), |year| + 3 * k + 1;
    assert |text| == |year| + 16;
    assert text[at] == parts[k][0] && text[at + 1] == parts[k][1];
    assert text[at..at + 2] == parts[k];
  }

  lemma ClockRecomposes(rest: nat)
    ensures rest / 3600 * 3600 + rest % 3600 / 60 * 60 + rest % 60 == rest
    ensures rest < SECONDS_A_DAY ==> rest / 3600 < 24 && rest % 3600 / 60 < 60
  {}

  lemma TextReads(date: Date, rest: nat)
    requires Valid(date) && 0 <= date.year && rest < SECONDS_A_DAY
    ensures var text := DateText(date) + "T" + ClockText(rest) + "Z";
      |text| >= 20
      && (|text| == 20 <==> date.year < 10_000)
      && SecondsOf(text) == DaysFromCivil(date) * SECONDS_A_DAY + rest
  {
    assert 1 <= date.month < 100 && 1 <= date.day < 100;
    ClockRecomposes(rest);
    hide Valid, Padded, Value, Pow10, DaysFromCivil, SecondsOf, Stamp, DateText, ClockText;
    TextParts(date, rest);
    FieldsRead(Padded(date.year, 4), Padded(date.month, 2), Padded(date.day, 2),
               Padded(rest / 3600, 2), Padded(rest % 3600 / 60, 2), Padded(rest % 60, 2));
  }

  // The text of a date and a time of day is the stamp of their fields.
  lemma TextParts(date: Date, rest: nat)
    requires Valid(date) && 0 <= date.year && rest < SECONDS_A_DAY
    ensures DateText(date) + "T" + ClockText(rest) + "Z" ==
      Stamp(Padded(date.year, 4), Padded(date.month, 2), Padded(date.day, 2),
            Padded(rest / 3600, 2), Padded(rest % 3600 / 60, 2), Padded(rest % 60, 2))
    ensures var y := Padded(date.year, 4); |y| >= 4 && (|y| == 4 <==> date.year < 10_000) && Value(y) == date.year
    ensures |Padded(date.month, 2)| == 2 && Value(Padded(date.month, 2)) == date.month
    ensures |Padded(date.day, 2)| == 2 && Value(Padded(date.day, 2)) == date.day
    ensures |Padded(rest / 3600, 2)| == 2 && Value(Padded(rest / 3600, 2)) == rest / 3600
    ensures |Padded(rest % 3600 / 60, 2)| == 2 && Value(Padded(rest % 3600 / 60, 2)) == rest % 3600 / 60
    ensures |Padded(rest % 60, 2)| == 2 && Value(Padded(rest % 60, 2)) == rest % 60
  {
    assert 1 <= date.month < 100 && 1 <= date.day < 100;
    ClockRecomposes(rest);
    hide Valid, Padded, Value;
    YearReads(date.year);
    TwoDigits(date.month);
    TwoDigits(date.day);
    TwoDigits(rest / 3600);
    TwoDigits(rest % 3600 / 60);
    TwoDigits(rest % 60);
  }

  lemma StampForm(year: string, month: string, day: string, hour: string, minute: string, second: string)
    requires |month| == |day| == |hour| == |minute| == |second| == 2
    ensures var text, y := Stamp(year, month, day, hour, minute, second), |year|;
      && |text| == y + 16 && text[y] == '-' && text[y + 3] == '-' && text[y + 6] == 'T' && text[y + 9] == ':'
      && text[y + 12] == ':' && text[y + 15] == 'Z'
  {}

  lemma YearReads(year: nat)
    ensures |Padded(year, 4)| >= 4 && (|Padded(year, 4)| == 4 <==> year < 10_000) && Value(Padded(year, 4)) == year
  {
    PaddedReads(year, 4);
    assert Pow10(4) == 10_000;
    hide Padded;
  }

  /** The timestamp's signs stand where RFC 3339 section 5.6 puts them. */
  lemma TimestampForm(seconds: nat)
    ensures var text := Rfc3339(seconds);
      var y := |text| - 16;
      && y >= 4 && text[y] == '-' && text[y + 3] == '-' && text[y + 6] == 'T' && text[y + 9] == ':'
      && text[y + 12] == ':' && text[y + 15] == 'Z'
  {
    var days, rest := seconds / SECONDS_A_DAY, seconds % SECONDS_A_DAY;
    DatesAreNatural(days);
    var date := CivilOf(days);
    hide CivilOf, Padded, Valid, Stamp, DateText, ClockText, Value;
    TextParts(date, rest);
    StampForm(Padded(date.year, 4), Padded(date.month, 2), Padded(date.day, 2),
              Padded(rest / 3600, 2), Padded(rest % 3600 / 60, 2), Padded(rest % 60, 2));
  }

  /** Every second reads back from its timestamp, so no two seconds share one. */
  lemma TimestampReadsBack(seconds: nat)
    ensures |Rfc3339(seconds)| >= 20 && SecondsOf(Rfc3339(seconds)) == seconds
  {
    var days := seconds / SECONDS_A_DAY;
    DatesAreNatural(days);
    DaysOfCivil(days);
    TextReads(CivilOf(days), seconds % SECONDS_A_DAY);
  }

  /** The timestamp has RFC 3339's twenty characters exactly before the year 10000. */
  lemma TimestampFits(seconds: nat)
    ensures |Rfc3339(seconds)| == 20 <==> seconds < YEAR_10000
  {
    var days := seconds / SECONDS_A_DAY;
    DatesAreNatural(days);
    TextReads(CivilOf(days), seconds % SECONDS_A_DAY);
    Year10000(days);
  }

  lemma Year10000(days: nat)
    ensures CivilOf(days).year < 10_000 <==> days < YEAR_10000 / SECONDS_A_DAY
  {
    var first := 2_932_897;
    assert first == YEAR_10000 / SECONDS_A_DAY;
    assert DaysBefore(399) == 145_731 && YearLength(399) == 366;
    assert DateOf(24, 399, 306) == Date(10_000, 1, 1);
    hide CivilOf, DateOf, DaysBefore, YearLength, Valid;
    FromParts(24, 399, 306, first);
    if days < first {
      CivilKeepsOrder(days, first);
      DatesAreNatural(days);
    } else if first < days {
      CivilKeepsOrder(first, days);
    }
  }
}
