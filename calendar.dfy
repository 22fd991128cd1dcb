/** Civil-calendar arithmetic of Go's `time` package, restricted to one fixed
    zone without daylight saving.  An instant is a count of nanoseconds since
    1970-01-01T00:00:00 on the zone's wall clock; Euclidean `/` and `%` with a
    positive divisor are floor division, which is what Go's time arithmetic
    uses for instants before the epoch as well. */
module Calendar {

  type Instant = int

  const NanosPerSecond: int := 1_000_000_000
  const NanosPerDay: int := 86_400_000_000_000

  /** Days from 0001-01-01 to 1970-01-01 in the proleptic Gregorian calendar. */
  const UnixEpochDays: int := 719_162

  /** The count of days before a year follows the Gregorian leap rule in
      closed form: 365 a year plus one for each multiple of 4, less one for
      each multiple of 100, plus one for each multiple of 400. */
  lemma {:induction false} DaysBeforeYearClosedForm(year: int)
    requires year >= 1
    ensures DaysBeforeYear(year) ==
      365 * (year - 1) + (year - 1) / 4 - (year - 1) / 100 + (year - 1) / 400
    decreases year
  {
    if year > 1 {
      DaysBeforeYearClosedForm(year - 1);
      var n := year - 1;
      QuotientSteps(n);
      MultipleOfLarger(n);
      assert YearLength(n) == 365 + (n / 4 - (n - 1) / 4) - (n / 100 - (n - 1) / 100) + (n / 400 - (n - 1) / 400);
    }
  }

  /** From n - 1 to n, each quotient grows by one exactly at a multiple. */
  lemma QuotientSteps(n: int)
    ensures n / 4 - (n - 1) / 4 == if n % 4 == 0 then 1 else 0
    ensures n / 100 - (n - 1) / 100 == if n % 100 == 0 then 1 else 0
    ensures n / 400 - (n - 1) / 400 == if n % 400 == 0 then 1 else 0
  {
  }

  /** A multiple of 400 is a multiple of 100, which is a multiple of 4. */
  lemma MultipleOfLarger(n: int)
    ensures n % 400 == 0 ==> n % 100 == 0
    ensures n % 100 == 0 ==> n % 4 == 0
  {
    if n % 400 == 0 {
      var k, j, r := n / 400, n / 100, n % 100;
      assert n == 400 * k && n == 100 * j + r && 0 <= r < 100;
      assert 100 * (4 * k - j) == r;
    }
    if n % 100 == 0 {
      var k, j, r := n / 100, n / 4, n % 4;
      assert n == 100 * k && n == 4 * j + r && 0 <= r < 4;
      assert 4 * (25 * k - j) == r;
    }
  }

  /** The epoch constant is the number of days before 1970. */
  lemma UnixEpochIs1970()
    ensures DaysBeforeYear(1970) == UnixEpochDays
  {
    DaysBeforeYearClosedForm(1970);
  }

  /** A calendar day: year, month 1..12, day of month. */
  datatype Civil = Civil(year: int, month: int, day: int)

  predicate IsLeap(year: int) {
    year % 4 == 0 && (year % 100 != 0 || year % 400 == 0)
  }

  function YearLength(year: int): int {
    if IsLeap(year) then 366 else 365
  }

  function DaysInMonth(year: int, month: int): int
    requires 1 <= month <= 12
  {
    if month == 2 then (if IsLeap(year) then 29 else 28)
    else if month == 4 || month == 6 || month == 9 || month == 11 then 30
    else 31
  }

  /** Days of `year` that precede the first of `month`; month 13 stands for
      the first of the next year. */
  function DaysBeforeMonth(year: int, month: int): int
    requires 1 <= month <= 13
  {
    var common := [0, 31, 59, 90, 120, 151, 181, 212, 243, 273, 304, 334, 365][month - 1];
    if month >= 3 && IsLeap(year) then common + 1 else common
  }

  /** Days from 0001-01-01 to the first of January of `year`, counted
      forwards for later years and backwards (negative) for earlier ones. */
  function DaysBeforeYear(year: int): int
    decreases if year < 1 then 1 - year else year - 1
  {
    if year == 1 then 0
    else if year > 1 then DaysBeforeYear(year - 1) + YearLength(year - 1)
    else DaysBeforeYear(year + 1) - YearLength(year)
  }

  /** Day number (days since 1970-01-01) of a civil day whose month is in range;
      the day of month may run past the month, as Go's `time.Date` allows. */
  function DayNumber(year: int, month: int, day: int): int
    requires 1 <= month <= 12
  {
    DaysBeforeYear(year) + DaysBeforeMonth(year, month) + day - 1 - UnixEpochDays
  }

  predicate ValidCivil(c: Civil) {
    1 <= c.month <= 12 && 1 <= c.day <= DaysInMonth(c.year, c.month)
  }

  lemma MonthStep(year: int, month: int)
    requires 1 <= month <= 12
    ensures DaysBeforeMonth(year, month + 1) == DaysBeforeMonth(year, month) + DaysInMonth(year, month)
  {
  }

  /** Consecutive years are one year length apart. */
  lemma YearStep(year: int)
    ensures DaysBeforeYear(year + 1) == DaysBeforeYear(year) + YearLength(year)
  {
  }

  lemma {:induction false} DaysBeforeYearMonotone(a: int, b: int)
    requires a <= b
    ensures DaysBeforeYear(a) + 365 * (b - a) <= DaysBeforeYear(b)
    decreases b - a
  {
    if a < b {
      DaysBeforeYearMonotone(a, b - 1);
      YearStep(b - 1);
    }
  }

  /** Searches upward from `year` for the year holding absolute day `abs`. */
  function YearUpFrom(abs: int, year: int): (y: int)
    requires DaysBeforeYear(year) <= abs
    ensures year <= y
    ensures DaysBeforeYear(y) <= abs < DaysBeforeYear(y + 1)
    decreases abs - DaysBeforeYear(year)
  {
    YearStep(year);
    if abs < DaysBeforeYear(year + 1) then year else YearUpFrom(abs, year + 1)
  }

  /** Searches downward from `year` for the year holding absolute day `abs`. */
  function YearDownFrom(abs: int, year: int): (y: int)
    requires abs < DaysBeforeYear(year + 1)
    ensures y <= year
    ensures DaysBeforeYear(y) <= abs < DaysBeforeYear(y + 1)
    decreases DaysBeforeYear(year + 1) - abs
  {
    YearStep(year);
    YearStep(year - 1);
    if DaysBeforeYear(year) <= abs then year else YearDownFrom(abs, year - 1)
  }

  /** The year that contains absolute day `abs` (days since 0001-01-01). */
  function YearOf(abs: int): (y: int)
    ensures DaysBeforeYear(y) <= abs < DaysBeforeYear(y + 1)
  {
    if 0 <= abs then YearUpFrom(abs, 1) else YearDownFrom(abs, 0)
  }

  /** Searches upward from `month` for the month holding day-of-year `doy`. */
  function MonthFrom(year: int, doy: int, month: int): (m: int)
    requires 1 <= month <= 12
    requires DaysBeforeMonth(year, month) <= doy < DaysBeforeMonth(year, 13)
    ensures month <= m <= 12
    ensures DaysBeforeMonth(year, m) <= doy < DaysBeforeMonth(year, m + 1)
    decreases 12 - month
  {
    if doy < DaysBeforeMonth(year, month + 1) then month else MonthFrom(year, doy, month + 1)
  }

  /** The civil day that is day `doy` (from 0) of `year`. */
  function CivilInYear(year: int, doy: int): (c: Civil)
    requires 0 <= doy < YearLength(year)
    ensures ValidCivil(c) && c.year == year
    ensures DaysBeforeMonth(year, c.month) + c.day - 1 == doy
  {
    var m := MonthFrom(year, doy, 1);
    MonthStep(year, m);
    Civil(year, m, doy - DaysBeforeMonth(year, m) + 1)
  }

  /** The civil day of day number `n` (what Go's `Time.Date()` reports). */
  function CivilOf(n: int): (c: Civil)
    ensures ValidCivil(c)
    ensures DayNumber(c.year, c.month, c.day) == n
  {
    var abs := n + UnixEpochDays;
    var y := YearOf(abs);
    YearStep(y);
    CivilInYear(y, abs - DaysBeforeYear(y))
  }

  lemma {:induction false} YearUnique(abs: int, y: int)
    requires DaysBeforeYear(y) <= abs < DaysBeforeYear(y + 1)
    ensures YearOf(abs) == y
  {
    var z := YearOf(abs);
    if z < y {
      DaysBeforeYearMonotone(z + 1, y);
    } else if y < z {
      DaysBeforeYearMonotone(y + 1, z);
    }
  }

  lemma {:induction false} DaysBeforeMonthMonotone(year: int, a: int, b: int)
    requires 1 <= a <= b <= 13
    ensures DaysBeforeMonth(year, a) <= DaysBeforeMonth(year, b)
    decreases b - a
  {
    if a < b {
      DaysBeforeMonthMonotone(year, a, b - 1);
      MonthStep(year, b - 1);
    }
  }

  lemma {:induction false} MonthUnique(year: int, doy: int, from: int, m: int)
    requires 1 <= from <= m <= 12
    requires DaysBeforeMonth(year, m) <= doy < DaysBeforeMonth(year, m + 1)
    ensures MonthFrom(year, doy, from) == m
    decreases m - from
  {
    if from < m {
      DaysBeforeMonthMonotone(year, from + 1, m);
      MonthUnique(year, doy, from + 1, m);
    }
  }

  /** A valid civil day is recovered from its day of the year. */
  lemma CivilInYearUnique(c: Civil)
    requires ValidCivil(c)
    ensures var doy := DaysBeforeMonth(c.year, c.month) + c.day - 1;
      0 <= doy < YearLength(c.year) && CivilInYear(c.year, doy) == c
  {
    var doy := DaysBeforeMonth(c.year, c.month) + c.day - 1;
    MonthStep(c.year, c.month);
    DaysBeforeMonthMonotone(c.year, c.month + 1, 13);
    MonthUnique(c.year, doy, 1, c.month);
  }

  /** `CivilOf` inverts `DayNumber` on valid civil days: the two are a bijection. */
  lemma CivilOfDayNumber(c: Civil)
    requires ValidCivil(c)
    ensures CivilOf(DayNumber(c.year, c.month, c.day)) == c
  {
    var n := DayNumber(c.year, c.month, c.day);
    var abs := n + UnixEpochDays;
    CivilInYearUnique(c);
    YearStep(c.year);
    YearUnique(abs, c.year);
    assert abs - DaysBeforeYear(c.year) == DaysBeforeMonth(c.year, c.month) + c.day - 1;
  }

  /** Day 0 is 1970-01-01: instants count from the Unix epoch. */
  lemma EpochIsJanuaryFirst1970()
    ensures DayNumber(1970, 1, 1) == 0
    ensures CivilOf(0) == Civil(1970, 1, 1)
  {
    UnixEpochIs1970();
    CivilOfDayNumber(Civil(1970, 1, 1));
  }

  /** Go's `time.Date(year, month, day, 0, 0, 0, 0, loc) + nanoOfDay`: the month
      is first brought into 1..12 by carrying whole years (floor division, see
      DateCarriesMonth), then the day of month is added as an offset from the
      first of that month, so an overlong day rolls into later months. */
  function Date(year: int, month: int, day: int, nanoOfDay: int): (r: Instant)
    ensures 1 <= month <= 12 ==> r == (DayNumber(year, month, 1) + (day - 1)) * NanosPerDay + nanoOfDay
  {
    var y := year + (month - 1) / 12;
    var m := (month - 1) % 12 + 1;
    assert 1 <= month <= 12 ==> y == year && m == month;
    DayNumber(y, m, day) * NanosPerDay + nanoOfDay
  }

  /** `time.Date` keeps a time of day that is within the day, whatever the
      other fields are. */
  lemma DateTimeOfDay(year: int, month: int, day: int, nanoOfDay: int)
    requires 0 <= nanoOfDay < NanosPerDay
    ensures Date(year, month, day, nanoOfDay) % NanosPerDay == nanoOfDay
  {
    var y := year + (month - 1) / 12;
    var m := (month - 1) % 12 + 1;
    DayAndTime(DayNumber(y, m, day), nanoOfDay);
  }

  /** Go's `t.AddDate(years, months, days)`: the civil fields of `t` are
      offset and recombined by `Date`, keeping the time of day. */
  function AddDate(t: Instant, years: int, months: int, days: int): (r: Instant)
    ensures r % NanosPerDay == t % NanosPerDay
  {
    var c := CivilOf(t / NanosPerDay);
    DateTimeOfDay(c.year + years, c.month + months, c.day + days, t % NanosPerDay);
    Date(c.year + years, c.month + months, c.day + days, t % NanosPerDay)
  }

  /** `time.Date` carries whole years out of the month: month m + 12 of a
      year is month m of the next, for any m. */
  lemma DateCarriesMonth(year: int, month: int, day: int, nanoOfDay: int)
    ensures Date(year, month + 12, day, nanoOfDay) == Date(year + 1, month, day, nanoOfDay)
  {
    assert (month + 12 - 1) / 12 == (month - 1) / 12 + 1;
    assert (month + 12 - 1) % 12 == (month - 1) % 12;
  }

  /** With the month and the time of day in range, the day an instant built
      by `Date` falls on is the day number of its fields. */
  lemma DateDay(year: int, month: int, day: int, nanoOfDay: int)
    requires 1 <= month <= 12 && 0 <= nanoOfDay < NanosPerDay
    ensures Date(year, month, day, nanoOfDay) / NanosPerDay == DayNumber(year, month, day)
  {
    DateInRange(year, month, day, nanoOfDay);
    DayAndTime(DayNumber(year, month, day), nanoOfDay);
  }

  /** A day count and a time of day within it are recovered from the instant. */
  lemma DayAndTime(q: int, nanoOfDay: int)
    requires 0 <= nanoOfDay < NanosPerDay
    ensures (q * NanosPerDay + nanoOfDay) % NanosPerDay == nanoOfDay
    ensures (q * NanosPerDay + nanoOfDay) / NanosPerDay == q
  {
  }

  /** Go's `t.Hour()`, `t.Minute()`, `t.Second()` and `t.Nanosecond()`: the
      clock fields, taken from the second of the day and the nanosecond of
      the second. */
  function Hour(t: Instant): (h: int)
    ensures 0 <= h < 24
  {
    (t / NanosPerSecond) % 86_400 / 3_600
  }

  function Minute(t: Instant): (m: int)
    ensures 0 <= m < 60
  {
    (t / NanosPerSecond) % 3_600 / 60
  }

  function Second(t: Instant): (s: int)
    ensures 0 <= s < 60
  {
    (t / NanosPerSecond) % 60
  }

  function Nanosecond(t: Instant): (ns: int)
    ensures 0 <= ns < NanosPerSecond
  {
    t % NanosPerSecond
  }

  /** The time of day `time.Date` builds from hour, minute, second and
      nanosecond fields that are in range. */
  function TimeOfDay(hour: int, minute: int, second: int, nanosecond: int): int {
    ((hour * 60 + minute) * 60 + second) * NanosPerSecond + nanosecond
  }

  /** The four clock fields of an instant recombine into its time of day. */
  lemma ClockFieldsRecombine(t: Instant)
    ensures TimeOfDay(Hour(t), Minute(t), Second(t), Nanosecond(t)) == t % NanosPerDay
  {
    SecondsOfDay(t / NanosPerSecond);
    NanosOfDay(t);
  }

  /** Hour, minute and second of a second count recombine into its second of day. */
  lemma SecondsOfDay(s: int)
    ensures (s % 86_400 / 3_600 * 60 + s % 3_600 / 60) * 60 + s % 60 == s % 86_400
  {
    var k, d := s / 86_400, s % 86_400;
    var h, e := d / 3_600, d % 3_600;
    var mi, f := e / 60, e % 60;
    DivideBy3600(s, 24 * k + h, e);
    DivideBy60(s, 60 * (24 * k + h) + mi, f);
  }

  /** The second of the day and the nanosecond of the second recombine into
      the nanosecond of the day. */
  lemma NanosOfDay(t: Instant)
    ensures (t / NanosPerSecond) % 86_400 * NanosPerSecond + t % NanosPerSecond == t % NanosPerDay
  {
    var s, n := t / NanosPerSecond, t % NanosPerSecond;
    var k, d := s / 86_400, s % 86_400;
    DivideByDay(t, k, NanosPerSecond * d + n);
  }

  /** At a midnight every clock field is zero. */
  lemma MidnightClockFields(q: int)
    ensures var t := q * NanosPerDay;
      Hour(t) == 0 && Minute(t) == 0 && Second(t) == 0 && Nanosecond(t) == 0
  {
    var t := q * NanosPerDay;
    DivideBySecond(t, q * 86_400, 0);
    DivideBy86400(q * 86_400, q, 0);
    DivideBy3600(q * 86_400, q * 24, 0);
    DivideBy60(q * 86_400, q * 1_440, 0);
  }

  // Euclidean division by the fixed divisors of the clock: a quotient and a
  // remainder in range are the quotient and the remainder.

  lemma DivideByDay(x: int, q: int, r: int)
    requires x == NanosPerDay * q + r && 0 <= r < NanosPerDay
    ensures x / NanosPerDay == q && x % NanosPerDay == r
  {
  }

  lemma DivideBySecond(x: int, q: int, r: int)
    requires x == NanosPerSecond * q + r && 0 <= r < NanosPerSecond
    ensures x / NanosPerSecond == q && x % NanosPerSecond == r
  {
  }

  lemma DivideBy86400(x: int, q: int, r: int)
    requires x == 86_400 * q + r && 0 <= r < 86_400
    ensures x / 86_400 == q && x % 86_400 == r
  {
  }

  lemma DivideBy3600(x: int, q: int, r: int)
    requires x == 3_600 * q + r && 0 <= r < 3_600
    ensures x / 3_600 == q && x % 3_600 == r
  {
  }

  lemma DivideBy60(x: int, q: int, r: int)
    requires x == 60 * q + r && 0 <= r < 60
    ensures x / 60 == q && x % 60 == r
  {
  }

  /** Midnight of the day of `t`, built as Go builds it from the civil fields
      with hour, minute, second and nanosecond zero. */
  function Midnight(t: Instant): (r: Instant)
    ensures r == t - t % NanosPerDay
    ensures r <= t < r + NanosPerDay
  {
    var c := CivilOf(t / NanosPerDay);
    assert (c.month - 1) / 12 == 0 && (c.month - 1) % 12 + 1 == c.month;
    Date(c.year, c.month, c.day, 0)
  }

  /** Length in days of the civil month that instant `t` falls in. */
  function MonthLengthAt(t: Instant): (days: int)
    ensures 28 <= days <= 31
  {
    var c := CivilOf(t / NanosPerDay);
    DaysInMonth(c.year, c.month)
  }

  /** Adding whole days is a fixed shift in a zone without daylight saving. */
  lemma AddDaysIsShift(t: Instant, n: int)
    ensures AddDate(t, 0, 0, n) == t + n * NanosPerDay
  {
    var c := CivilOf(t / NanosPerDay);
    assert (c.month - 1) / 12 == 0 && (c.month - 1) % 12 + 1 == c.month;
  }

  /** Adding one month moves `t` forward by the length of its own month, which
      is how Go normalises: October 31 plus one month is December 1. */
  lemma {:induction false} AddMonthIsMonthLength(t: Instant)
    ensures AddDate(t, 0, 1, 0) == t + MonthLengthAt(t) * NanosPerDay
  {
    var c := CivilOf(t / NanosPerDay);
    MonthStep(c.year, c.month);
    if c.month == 12 {
      YearStep(c.year);
      assert (c.month + 1 - 1) / 12 == 1 && (c.month + 1 - 1) % 12 + 1 == 1;
    } else {
      assert (c.month + 1 - 1) / 12 == 0 && (c.month + 1 - 1) % 12 + 1 == c.month + 1;
    }
  }

  /** A whole number of days is a day boundary. */
  lemma DayMultiple(q: int)
    ensures (q * NanosPerDay) % NanosPerDay == 0
    ensures (q * NanosPerDay) / NanosPerDay == q
  {
  }

  /** Truncating to midnight twice is truncating once. */
  lemma MidnightIdempotent(t: Instant)
    ensures Midnight(Midnight(t)) == Midnight(t)
  {
    var m := Midnight(t);
    assert m == (t / NanosPerDay) * NanosPerDay;
    DayMultiple(t / NanosPerDay);
  }

  /** With the month already in range, `Date` is the day number scaled to
      nanoseconds plus the time of day. */
  lemma DateInRange(year: int, month: int, day: int, nanoOfDay: int)
    requires 1 <= month <= 12
    ensures Date(year, month, day, nanoOfDay) == DayNumber(year, month, day) * NanosPerDay + nanoOfDay
  {
    assert (month - 1) / 12 == 0 && (month - 1) % 12 + 1 == month;
  }

  /** `Date` at midnight of a valid civil day lands on that day: reading the
      civil fields back gives the same day. */
  lemma DateRoundTrip(c: Civil)
    requires ValidCivil(c)
    ensures CivilOf(Date(c.year, c.month, c.day, 0) / NanosPerDay) == c
  {
    var n := DayNumber(c.year, c.month, c.day);
    DateInRange(c.year, c.month, c.day, 0);
    DayMultiple(n);
    CivilOfDayNumber(c);
  }

  /** Go's `AddDate(0, 1, 0)` normalisation on the month boundary: October 31
      plus one month is December 1 (November has 30 days). */
  lemma OctoberThirtyFirstPlusOneMonth(year: int)
    ensures AddDate(Date(year, 10, 31, 0), 0, 1, 0) == Date(year, 12, 1, 0)
  {
    var t := Date(year, 10, 31, 0);
    DateRoundTrip(Civil(year, 10, 31));
    AddMonthIsMonthLength(t);
    assert MonthLengthAt(t) == 31;
    DateInRange(year, 10, 31, 0);
    DateInRange(year, 12, 1, 0);
    assert DayNumber(year, 12, 1) == DayNumber(year, 10, 31) + 31;
  }

  /** January 31 plus one month overflows February into March. */
  lemma JanuaryThirtyFirstPlusOneMonth(year: int)
    ensures AddDate(Date(year, 1, 31, 0), 0, 1, 0) == Date(year, 3, if IsLeap(year) then 2 else 3, 0)
  {
    var t := Date(year, 1, 31, 0);
    DateRoundTrip(Civil(year, 1, 31));
    AddMonthIsMonthLength(t);
    assert MonthLengthAt(t) == 31;
    JanuaryThirtyFirstPlusDays(year);
  }

  lemma JanuaryThirtyFirstPlusDays(year: int)
    ensures Date(year, 3, if IsLeap(year) then 2 else 3, 0) == Date(year, 1, 31, 0) + 31 * NanosPerDay
  {
    var day := if IsLeap(year) then 2 else 3;
    assert DaysBeforeMonth(year, 3) + day == 62;
  }
}
