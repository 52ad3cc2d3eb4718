/**
  Proleptic Gregorian calendar arithmetic, the part of Python's `datetime`
  that the route search and the cache rebase rely on: day numbers and
  whole-day and whole-minute addition. The text forms live in `Timestamps`.
 */
module Calendar {

  datatype Date = Date(year: int, month: int, day: int)

  /** A timestamp `(y, mo, d, h, mi, s)`; the date part is kept as a `Date`. */
  datatype DateTime = DateTime(date: Date, hour: int, minute: int, second: int)

  const MinutesPerDay: int := 1440

  predicate IsLeapYear(y: int) {
    y % 4 == 0 && (y % 100 != 0 || y % 400 == 0)
  }

  function DaysInMonth(y: int, m: int): int
    requires 1 <= m <= 12
  {
    if m == 2 then (if IsLeapYear(y) then 29 else 28)
    else if m == 4 || m == 6 || m == 9 || m == 11 then 30
    else 31
  }

  predicate ValidDate(d: Date) {
    1 <= d.month <= 12 && 1 <= d.day <= DaysInMonth(d.year, d.month)
  }

  predicate ValidDateTime(t: DateTime) {
    && ValidDate(t.date)
    && 0 <= t.hour < 24
    && 0 <= t.minute < 60
    && 0 <= t.second < 60
  }

  /** The years Python's `datetime` can represent (MINYEAR..MAXYEAR). */
  predicate InYearRange(d: Date) {
    1 <= d.year <= 9999
  }

  /** Days from 0001-01-01 to the first of January of year `y`. */
  function DaysBeforeYear(y: int): int {
    var p := y - 1;
    365 * p + p / 4 - p / 100 + p / 400
  }

  /** Days from the first of January to the first of month `m` of year `y`. */
  function DaysBeforeMonth(y: int, m: int): int
    requires 1 <= m <= 12
  {
    var leap := if m > 2 && IsLeapYear(y) then 1 else 0;
    leap +
    (match m
     case 1 => 0   case 2 => 31  case 3 => 59   case 4 => 90
     case 5 => 120 case 6 => 151 case 7 => 181  case 8 => 212
     case 9 => 243 case 10 => 273 case 11 => 304 case _ => 334)
  }

  /** The days-from-civil conversion: 0001-01-01 is day 0. */
  function DayNumber(d: Date): int
    requires 1 <= d.month <= 12
  {
    DaysBeforeYear(d.year) + DaysBeforeMonth(d.year, d.month) + d.day - 1
  }

  /** Stepping the numerator by one raises a floor quotient by one exactly at multiples. */
  lemma FloorStep(p: int, c: int)
    requires c == 4 || c == 100 || c == 400
    ensures (p + 1) / c - p / c == (if (p + 1) % c == 0 then 1 else 0)
  {
    var q := p / c;
    assert p == c * q + p % c;
    if p % c == c - 1 {
      assert p + 1 == c * (q + 1);
    } else {
      assert p + 1 == c * q + (p % c + 1);
    }
  }

  lemma CenturyDivisibility(y: int)
    ensures y % 400 == 0 ==> y % 100 == 0
    ensures y % 100 == 0 ==> y % 4 == 0
  {
    if y % 400 == 0 {
      var k := y / 400;
      assert y == 100 * (4 * k) + 0;
    }
    if y % 100 == 0 {
      var k := y / 100;
      assert y == 4 * (25 * k) + 0;
    }
  }

  lemma YearLength(y: int)
    ensures DaysBeforeYear(y + 1) - DaysBeforeYear(y) == (if IsLeapYear(y) then 366 else 365)
  {
    FloorStep(y - 1, 4);
    FloorStep(y - 1, 100);
    FloorStep(y - 1, 400);
    CenturyDivisibility(y);
  }

  /** `DaysBeforeYear` stays within two days of the mean Gregorian year length. */
  lemma DaysBeforeYearEstimate(y: int)
    ensures -699 <= 400 * DaysBeforeYear(y) - 146097 * (y - 1) <= 396
  {
    var p := y - 1;
    var a, r4 := p / 4, p % 4;
    var b, r100 := p / 100, p % 100;
    var c, r400 := p / 400, p % 400;
    assert p == 4 * a + r4 && 0 <= r4 < 4;
    assert p == 100 * b + r100 && 0 <= r100 < 100;
    assert p == 400 * c + r400 && 0 <= r400 < 400;
    assert 400 * DaysBeforeYear(y) == 146097 * p - 100 * r4 + 4 * r100 - r400;
  }

  /** The year estimate from the 400-year cycle of 146097 days. */
  function YearGuess(n: int): int {
    n * 400 / 146097 + 1
  }

  /** Day number `n` falls in the guessed year or in one of its two neighbours. */
  lemma YearGuessClose(n: int)
    ensures DaysBeforeYear(YearGuess(n) - 1) <= n < DaysBeforeYear(YearGuess(n) + 2)
  {
    var q := n * 400 / 146097;
    assert 146097 * q <= n * 400 < 146097 * q + 146097;
    DaysBeforeYearEstimate(q);
    DaysBeforeYearEstimate(q + 3);
  }

  /** The year holding day number `n`. */
  function YearOf(n: int): (y: int)
    ensures DaysBeforeYear(y) <= n < DaysBeforeYear(y + 1)
  {
    var g := YearGuess(n);
    YearGuessClose(n);
    if DaysBeforeYear(g + 1) <= n then g + 1
    else if DaysBeforeYear(g) <= n then g
    else g - 1
  }

  /** The month of year `y` holding day `doy` of that year (0-based). */
  function MonthOf(y: int, doy: int): (m: int)
    requires 0 <= doy
    ensures 1 <= m <= 12 && DaysBeforeMonth(y, m) <= doy
    ensures m < 12 ==> doy < DaysBeforeMonth(y, m + 1)
  {
    if doy >= DaysBeforeMonth(y, 12) then 12
    else if doy >= DaysBeforeMonth(y, 11) then 11
    else if doy >= DaysBeforeMonth(y, 10) then 10
    else if doy >= DaysBeforeMonth(y, 9) then 9
    else if doy >= DaysBeforeMonth(y, 8) then 8
    else if doy >= DaysBeforeMonth(y, 7) then 7
    else if doy >= DaysBeforeMonth(y, 6) then 6
    else if doy >= DaysBeforeMonth(y, 5) then 5
    else if doy >= DaysBeforeMonth(y, 4) then 4
    else if doy >= DaysBeforeMonth(y, 3) then 3
    else if doy >= DaysBeforeMonth(y, 2) then 2
    else 1
  }

  /** The civil-from-days conversion: the date whose day number is `n`. */
  function DateOf(n: int): (d: Date)
    ensures ValidDate(d)
    ensures DayNumber(d) == n
  {
    var y := YearOf(n);
    var doy := n - DaysBeforeYear(y);
    YearLength(y);
    var m := MonthOf(y, doy);
    Date(y, m, doy - DaysBeforeMonth(y, m) + 1)
  }

  /** Calendar-correct addition of `k` whole days (Python's `date + timedelta(days=k)`). */
  function AddDays(d: Date, k: int): (r: Date)
    requires 1 <= d.month <= 12
    ensures ValidDate(r)
    ensures DayNumber(r) == DayNumber(d) + k
  {
    DateOf(DayNumber(d) + k)
  }

  lemma {:induction false} DaysBeforeYearMonotone(a: int, b: int)
    requires a <= b
    ensures DaysBeforeYear(a) + 365 * (b - a) <= DaysBeforeYear(b)
    decreases b - a
  {
    if a < b {
      DaysBeforeYearMonotone(a, b - 1);
      YearLength(b - 1);
    }
  }

  lemma DayNumberWithinYear(d: Date)
    requires ValidDate(d)
    ensures DaysBeforeYear(d.year) <= DayNumber(d) < DaysBeforeYear(d.year + 1)
  {
    YearLength(d.year);
  }

  /** Distinct valid dates have distinct day numbers. */
  lemma DayNumberInjective(a: Date, b: Date)
    requires ValidDate(a) && ValidDate(b)
    requires DayNumber(a) == DayNumber(b)
    ensures a == b
  {
    DayNumberWithinYear(a);
    DayNumberWithinYear(b);
    if a.year < b.year {
      DaysBeforeYearMonotone(a.year + 1, b.year);
      assert false;
    } else if b.year < a.year {
      DaysBeforeYearMonotone(b.year + 1, a.year);
      assert false;
    }
    assert DaysBeforeMonth(a.year, a.month) + a.day == DaysBeforeMonth(b.year, b.month) + b.day;
  }

  /** Whole-day addition composes: shifting by `a` then by `b` is shifting by `a + b`. */
  lemma AddDaysCompose(d: Date, a: int, b: int)
    requires ValidDate(d)
    ensures AddDays(AddDays(d, a), b) == AddDays(d, a + b)
  {
    DayNumberInjective(AddDays(AddDays(d, a), b), AddDays(d, a + b));
  }

  /** The day count between two valid dates, Python's `(later - earlier).days`. */
  function DaysBetween(from: Date, to: Date): (n: int)
    requires ValidDate(from) && ValidDate(to)
    ensures AddDays(from, n) == to
  {
    var n := DayNumber(to) - DayNumber(from);
    DayNumberInjective(AddDays(from, n), to);
    n
  }

  /** Minutes since 0001-01-01 00:00, ignoring the seconds field. */
  function MinuteStamp(t: DateTime): int
    requires 1 <= t.date.month <= 12
  {
    DayNumber(t.date) * MinutesPerDay + t.hour * 60 + t.minute
  }

  /** Two valid timestamps with the same minute stamp and second are equal. */
  lemma MinuteStampInjective(s: DateTime, t: DateTime)
    requires ValidDateTime(s) && ValidDateTime(t)
    requires MinuteStamp(s) == MinuteStamp(t) && s.second == t.second
    ensures s == t
  {
    var x := s.hour * 60 + s.minute;
    var y := t.hour * 60 + t.minute;
    assert 0 <= x < MinutesPerDay && 0 <= y < MinutesPerDay;
    assert DayNumber(s.date) == DayNumber(t.date);
    DayNumberInjective(s.date, t.date);
  }

  /** Calendar-correct addition of `k` minutes (Python's `dt + timedelta(minutes=k)`):
      the minute stamp moves by exactly `k` and the seconds field is kept. */
  function AddMinutes(t: DateTime, k: int): (r: DateTime)
    requires ValidDateTime(t)
    ensures ValidDateTime(r)
    ensures MinuteStamp(r) == MinuteStamp(t) + k
    ensures r.hour * 60 + r.minute == (t.hour * 60 + t.minute + k) % MinutesPerDay
    ensures r.second == t.second
  {
    var total := t.hour * 60 + t.minute + k;
    var shift := total / MinutesPerDay;
    var rest := total % MinutesPerDay;
    DateTime(AddDays(t.date, shift), rest / 60, rest % 60, t.second)
  }

  /** Adding minutes that land on clock minute `c` of the same or the next day
      shows `c` as the time of day. */
  lemma AddMinutesClock(t: DateTime, k: int, c: int)
    requires ValidDateTime(t) && 0 <= c < MinutesPerDay
    requires t.hour * 60 + t.minute + k == c || t.hour * 60 + t.minute + k == c + MinutesPerDay
    ensures AddMinutes(t, k).hour == c / 60 && AddMinutes(t, k).minute == c % 60
  {
    var total := t.hour * 60 + t.minute + k;
    assert total % MinutesPerDay == c;
  }

  /** Adding `k` minutes and then `-k` minutes gives the timestamp back. */
  lemma AddMinutesRoundTrip(t: DateTime, k: int)
    requires ValidDateTime(t)
    ensures AddMinutes(AddMinutes(t, k), -k) == t
  {
    MinuteStampInjective(AddMinutes(AddMinutes(t, k), -k), t);
  }

  /** Shifting a timestamp by whole days (the cache rebase); the time of day is kept. */
  function ShiftDays(t: DateTime, k: int): (r: DateTime)
    requires ValidDateTime(t)
    ensures ValidDateTime(r)
    ensures MinuteStamp(r) == MinuteStamp(t) + k * MinutesPerDay
    ensures r.hour == t.hour && r.minute == t.minute && r.second == t.second
  {
    DateTime(AddDays(t.date, k), t.hour, t.minute, t.second)
  }

  /** Whole-day shifts compose. */
  lemma ShiftDaysCompose(t: DateTime, a: int, b: int)
    requires ValidDateTime(t)
    ensures ShiftDays(ShiftDays(t, a), b) == ShiftDays(t, a + b)
  {
    AddDaysCompose(t.date, a, b);
  }
}
