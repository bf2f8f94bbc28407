/** The proleptic Gregorian calendar of Python's `datetime.date`, and instants on it. */
module Calendar {

  datatype Date = Date(y: int, m: int, d: int)

  /** The whole seconds of a time of day. */
  datatype Clock = Clock(hour: nat, minute: nat, second: nat)

  /** A UTC datetime. */
  datatype Instant = Instant(date: Date, clock: Clock, micro: nat)

  const MIN_YEAR := 1
  const MAX_YEAR := 9999
  const MIDNIGHT := Clock(0, 0, 0)

  predicate IsLeap(y: int) { y % 4 == 0 && (y % 100 != 0 || y % 400 == 0) }

  function DaysInMonth(y: int, m: int): (n: nat)
    ensures 28 <= n <= 31
  {
    if m == 2 then (if IsLeap(y) then 29 else 28)
    else if m == 4 || m == 6 || m == 9 || m == 11 then 30
    else 31
  }

  /** What `date(y, m, d)` accepts. */
  predicate Valid(date: Date) {
    && MIN_YEAR <= date.y <= MAX_YEAR
    && 1 <= date.m <= 12
    && 1 <= date.d <= DaysInMonth(date.y, date.m)
  }

  predicate ValidClock(c: Clock) { c.hour < 24 && c.minute < 60 && c.second < 60 }

  predicate ValidInstant(i: Instant) { Valid(i.date) && ValidClock(i.clock) && i.micro < 1_000_000 }

  predicate DateLess(a: Date, b: Date) {
    a.y < b.y || (a.y == b.y && (a.m < b.m || (a.m == b.m && a.d < b.d)))
  }

  predicate ClockLess(a: Clock, b: Clock) {
    a.hour < b.hour || (a.hour == b.hour && (a.minute < b.minute || (a.minute == b.minute && a.second < b.second)))
  }

  predicate Before(a: Instant, b: Instant) {
    || DateLess(a.date, b.date)
    || (a.date == b.date && (ClockLess(a.clock, b.clock) || (a.clock == b.clock && a.micro < b.micro)))
  }

  lemma NotBeforeTransitive(a: Instant, b: Instant, c: Instant)
    requires !Before(b, a) && !Before(c, b)
    ensures !Before(c, a)
  {
  }

  // ---------- day numbers ----------

  function DaysBeforeYear(y: int): int {
    (y - 1) * 365 + (y - 1) / 4 - (y - 1) / 100 + (y - 1) / 400
  }

  function DaysBeforeMonth(y: int, m: int): (n: nat)
    requires 1 <= m <= 12
    decreases m
  {
    if m == 1 then 0 else DaysBeforeMonth(y, m - 1) + DaysInMonth(y, m - 1)
  }

  /** `date.toordinal()`. */
  function Ordinal(date: Date): int
    requires Valid(date)
  {
    DaysBeforeYear(date.y) + DaysBeforeMonth(date.y, date.m) + date.d
  }

  const LAST_DATE := Date(9999, 12, 31)

  /** `date.fromordinal(date.toordinal() + 1)`, by carrying day, month and year. */
  function NextDay(date: Date): (next: Date)
    requires Valid(date) && date != LAST_DATE
    ensures Valid(next) && DateLess(date, next)
  {
    if date.d < DaysInMonth(date.y, date.m) then date.(d := date.d + 1)
    else if date.m < 12 then Date(date.y, date.m + 1, 1)
    else Date(date.y + 1, 1, 1)
  }

  lemma NextQuarter(k: nat)
    ensures (k + 1) / 4 == k / 4 + if (k + 1) % 4 == 0 then 1 else 0
  {
  }

  lemma NextHundredth(k: nat)
    ensures (k + 1) / 100 == k / 100 + if (k + 1) % 100 == 0 then 1 else 0
  {
  }

  lemma NextFourHundredth(k: nat)
    ensures (k + 1) / 400 == k / 400 + if (k + 1) % 400 == 0 then 1 else 0
  {
  }

  lemma HundredthIsQuarter(y: int)
    requires y % 100 == 0
    ensures y % 4 == 0
  {
    assert y == 4 * (25 * (y / 100));
  }

  lemma FourHundredthIsHundredth(y: int)
    requires y % 400 == 0
    ensures y % 100 == 0
  {
    assert y == 100 * (4 * (y / 400));
  }

  lemma YearLength(y: int)
    requires y >= 1
    ensures DaysBeforeYear(y + 1) == DaysBeforeYear(y) + (if IsLeap(y) then 366 else 365)
  {
    NextQuarter(y - 1);
    NextHundredth(y - 1);
    NextFourHundredth(y - 1);
    if y % 100 == 0 { HundredthIsQuarter(y); }
    if y % 400 == 0 { FourHundredthIsHundredth(y); }
  }

  lemma MonthsOfYear(y: int)
    ensures DaysBeforeMonth(y, 12) + 31 == if IsLeap(y) then 366 else 365
  {
    assert DaysBeforeMonth(y, 3) == 31 + DaysInMonth(y, 2);
    assert DaysBeforeMonth(y, 6) == DaysBeforeMonth(y, 3) + 92;
    assert DaysBeforeMonth(y, 9) == DaysBeforeMonth(y, 6) + 92;
    assert DaysBeforeMonth(y, 12) == DaysBeforeMonth(y, 9) + 91;
  }

  lemma {:induction false} MonthsGrow(y: int, m: int, n: int)
    requires 1 <= m < n <= 12
    ensures DaysBeforeMonth(y, m) + DaysInMonth(y, m) <= DaysBeforeMonth(y, n)
    decreases n
  {
    if m < n - 1 { MonthsGrow(y, m, n - 1); }
  }

  lemma {:induction false} YearsGrow(y: int, z: int)
    requires 1 <= y < z
    ensures DaysBeforeYear(y + 1) <= DaysBeforeYear(z)
    decreases z
  {
    if y < z - 1 {
      YearsGrow(y, z - 1);
      YearLength(z - 1);
    }
  }

  /** Field order is day-number order, so a date has one day number and a day number one date. */
  lemma OrdinalOrder(a: Date, b: Date)
    requires Valid(a) && Valid(b)
    ensures DateLess(a, b) <==> Ordinal(a) < Ordinal(b)
    ensures a == b <==> Ordinal(a) == Ordinal(b)
  {
    if DateLess(a, b) { OrdinalGrows(a, b); }
    if DateLess(b, a) { OrdinalGrows(b, a); }
  }

  lemma OrdinalGrows(a: Date, b: Date)
    requires Valid(a) && Valid(b) && DateLess(a, b)
    ensures Ordinal(a) < Ordinal(b)
  {
    if a.y < b.y {
      YearsGrow(a.y, b.y);
      YearLength(a.y);
      MonthsOfYear(a.y);
      if a.m < 12 { MonthsGrow(a.y, a.m, 12); }
    } else if a.m < b.m {
      MonthsGrow(a.y, a.m, b.m);
    }
  }

  /** `NextDay` is the date one day number later, over month, year and leap boundaries. */
  lemma NextDayOrdinal(date: Date)
    requires Valid(date) && date != LAST_DATE
    ensures Ordinal(NextDay(date)) == Ordinal(date) + 1
  {
    if date.d < DaysInMonth(date.y, date.m) {
    } else if date.m < 12 {
      assert DaysBeforeMonth(date.y, date.m + 1) == DaysBeforeMonth(date.y, date.m) + DaysInMonth(date.y, date.m);
    } else {
      YearLength(date.y);
      MonthsOfYear(date.y);
    }
  }

  /** The half-open range [date, next day) holds exactly that date. */
  lemma NextDayAdjacent(date: Date, x: Date)
    requires Valid(date) && date != LAST_DATE && Valid(x)
    ensures DateLess(x, NextDay(date)) <==> DateLess(x, date) || x == date
  {
    NextDayOrdinal(date);
    OrdinalOrder(x, NextDay(date));
    OrdinalOrder(x, date);
  }
}
