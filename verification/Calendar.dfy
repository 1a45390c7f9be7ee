/** The proleptic Gregorian calendar behind the default period of a recorded win.

    An instant is the number of microseconds since 0001-01-01T00:00 UTC, the
    first instant Python's `datetime` can hold; that day is a Monday. A `Civil`
    value is what `datetime.replace` works on. */
module Calendar {

  const DAY: int := 86_400_000_000

  datatype Civil = Civil(year: int, month: int, day: int, micros: int)

  predicate IsLeap(y: int) {
    y % 4 == 0 && (y % 100 != 0 || y % 400 == 0)
  }

  function DaysInMonth(y: int, m: int): int
    requires 1 <= m <= 12
  {
    if m == 2 then (if IsLeap(y) then 29 else 28)
    else if m == 4 || m == 6 || m == 9 || m == 11 then 30
    else 31
  }

  function DaysBeforeYear(y: int): int
    requires 1 <= y
  {
    (y - 1) * 365 + (y - 1) / 4 - (y - 1) / 100 + (y - 1) / 400
  }

  function DaysBeforeMonth(y: int, m: int): int
    requires 1 <= m <= 13
    decreases m
  {
    if m == 1 then 0 else DaysBeforeMonth(y, m - 1) + DaysInMonth(y, m - 1)
  }

  /** The number of the first day of a month, counting from 0001-01-01. */
  function FirstDay(y: int, m: int): int
    requires 1 <= y && 1 <= m <= 12
  {
    DaysBeforeYear(y) + DaysBeforeMonth(y, m)
  }

  function NextMonth(y: int, m: int): (int, int) {
    if m == 12 then (y + 1, 1) else (y, m + 1)
  }

  /** A year is 365 or 366 days long, whatever the century rules say. */
  lemma YearLength(y: int)
    requires 1 <= y
    ensures DaysBeforeYear(y + 1) == DaysBeforeYear(y) + 365 + (if IsLeap(y) then 1 else 0)
  {
    assert y / 4 == (y - 1) / 4 + (if y % 4 == 0 then 1 else 0);
    assert y / 100 == (y - 1) / 100 + (if y % 100 == 0 then 1 else 0);
    assert y / 400 == (y - 1) / 400 + (if y % 400 == 0 then 1 else 0);
  }

  lemma MonthsFillTheYear(y: int)
    ensures DaysBeforeMonth(y, 13) == 365 + (if IsLeap(y) then 1 else 0)
  {
    assert DaysBeforeMonth(y, 4) == DaysBeforeMonth(y, 3) + 31;
    assert DaysBeforeMonth(y, 7) == DaysBeforeMonth(y, 4) + 30 + 31 + 30;
    assert DaysBeforeMonth(y, 10) == DaysBeforeMonth(y, 7) + 31 + 31 + 30;
    assert DaysBeforeMonth(y, 13) == DaysBeforeMonth(y, 10) + 31 + 30 + 31;
  }

  /** Consecutive months abut, across December included. */
  lemma MonthsAbut(y: int, m: int)
    requires 1 <= y && 1 <= m <= 12
    ensures var (y', m') := NextMonth(y, m);
            FirstDay(y', m') == FirstDay(y, m) + DaysInMonth(y, m)
  {
    if m == 12 {
      YearLength(y);
      MonthsFillTheYear(y);
    }
  }

  lemma MonthsAreNotNegative(y: int, m: int)
    requires 1 <= m <= 13
    ensures 0 <= DaysBeforeMonth(y, m)
    decreases m
  {
  }

  /** The month holding a day, found by walking forward from month (y, m). */
  function MonthHolding(n: int, y: int, m: int): (r: (int, int))
    requires 1 <= y && 1 <= m <= 12 && FirstDay(y, m) <= n
    ensures 1 <= r.0 && 1 <= r.1 <= 12
    ensures FirstDay(r.0, r.1) <= n < FirstDay(r.0, r.1) + DaysInMonth(r.0, r.1)
    decreases n - FirstDay(y, m)
  {
    MonthsAbut(y, m);
    if n < FirstDay(y, m) + DaysInMonth(y, m) then (y, m)
    else
      var (y', m') := NextMonth(y, m);
      MonthHolding(n, y', m')
  }

  predicate Valid(c: Civil) {
    1 <= c.year && 1 <= c.month <= 12 && 1 <= c.day <= DaysInMonth(c.year, c.month) && 0 <= c.micros < DAY
  }

  function ToInstant(c: Civil): int
    requires Valid(c)
  {
    (FirstDay(c.year, c.month) + c.day - 1) * DAY + c.micros
  }

  function FromInstant(t: nat): (c: Civil)
    ensures Valid(c) && ToInstant(c) == t
  {
    assert FirstDay(1, 1) == 0;
    var (y, m) := MonthHolding(t / DAY, 1, 1);
    Civil(y, m, t / DAY - FirstDay(y, m) + 1, t % DAY)
  }

  // ---- The calendar against closed forms ----

  /** The days before a month, without any month's length: months of the
      average length 367 / 12, less the one or two days February lacks. */
  lemma {:induction false} DaysBeforeMonthIs(y: int, m: int)
    requires 1 <= m <= 12
    ensures DaysBeforeMonth(y, m) == (367 * m - 362) / 12 - (if m <= 2 then 0 else if IsLeap(y) then 1 else 2)
    decreases m
  {
    if m > 1 {
      DaysBeforeMonthIs(y, m - 1);
    }
  }

  /** From March on, five months have 153 days. */
  lemma FivesOfMonths(m: int)
    requires 3 <= m <= 12
    ensures (367 * m - 362) / 12 - 2 == 59 + (153 * (m - 3) + 2) / 5
  {
  }

  lemma FirstDayFromMarch(y: int, m: int)
    requires 1 <= y && 3 <= m <= 12
    ensures FirstDay(y, m) == 365 * y + y / 4 - y / 100 + y / 400 + (153 * (m - 3) + 2) / 5 - 306
  {
    DaysBeforeMonthIs(y, m);
    FivesOfMonths(m);
    YearLength(y);
  }

  /** The day number of a date, without leap years or lengths: years are counted
      from March, so that the leap day comes last, and its months run in fives of
      153 days. The first day of year 1 is day 0. */
  lemma DayNumberIs(c: Civil)
    requires Valid(c)
    ensures var y, m := if c.month <= 2 then c.year - 1 else c.year, if c.month <= 2 then c.month + 9 else c.month - 3;
            ToInstant(c) == (365 * y + y / 4 - y / 100 + y / 400 + (153 * m + 2) / 5 + c.day - 307) * DAY + c.micros
  {
    if c.month <= 2 {
      DaysBeforeMonthIs(c.year, c.month);
    } else {
      FirstDayFromMarch(c.year, c.month);
    }
  }

  predicate MonthBefore(y: int, m: int, y': int, m': int) {
    y < y' || (y == y' && m < m')
  }

  /** Later months start later, by at least the length of the earlier one. */
  lemma LaterMonthsStartLater(y: int, m: int, y': int, m': int)
    requires 1 <= y && 1 <= m <= 12 && 1 <= y' && 1 <= m' <= 12
    requires MonthBefore(y, m, y', m')
    ensures FirstDay(y, m) + DaysInMonth(y, m) <= FirstDay(y', m')
    decreases y' - y, 12 - m
  {
    MonthsAbut(y, m);
    var (a, b) := NextMonth(y, m);
    if (a, b) != (y', m') {
      LaterMonthsStartLater(a, b, y', m');
    }
  }

  /** A day lies in one month only. */
  lemma OneMonthPerDay(n: int, y: int, m: int, y': int, m': int)
    requires 1 <= y && 1 <= m <= 12 && 1 <= y' && 1 <= m' <= 12
    requires FirstDay(y, m) <= n < FirstDay(y, m) + DaysInMonth(y, m)
    requires FirstDay(y', m') <= n < FirstDay(y', m') + DaysInMonth(y', m')
    ensures (y, m) == (y', m')
  {
    if MonthBefore(y, m, y', m') {
      LaterMonthsStartLater(y, m, y', m');
    } else if MonthBefore(y', m', y, m) {
      LaterMonthsStartLater(y', m', y, m);
    }
  }

  lemma InstantIsNat(c: Civil)
    requires Valid(c)
    ensures 0 <= ToInstant(c)
  {
    MonthsAreNotNegative(c.year, c.month);
  }

  lemma DivModUnique(q: int, r: int)
    requires 0 <= r < DAY
    ensures (q * DAY + r) / DAY == q && (q * DAY + r) % DAY == r
  {
  }

  /** Reading the fields back gives the same civil time. */
  lemma CivilRoundTrip(c: Civil)
    requires Valid(c)
    ensures 0 <= ToInstant(c)
    ensures FromInstant(ToInstant(c)) == c
  {
    InstantIsNat(c);
    var n := FirstDay(c.year, c.month) + c.day - 1;
    DivModUnique(n, c.micros);
    var d := FromInstant(ToInstant(c));
    OneMonthPerDay(n, c.year, c.month, d.year, d.month);
  }
}
