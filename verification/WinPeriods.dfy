/** The period a win belongs to when the caller names none: the UTC day, the
    Monday-based week or the calendar month of the instant. */
module WinPeriods {
  import opened Calendar

  datatype Tier = Daily | Weekly | Monthly | Grand

  function StartOfDay(t: nat): (r: nat) {
    CivilRoundTrip(FromInstant(t).(micros := 0));
    ToInstant(FromInstant(t).(micros := 0))
  }

  /** Monday is 0; day 0 of the calendar is a Monday. */
  function Weekday(t: nat): int {
    (t / DAY) % 7
  }

  function StartOfWeek(t: nat): nat {
    WeekStartsAfterTheEpoch(t);
    StartOfDay(t - Weekday(t) * DAY)
  }

  function StartOfMonth(t: nat): nat {
    CivilRoundTrip(FromInstant(t).(day := 1, micros := 0));
    ToInstant(FromInstant(t).(day := 1, micros := 0))
  }

  function PeriodStart(tier: Tier, now: nat): nat {
    match tier
    case Daily => StartOfDay(now)
    case Weekly => StartOfWeek(now)
    case Monthly => StartOfMonth(now)
    case Grand => StartOfDay(now)
  }

  /** For a month: 32 days past its first day, moved back to day 1. The time
      of day is already midnight and stays so. */
  function PeriodEnd(tier: Tier, now: nat): int {
    match tier
    case Daily => StartOfDay(now) + DAY
    case Weekly => StartOfWeek(now) + 7 * DAY
    case Monthly => ToInstant(FromInstant(StartOfMonth(now) + 32 * DAY).(day := 1))
    case Grand => now + 365 * DAY
  }

  /** Independent of the arithmetic above: what it means to share a period. */
  ghost predicate SamePeriod(tier: Tier, a: nat, b: nat) {
    match tier
    case Daily => a / DAY == b / DAY
    case Weekly => (a / DAY) / 7 == (b / DAY) / 7
    case Monthly => FromInstant(a).year == FromInstant(b).year && FromInstant(a).month == FromInstant(b).month
    case Grand => a / DAY == b / DAY
  }

  lemma WeekStartsAfterTheEpoch(t: nat)
    ensures 0 <= t - Weekday(t) * DAY
  {
    var n := t / DAY;
    assert n % 7 <= n;
    assert (n % 7) * DAY <= n * DAY <= t;
  }

  lemma StartOfDayIs(t: nat)
    ensures StartOfDay(t) == (t / DAY) * DAY
  {
    var c := FromInstant(t);
    DivModUnique(FirstDay(c.year, c.month) + c.day - 1, c.micros);
  }

  lemma StartOfWeekIs(t: nat)
    ensures StartOfWeek(t) == (t / DAY - Weekday(t)) * DAY
  {
    WeekStartsAfterTheEpoch(t);
    var w := t - Weekday(t) * DAY;
    StartOfDayIs(w);
    DivModUnique(t / DAY - Weekday(t), t % DAY);
    assert w == (t / DAY - Weekday(t)) * DAY + t % DAY;
  }

  lemma StartOfMonthIs(t: nat)
    ensures var c := FromInstant(t);
            StartOfMonth(t) == FirstDay(c.year, c.month) * DAY &&
            FromInstant(StartOfMonth(t)) == c.(day := 1, micros := 0)
  {
    CivilRoundTrip(FromInstant(t).(day := 1, micros := 0));
  }

  function FirstOfNextMonth(c: Civil): Civil {
    var (y, m) := NextMonth(c.year, c.month);
    Civil(y, m, 1, 0)
  }

  /** Day 33 counted from the first of a month is a day of the next month, for
      every month of every year. */
  lemma ThirtyTwoDaysOn(c: Civil)
    requires Valid(c) && c.day == 1 && c.micros == 0
    ensures var next := FirstOfNextMonth(c);
            var landing := next.(day := 33 - DaysInMonth(c.year, c.month));
            Valid(next) && Valid(landing) && ToInstant(landing) == ToInstant(c) + 32 * DAY
  {
    MonthsAbut(c.year, c.month);
  }

  /** So moving it to day 1 gives the first of the next month. */
  lemma FirstPlus32Days(c: Civil)
    requires Valid(c) && c.day == 1 && c.micros == 0
    ensures 0 <= ToInstant(c) && Valid(FirstOfNextMonth(c))
    ensures FromInstant(ToInstant(c) + 32 * DAY).(day := 1) == FirstOfNextMonth(c)
  {
    ThirtyTwoDaysOn(c);
    InstantIsNat(c);
    CivilRoundTrip(FirstOfNextMonth(c).(day := 33 - DaysInMonth(c.year, c.month)));
  }

  lemma EndOfMonthFrom(first: Civil)
    requires Valid(first) && first.day == 1 && first.micros == 0
    ensures var next := FirstOfNextMonth(first);
            Valid(next) && 0 <= ToInstant(first) && 0 <= ToInstant(next) && FromInstant(ToInstant(next)) == next
            && ToInstant(FromInstant(ToInstant(first) + 32 * DAY).(day := 1)) == ToInstant(next)
  {
    FirstPlus32Days(first);
    CivilRoundTrip(FirstOfNextMonth(first));
  }

  lemma MonthlyEnd(t: nat, first: Civil)
    requires first == FromInstant(t).(day := 1, micros := 0)
    ensures Valid(first) && 0 <= ToInstant(first)
    ensures PeriodEnd(Monthly, t) == ToInstant(FromInstant(ToInstant(first) + 32 * DAY).(day := 1))
    ensures FirstOfNextMonth(FromInstant(t)) == FirstOfNextMonth(first)
  {
    InstantIsNat(first);
  }

  lemma MonthEndIs(t: nat)
    ensures var next := FirstOfNextMonth(FromInstant(t));
            Valid(next) && PeriodEnd(Monthly, t) == ToInstant(next) && 0 <= PeriodEnd(Monthly, t) &&
            FromInstant(PeriodEnd(Monthly, t)) == next
  {
    var first := FromInstant(t).(day := 1, micros := 0);
    MonthlyEnd(t, first);
    EndOfMonthFrom(first);
  }

  /** Every instant lies in its own period. */
  lemma PeriodContains(tier: Tier, now: nat)
    requires tier != Grand
    ensures PeriodStart(tier, now) <= now < PeriodEnd(tier, now)
  {
    match tier
    case Daily => StartOfDayIs(now);
    case Weekly => StartOfWeekIs(now);
    case Monthly =>
      StartOfMonthIs(now);
      MonthEndIs(now);
      var c := FromInstant(now);
      MonthsAbut(c.year, c.month);
  }

  /** Two instants get the same key exactly when they share the UTC day, the
      Monday-based week or the calendar month. */
  lemma KeyIffSamePeriod(tier: Tier, a: nat, b: nat)
    ensures PeriodStart(tier, a) == PeriodStart(tier, b) <==> SamePeriod(tier, a, b)
  {
    match tier
    case Daily => StartOfDayIs(a); StartOfDayIs(b);
    case Grand => StartOfDayIs(a); StartOfDayIs(b);
    case Weekly =>
      StartOfWeekIs(a); StartOfWeekIs(b);
      var m, n := a / DAY, b / DAY;
      assert m - m % 7 == 7 * (m / 7) && n - n % 7 == 7 * (n / 7);
    case Monthly =>
      StartOfMonthIs(a); StartOfMonthIs(b);
  }

  lemma MondayStartsItsWeek(k: nat)
    requires k % 7 == 0
    ensures StartOfWeek(k * DAY) == k * DAY
  {
    StartOfWeekIs(k * DAY);
    DivModUnique(k, 0);
  }

  lemma WeeksTile(now: nat)
    ensures StartOfWeek(StartOfWeek(now) + 7 * DAY) == StartOfWeek(now) + 7 * DAY
  {
    StartOfWeekIs(now);
    var k := now / DAY - Weekday(now) + 7;
    assert k % 7 == 0 && StartOfWeek(now) + 7 * DAY == k * DAY;
    MondayStartsItsWeek(k);
  }

  lemma DaysTile(now: nat)
    ensures StartOfDay(StartOfDay(now) + DAY) == StartOfDay(now) + DAY
  {
    StartOfDayIs(now);
    StartOfDayIs(StartOfDay(now) + DAY);
  }

  lemma MonthsTile(now: nat)
    ensures 0 <= PeriodEnd(Monthly, now) && StartOfMonth(PeriodEnd(Monthly, now)) == PeriodEnd(Monthly, now)
  {
    MonthEndIs(now);
    StartOfMonthIs(PeriodEnd(Monthly, now));
  }

  /** A period ends where the next one starts: no gap and no overlap. */
  lemma PeriodsTile(tier: Tier, now: nat)
    requires tier != Grand
    ensures 0 <= PeriodEnd(tier, now)
    ensures PeriodStart(tier, PeriodEnd(tier, now)) == PeriodEnd(tier, now)
  {
    match tier
    case Daily => DaysTile(now);
    case Weekly => WeeksTile(now);
    case Monthly => MonthsTile(now);
  }

  /** A period start is the earliest instant of its own day, week or month, a
      grand win's of its day. */
  lemma PeriodStartIsEarliest(tier: Tier, now: nat)
    ensures PeriodStart(tier, now) <= now && SamePeriod(tier, PeriodStart(tier, now), now)
    ensures forall t: nat :: SamePeriod(tier, t, now) ==> PeriodStart(tier, now) <= t
  {
    forall t: nat | SamePeriod(tier, t, now) ensures PeriodStart(tier, now) == PeriodStart(tier, t) <= t {
      KeyIffSamePeriod(tier, t, now);
      StartsBefore(tier, t);
    }
    StartsBefore(tier, now);
    StartIsInPeriod(tier, now);
  }

  lemma MidnightIs(n: nat)
    ensures FromInstant(n * DAY).micros == 0 && Weekday(n * DAY) == n % 7
  {
    DivModUnique(n, 0);
  }

  lemma DayStartIs(now: nat)
    ensures FromInstant(StartOfDay(now)).micros == 0 && StartOfDay(now) <= now < StartOfDay(now) + DAY
  {
    StartOfDayIs(now);
    MidnightIs(now / DAY);
  }

  lemma MondayOf(n: nat, micros: nat)
    requires micros < DAY
    ensures 0 <= n - n % 7 && (n - n % 7) % 7 == 0
    ensures (n - n % 7) * DAY <= n * DAY + micros < (n - n % 7) * DAY + 7 * DAY
  {
  }

  lemma WeekStartIs(now: nat)
    ensures FromInstant(StartOfWeek(now)).micros == 0 && StartOfWeek(now) <= now < StartOfWeek(now) + 7 * DAY
    ensures Weekday(StartOfWeek(now)) == 0
  {
    StartOfWeekIs(now);
    MondayOf(now / DAY, now % DAY);
    MidnightIs(now / DAY - Weekday(now));
  }

  /** The same in calendar terms: a midnight at most a day before, the midnight
      of a Monday at most a week before, or the midnight of day 1. */
  lemma PeriodStartIs(tier: Tier, now: nat)
    ensures var start := PeriodStart(tier, now);
            && FromInstant(start).micros == 0
            && (tier == Daily || tier == Grand ==> start <= now < start + DAY)
            && (tier == Weekly ==> start <= now < start + 7 * DAY && Weekday(start) == 0)
            && (tier == Monthly ==> FromInstant(start) == FromInstant(now).(day := 1, micros := 0))
  {
    match tier
    case Daily => DayStartIs(now);
    case Grand => DayStartIs(now);
    case Weekly => WeekStartIs(now);
    case Monthly => StartOfMonthIs(now);
  }

  /** A day or a week ends as long after its start; a month at the midnight of
      day 1 of the next; a grand win's period at the same time of day as the win,
      365 days on. */
  lemma PeriodEndIs(tier: Tier, now: nat)
    ensures var end := PeriodEnd(tier, now);
            && (tier == Daily ==> end == PeriodStart(tier, now) + 86_400_000_000)
            && (tier == Weekly ==> end == PeriodStart(tier, now) + 604_800_000_000)
            && (tier == Monthly ==> 0 <= end && FromInstant(end) == FirstOfNextMonth(FromInstant(now)))
            && (tier == Grand ==> end % DAY == now % DAY && end / DAY == now / DAY + 365)
  {
    if tier == Monthly {
      MonthEndIs(now);
    } else if tier == Grand {
      DivModUnique(now / DAY + 365, now % DAY);
      assert now + 365 * DAY == (now / DAY + 365) * DAY + now % DAY;
    }
  }

  /** Weekdays, counted from Monday, follow the date by a congruence. */
  lemma WeekdayIs(c: Civil)
    requires Valid(c) && 0 <= ToInstant(c)
    ensures var y, m := if c.month <= 2 then c.year - 1 else c.year, if c.month <= 2 then c.month + 9 else c.month - 3;
            Weekday(ToInstant(c)) == (y + y / 4 - y / 100 + y / 400 + (153 * m + 2) / 5 + c.day + 1) % 7
  {
    var y, m := if c.month <= 2 then c.year - 1 else c.year, if c.month <= 2 then c.month + 9 else c.month - 3;
    var rest := y / 4 - y / 100 + y / 400 + (153 * m + 2) / 5 + c.day;
    DayNumberIs(c);
    DivModUnique(365 * y + rest - 307, c.micros);
    SevensCancel(y, rest);
  }

  lemma SevensCancel(y: int, rest: int)
    ensures (365 * y + rest - 307) % 7 == (y + rest + 1) % 7
  {
    assert 365 * y + rest - 307 == (y + rest + 1) + 7 * (52 * y - 44);
  }

  lemma StartsBefore(tier: Tier, t: nat)
    ensures PeriodStart(tier, t) <= t
  {
    if tier == Grand {
      StartOfDayIs(t);
    } else {
      PeriodContains(tier, t);
    }
  }

  lemma StartIsInPeriod(tier: Tier, now: nat)
    ensures SamePeriod(tier, PeriodStart(tier, now), now)
  {
    match tier
    case Daily => StartOfDayIs(now);
    case Grand => StartOfDayIs(now);
    case Weekly => StartOfWeekIs(now);
    case Monthly => StartOfMonthIs(now);
  }

  /** Different periods do not overlap: the earlier one is over before the
      later one starts. */
  lemma PeriodsAreOrdered(tier: Tier, a: nat, b: nat)
    requires tier != Grand && a <= b && !SamePeriod(tier, a, b)
    ensures PeriodEnd(tier, a) <= PeriodStart(tier, b)
  {
    match tier
    case Daily => StartOfDayIs(a); StartOfDayIs(b);
    case Weekly =>
      StartOfWeekIs(a); StartOfWeekIs(b);
      var m, n := a / DAY, b / DAY;
      assert m - m % 7 == 7 * (m / 7) && n - n % 7 == 7 * (n / 7) && m / 7 + 1 <= n / 7;
    case Monthly =>
      MonthEndIs(a); StartOfMonthIs(b);
      MonthsAreOrdered(a, b);
  }

  lemma MonthsAreOrdered(a: nat, b: nat)
    requires a <= b && !SamePeriod(Monthly, a, b)
    ensures ToInstant(FirstOfNextMonth(FromInstant(a))) <= StartOfMonth(b)
  {
    var c, d := FromInstant(a), FromInstant(b);
    MonthsAbut(c.year, c.month);
    StartOfMonthIs(b);
    if MonthBefore(d.year, d.month, c.year, c.month) {
      LaterMonthsStartLater(d.year, d.month, c.year, c.month);
    } else {
      LaterMonthsStartLater(c.year, c.month, d.year, d.month);
    }
  }

  /** A day, and a week, is too short for two instants of it to lie more than
      thirty days apart. */
  lemma ShortPeriods(tier: Tier, a: nat, b: nat)
    requires tier == Daily || tier == Weekly
    requires a <= b && SamePeriod(tier, a, b)
    ensures b - a < (if tier == Daily then DAY else 7 * DAY)
  {
    var m, n := a / DAY, b / DAY;
    assert a == m * DAY + a % DAY && b == n * DAY + b % DAY;
    assert tier == Weekly ==> n - m <= 6;
  }

  /** Two instants of one month lie more than thirty days apart only across
      the whole of a 31-day month: the first on day 1, the second on day 31. */
  lemma MonthSpan(a: nat, b: nat)
    requires a <= b && SamePeriod(Monthly, a, b) && b - a > 30 * DAY
    ensures var c, d := FromInstant(a), FromInstant(b);
            c.day == 1 && d.day == 31 && DaysInMonth(c.year, c.month) == 31 && c.micros < d.micros
  {
    var c, d := FromInstant(a), FromInstant(b);
    assert b - a == (d.day - c.day) * DAY + d.micros - c.micros;
    assert d.day - c.day >= 30;
  }
}
