/** Awards, which are passing checks, against the wins that get recorded: when an
    award leaves no row, and what that does to the cap. */
module WinAwards {
  import opened Calendar
  import opened Options
  import opened WinPeriods
  import opened WinLedger

  // ---- The rolling window against the calendar key ----

  /** An award that record_win did not insert a row for: the check passed, but
      an earlier win of the user already holds the period. */
  predicate Silent(rows: seq<Row>, a: Attempt) {
    Passes(rows, a) && KeyTaken(rows, a)
  }

  lemma WinInsideTheWindowCounts(rows: seq<Row>, user: nat, tier: Tier, from: int, i: int)
    requires 0 <= i < |rows| && rows[i].user == user && rows[i].tier == tier && from <= rows[i].wonAt
    ensures 1 <= WinsSince(rows, user, tier, from)
  {
  }

  lemma NoWinInsideTheWindow(rows: seq<Row>, user: nat, tier: Tier, from: int)
    requires forall i :: 0 <= i < |rows| && rows[i].user == user && rows[i].tier == tier ==> rows[i].wonAt < from
    ensures WinsSince(rows, user, tier, from) == 0
  {
  }

  ghost predicate WonThisPeriod(r: Row, a: Attempt) {
    r.user == a.user && r.tier == a.tier && SamePeriod(a.tier, r.wonAt, a.now)
  }

  /** The key is taken exactly when the user won this tier in this period. */
  lemma KeyTakenIff(rows: seq<Row>, a: Attempt)
    requires WellKeyed(rows, a.now)
    ensures KeyTaken(rows, a) <==> exists i :: 0 <= i < |rows| && WonThisPeriod(rows[i], a)
  {
    forall i | 0 <= i < |rows| && rows[i].tier == a.tier
      ensures rows[i].periodStart == PeriodStart(a.tier, a.now) <==> SamePeriod(a.tier, rows[i].wonAt, a.now)
    {
      KeyIffSamePeriod(a.tier, rows[i].wonAt, a.now);
    }
  }

  lemma RecentDailyBlocks(rows: seq<Row>, a: Attempt, i: int)
    requires 0 <= i < |rows| && rows[i].user == a.user && rows[i].tier == a.tier == Daily
    requires Cooldown(a.ctx) >= 1 && rows[i].wonAt > a.now - DAY
    ensures !Passes(rows, a)
  {
    LatestDailyIsLatest(rows, a.user, i);
    assert Cooldown(a.ctx) * DAY >= DAY;
  }

  lemma RecentWinBlocks(rows: seq<Row>, a: Attempt, i: int)
    requires 0 <= i < |rows| && rows[i].user == a.user && rows[i].tier == a.tier != Grand
    requires Limit(a.tier, a.ctx) <= 1 && rows[i].wonAt >= a.now - WINDOW
    ensures !Passes(rows, a)
  {
    WinInsideTheWindowCounts(rows, a.user, a.tier, a.now - WINDOW, i);
  }

  /** A daily or weekly award under a cap of one, and a daily award under a
      cooldown of a day or more with any cap, always inserts its row. */
  lemma DailyAndWeeklyAwardsAreRecorded(rows: seq<Row>, a: Attempt)
    requires WellKeyed(rows, a.now) && Passes(rows, a)
    requires a.tier == Daily || a.tier == Weekly
    requires Limit(a.tier, a.ctx) <= 1 || (a.tier == Daily && Cooldown(a.ctx) >= 1)
    ensures !KeyTaken(rows, a)
  {
    KeyTakenIff(rows, a);
    if i :| 0 <= i < |rows| && WonThisPeriod(rows[i], a) {
      ShortPeriods(a.tier, rows[i].wonAt, a.now);
      if Limit(a.tier, a.ctx) <= 1 {
        RecentWinBlocks(rows, a, i);
      } else {
        RecentDailyBlocks(rows, a, i);
      }
      assert false;
    }
  }

  /** What a caller can look for before a monthly award: a win of this month
      that has already left the thirty-day window. */
  ghost predicate MonthOutlivesWindow(rows: seq<Row>, a: Attempt) {
    exists i :: 0 <= i < |rows| && AgedOutThisMonth(rows[i], a)
  }

  ghost predicate AgedOutThisMonth(r: Row, a: Attempt) {
    r.user == a.user && r.tier == Monthly && r.wonAt <= a.now && SamePeriod(Monthly, r.wonAt, a.now) && a.now - r.wonAt > WINDOW
  }

  lemma SilentMonthlyIsOutlived(rows: seq<Row>, a: Attempt)
    requires WellKeyed(rows, a.now) && a.tier == Monthly && Limit(Monthly, a.ctx) <= 1 && Silent(rows, a)
    ensures MonthOutlivesWindow(rows, a)
  {
    KeyTakenIff(rows, a);
    var i :| 0 <= i < |rows| && WonThisPeriod(rows[i], a);
    if a.now - rows[i].wonAt <= WINDOW {
      RecentWinBlocks(rows, a, i);
    }
    assert AgedOutThisMonth(rows[i], a);
  }

  lemma OutlivedMonthlyPasses(rows: seq<Row>, a: Attempt, i: int)
    requires WellKeyed(rows, a.now) && UniqueTogether(rows) && a.tier == Monthly && 1 <= Limit(Monthly, a.ctx)
    requires 0 <= i < |rows| && AgedOutThisMonth(rows[i], a)
    ensures Passes(rows, a)
  {
    forall j | 0 <= j < |rows| && rows[j].user == a.user && rows[j].tier == Monthly
      ensures rows[j].wonAt < a.now - WINDOW
    {
      WinsAreOldOnDay31(rows, a, i, j);
    }
    NoWinInsideTheWindow(rows, a.user, Monthly, a.now - WINDOW);
    PassesWithoutRecentWins(rows, a);
  }

  /** Under a cap of one, a monthly award goes unrecorded exactly when such a
      win exists. */
  lemma MonthlySilentIff(rows: seq<Row>, a: Attempt)
    requires WellKeyed(rows, a.now) && UniqueTogether(rows)
    requires a.tier == Monthly && Limit(Monthly, a.ctx) == 1
    ensures Silent(rows, a) <==> MonthOutlivesWindow(rows, a)
  {
    if Silent(rows, a) {
      SilentMonthlyIsOutlived(rows, a);
    } else if i :| 0 <= i < |rows| && AgedOutThisMonth(rows[i], a) {
      OutlivedMonthlyPasses(rows, a, i);
      KeyTakenIff(rows, a);
      assert WonThisPeriod(rows[i], a);
      assert false;
    }
  }

  lemma PassesWithoutRecentWins(rows: seq<Row>, a: Attempt)
    requires a.tier == Weekly || a.tier == Monthly
    requires WinsSince(rows, a.user, a.tier, a.now - WINDOW) < Limit(a.tier, a.ctx)
    ensures Passes(rows, a)
  {
  }

  /** The aged-out win was on day 1 and now is day 31, so no other win of the
      month exists and every win of an earlier month is older still. */
  lemma WinsAreOldOnDay31(rows: seq<Row>, a: Attempt, i: int, j: int)
    requires WellKeyed(rows, a.now) && UniqueTogether(rows) && a.tier == Monthly
    requires 0 <= i < |rows| && AgedOutThisMonth(rows[i], a)
    requires 0 <= j < |rows| && rows[j].user == a.user && rows[j].tier == Monthly
    ensures rows[j].wonAt < a.now - WINDOW
  {
    KeyIffSamePeriod(Monthly, rows[i].wonAt, a.now);
    if j > i {
      if SamePeriod(Monthly, rows[j].wonAt, a.now) {
        KeyIffSamePeriod(Monthly, rows[j].wonAt, a.now);
        assert false;
      } else {
        MonthIsAnInterval(rows[i].wonAt, rows[j].wonAt, a.now);
      }
    }
  }

  lemma MonthIsAnInterval(s: nat, t: nat, u: nat)
    requires s <= t <= u && SamePeriod(Monthly, s, u)
    ensures SamePeriod(Monthly, t, u)
  {
    StartOfMonthIs(u);
    var c := FromInstant(u);
    var n := t / DAY;
    assert s / DAY <= n <= u / DAY;
    assert FirstDay(c.year, c.month) <= s / DAY && u / DAY < FirstDay(c.year, c.month) + DaysInMonth(c.year, c.month);
    var d := FromInstant(t);
    OneMonthPerDay(n, c.year, c.month, d.year, d.month);
  }

  /** The same condition in calendar terms: a win on day 1, now on day 31. */
  lemma MonthOutlivesWindowOnDay31(rows: seq<Row>, a: Attempt)
    requires a.tier == Monthly && MonthOutlivesWindow(rows, a)
    ensures FromInstant(a.now).day == 31
    ensures exists i :: 0 <= i < |rows| && AgedOutThisMonth(rows[i], a) && FromInstant(rows[i].wonAt).day == 1
  {
    var i :| 0 <= i < |rows| && AgedOutThisMonth(rows[i], a);
    MonthSpan(rows[i].wonAt, a.now);
  }

  // ---- Awards over whole runs ----

  /** The attempts a count is about. */
  datatype Selection = Interval(user: nat, tier: Tier, lo: int, hi: int) | GrandOf(user: nat, campaign: nat)

  predicate Selects(sel: Selection, a: Attempt) {
    match sel
    case Interval(user, tier, lo, hi) => a.user == user && a.tier == tier && lo <= a.now <= hi
    case GrandOf(user, campaign) => a.user == user && a.tier == Grand && CampaignOf(a.ctx) == Some(campaign)
  }

  /** Passing checks of a run. */
  function Awards(run: seq<Attempt>, sel: Selection): nat {
    if run == [] then 0
    else
      var before, a := run[..|run| - 1], run[|run| - 1];
      Awards(before, sel) + (if Selects(sel, a) && Passes(Run(before), a) then 1 else 0)
  }

  /** Passing checks of one user and tier inside a closed interval. */
  function AwardsBetween(run: seq<Attempt>, user: nat, tier: Tier, lo: int, hi: int): nat {
    Awards(run, Interval(user, tier, lo, hi))
  }

  predicate AwardAt(run: seq<Attempt>, i: int, sel: Selection)
    requires 0 <= i < |run|
  {
    Selects(sel, run[i]) && Passes(Run(run[..i]), run[i])
  }

  lemma RunStep(run: seq<Attempt>, i: int)
    requires 0 <= i < |run|
    ensures Run(run[..i + 1]) == Step(Run(run[..i]), run[i])
  {
    assert run[..i + 1][..i] == run[..i];
  }

  ghost function AwardSet(run: seq<Attempt>, sel: Selection): set<int> {
    set i | 0 <= i < |run| && AwardAt(run, i, sel)
  }

  lemma AwardAtPrefix(run: seq<Attempt>, k: int, i: int, sel: Selection)
    requires 0 <= i < k <= |run|
    ensures AwardAt(run[..k], i, sel) <==> AwardAt(run, i, sel)
  {
    assert run[..k][..i] == run[..i];
  }

  lemma {:induction false} AwardsCount(run: seq<Attempt>, sel: Selection)
    ensures Awards(run, sel) == |AwardSet(run, sel)|
  {
    if run != [] {
      var k := |run| - 1;
      AwardsCount(run[..k], sel);
      forall i | 0 <= i < k ensures i in AwardSet(run, sel) <==> i in AwardSet(run[..k], sel) {
        AwardAtPrefix(run, k, i, sel);
      }
      WithoutLast(AwardSet(run, sel), AwardSet(run[..k], sel), k);
    }
  }

  lemma TwoMembers<T>(s: set<T>)
    ensures |s| >= 2 <==> exists i, j :: i in s && j in s && i != j
  {
    if |s| >= 2 {
      var i :| i in s;
      assert |s - {i}| >= 1;
      var j :| j in s - {i};
    }
    forall i, j | i in s && j in s && i != j ensures |s| >= 2 {
      assert |s - {i} - {j}| == |s| - 2;
    }
  }

  ghost predicate TwoAwards(run: seq<Attempt>, sel: Selection, i: int, j: int) {
    0 <= i < j < |run| && AwardAt(run, i, sel) && AwardAt(run, j, sel)
  }

  /** More than one award is two of them. */
  lemma SeveralAwardsIff(run: seq<Attempt>, sel: Selection)
    ensures Awards(run, sel) >= 2 <==> exists i, j :: TwoAwards(run, sel, i, j)
  {
    var s := AwardSet(run, sel);
    AwardsCount(run, sel);
    TwoMembers(s);
    if i, j :| i in s && j in s && i != j {
      assert TwoAwards(run, sel, i, j) || TwoAwards(run, sel, j, i);
    }
    if i, j :| TwoAwards(run, sel, i, j) {
      assert i in s && j in s;
    }
  }

  /** Rows, once inserted, stay. */
  lemma {:induction false} RowsStay(run: seq<Attempt>, i: int)
    requires 0 <= i <= |run|
    ensures Run(run[..i]) <= Run(run)
  {
    if i == |run| {
      assert run[..i] == run;
    } else {
      var before := run[..|run| - 1];
      RowsStay(before, i);
      assert before[..i] == run[..i];
      StepShape(Run(before), run[|run| - 1]);
    }
  }

  function SilentBetween(run: seq<Attempt>, user: nat, tier: Tier, lo: int, hi: int): nat {
    if run == [] then 0
    else
      var before, a := run[..|run| - 1], run[|run| - 1];
      SilentBetween(before, user, tier, lo, hi) +
      (if a.user == user && a.tier == tier && lo <= a.now <= hi && Silent(Run(before), a) then 1 else 0)
  }

  /** Every award is either a recorded win or a silent one. */
  lemma {:induction false} AwardsAreWinsPlusSilent(run: seq<Attempt>, user: nat, tier: Tier, lo: int, hi: int)
    ensures AwardsBetween(run, user, tier, lo, hi)
         == WinsBetween(Run(run), user, tier, lo, hi) + SilentBetween(run, user, tier, lo, hi)
  {
    if run != [] {
      var before, a := run[..|run| - 1], run[|run| - 1];
      AwardsAreWinsPlusSilent(before, user, tier, lo, hi);
      StepShape(Run(before), a);
      WinsBetweenAppend(Run(before), NewRow(a.user, a.tier, a.ctx, a.now), user, tier, lo, hi);
    }
  }

  /** The cap on awards: at most L, and the silent ones on top. */
  lemma AwardCap(run: seq<Attempt>, user: nat, tier: Tier, L: nat, lo: int, hi: int)
    requires Chronological(run) && tier != Grand && CappedAt(run, user, tier, L) && hi - lo <= WINDOW
    ensures AwardsBetween(run, user, tier, lo, hi) <= L + SilentBetween(run, user, tier, lo, hi)
  {
    AwardsAreWinsPlusSilent(run, user, tier, lo, hi);
    RollingCap(run, user, tier, L, lo, hi);
  }

  ghost predicate NeverSilent(run: seq<Attempt>, user: nat, tier: Tier) {
    forall i :: 0 <= i < |run| && run[i].user == user && run[i].tier == tier ==> !Silent(Run(run[..i]), run[i])
  }

  lemma {:induction false} NoSilentAwards(run: seq<Attempt>, user: nat, tier: Tier, lo: int, hi: int)
    requires NeverSilent(run, user, tier)
    ensures SilentBetween(run, user, tier, lo, hi) == 0
  {
    if run != [] {
      var before := run[..|run| - 1];
      assert forall i :: 0 <= i < |before| ==> before[..i] == run[..i];
      NoSilentAwards(before, user, tier, lo, hi);
    }
  }

  lemma PrefixIsWellKeyed(run: seq<Attempt>, i: int)
    requires Chronological(run) && 0 <= i < |run|
    ensures WellKeyed(Run(run[..i]), run[i].now) && UniqueTogether(Run(run[..i]))
  {
    RunIsWellKeyed(run[..i], run[i].now);
  }

  // ---- Daily and weekly awards ----

  /** A daily or weekly tier is spaced by its cap or by a cooldown. */
  predicate SpacedOut(tier: Tier, ctx: Context) {
    (tier == Daily || tier == Weekly) && (Limit(tier, ctx) <= 1 || (tier == Daily && Cooldown(ctx) >= 1))
  }

  ghost predicate AllSpacedOut(run: seq<Attempt>, user: nat, tier: Tier) {
    forall i :: 0 <= i < |run| && run[i].user == user && run[i].tier == tier ==> SpacedOut(tier, run[i].ctx)
  }

  lemma SpacedOutIsRecorded(run: seq<Attempt>, user: nat, tier: Tier)
    requires Chronological(run) && AllSpacedOut(run, user, tier)
    ensures NeverSilent(run, user, tier)
  {
    forall i | 0 <= i < |run| && run[i].user == user && run[i].tier == tier
      ensures !Silent(Run(run[..i]), run[i])
    {
      PrefixIsWellKeyed(run, i);
      if Passes(Run(run[..i]), run[i]) {
        DailyAndWeeklyAwardsAreRecorded(Run(run[..i]), run[i]);
      }
    }
  }

  /** Where daily or weekly awards are spaced by a cap of one or, for daily ones,
      by a cooldown, they keep a cap of any size. */
  lemma SpacedOutAwardCap(run: seq<Attempt>, user: nat, tier: Tier, L: nat, lo: int, hi: int)
    requires Chronological(run) && AllSpacedOut(run, user, tier) && tier != Grand
    requires CappedAt(run, user, tier, L) && hi - lo <= WINDOW
    ensures AwardsBetween(run, user, tier, lo, hi) <= L
  {
    SpacedOutIsRecorded(run, user, tier);
    NoSilentAwards(run, user, tier, lo, hi);
    AwardCap(run, user, tier, L, lo, hi);
  }

  // ---- Monthly awards ----

  ghost predicate MonthlyCapOne(run: seq<Attempt>, user: nat) {
    forall i :: 0 <= i < |run| && run[i].user == user && run[i].tier == Monthly ==> Limit(Monthly, run[i].ctx) == 1
  }

  ghost predicate NeverOutlived(run: seq<Attempt>, user: nat) {
    forall i :: 0 <= i < |run| && run[i].user == user && run[i].tier == Monthly ==> !MonthOutlivesWindow(Run(run[..i]), run[i])
  }

  lemma SilentIffOutlived(run: seq<Attempt>, user: nat, i: int)
    requires Chronological(run) && MonthlyCapOne(run, user)
    requires 0 <= i < |run| && run[i].user == user && run[i].tier == Monthly
    ensures Silent(Run(run[..i]), run[i]) <==> MonthOutlivesWindow(Run(run[..i]), run[i])
  {
    PrefixIsWellKeyed(run, i);
    MonthlySilentIff(Run(run[..i]), run[i]);
  }

  /** Monthly awards under a cap of one are all recorded exactly when no
      attempt meets a win of its month that has left the window. */
  lemma MonthlyRecordedIff(run: seq<Attempt>, user: nat)
    requires Chronological(run) && MonthlyCapOne(run, user)
    ensures NeverSilent(run, user, Monthly) <==> NeverOutlived(run, user)
  {
    forall i | 0 <= i < |run| && run[i].user == user && run[i].tier == Monthly
      ensures Silent(Run(run[..i]), run[i]) <==> MonthOutlivesWindow(Run(run[..i]), run[i])
    {
      SilentIffOutlived(run, user, i);
    }
  }

  /** No monthly attempt that meets such a win is followed by another one within
      thirty days. */
  ghost predicate NoneFollowsOutlived(run: seq<Attempt>, user: nat) {
    forall i, j :: 0 <= i < j < |run| && run[i].user == run[j].user == user && run[i].tier == run[j].tier == Monthly
        ==> !(MonthOutlivesWindow(Run(run[..i]), run[i]) && run[j].now - run[i].now <= WINDOW)
  }

  ghost predicate OneMonthlyAward(run: seq<Attempt>, user: nat) {
    forall lo, hi :: hi - lo <= WINDOW ==> AwardsBetween(run, user, Monthly, lo, hi) <= 1
  }

  /** The first monthly attempt of the user after i, up to j. */
  lemma {:induction false} NextMonthly(run: seq<Attempt>, user: nat, i: int, j: int) returns (k: int)
    requires 0 <= i < j < |run| && run[j].user == user && run[j].tier == Monthly
    ensures i < k <= j && run[k].user == user && run[k].tier == Monthly
    ensures forall m :: i < m < k ==> !(run[m].user == user && run[m].tier == Monthly)
    decreases j
  {
    if m :| i < m < j && run[m].user == user && run[m].tier == Monthly {
      k := NextMonthly(run, user, i, m);
    } else {
      k := j;
    }
  }

  ghost predicate MonthlyWinsBefore(rows: seq<Row>, user: nat, t: int) {
    forall r :: r in rows && r.user == user && r.tier == Monthly ==> r.wonAt < t
  }

  lemma StepKeepsMonthlyWins(rows: seq<Row>, a: Attempt, user: nat, t: int)
    requires MonthlyWinsBefore(rows, user, t)
    requires Silent(rows, a) || !(a.user == user && a.tier == Monthly)
    ensures MonthlyWinsBefore(Step(rows, a), user, t)
  {
    StepShape(rows, a);
  }

  /** After a silent attempt the user's monthly wins stay as they are until the
      next one. */
  lemma {:induction false} QuietAfterSilent(run: seq<Attempt>, user: nat, i: int, k: int, t: int)
    requires 0 <= i < k <= |run| && Silent(Run(run[..i]), run[i]) && MonthlyWinsBefore(Run(run[..i]), user, t)
    requires forall m :: i < m < k ==> !(run[m].user == user && run[m].tier == Monthly)
    ensures MonthlyWinsBefore(Run(run[..k]), user, t)
    decreases k
  {
    if k > i + 1 {
      QuietAfterSilent(run, user, i, k - 1, t);
    }
    StepKeepsMonthlyWins(Run(run[..k - 1]), run[k - 1], user, t);
    RunStep(run, k - 1);
  }

  lemma OutlivedWinsAreOld(run: seq<Attempt>, user: nat, i: int)
    requires Chronological(run) && 0 <= i < |run| && run[i].user == user && run[i].tier == Monthly
    requires MonthOutlivesWindow(Run(run[..i]), run[i])
    ensures MonthlyWinsBefore(Run(run[..i]), user, run[i].now - WINDOW)
  {
    PrefixIsWellKeyed(run, i);
    var rows := Run(run[..i]);
    var w :| 0 <= w < |rows| && AgedOutThisMonth(rows[w], run[i]);
    forall j | 0 <= j < |rows| && rows[j].user == user && rows[j].tier == Monthly
      ensures rows[j].wonAt < run[i].now - WINDOW
    {
      WinsAreOldOnDay31(rows, run[i], w, j);
    }
  }

  lemma OldWinsPass(rows: seq<Row>, a: Attempt, t: int)
    requires a.tier == Monthly && Limit(Monthly, a.ctx) >= 1 && MonthlyWinsBefore(rows, a.user, t) && t <= a.now - WINDOW
    ensures Passes(rows, a)
  {
    NoWinInsideTheWindow(rows, a.user, Monthly, a.now - WINDOW);
    PassesWithoutRecentWins(rows, a);
  }

  lemma TwoAwardsBreakTheCap(run: seq<Attempt>, user: nat, i: int, k: int)
    requires 0 <= i < k < |run| && run[k].now - run[i].now <= WINDOW
    requires TwoAwards(run, Interval(user, Monthly, run[i].now, run[k].now), i, k)
    ensures !OneMonthlyAward(run, user)
  {
    SeveralAwardsIff(run, Interval(user, Monthly, run[i].now, run[k].now));
    assert AwardsBetween(run, user, Monthly, run[i].now, run[k].now) >= 2;
  }

  /** An outlived attempt and the next one both pass. */
  lemma OutlivedThenAnother(run: seq<Attempt>, user: nat, i: int, j: int)
    requires Chronological(run) && MonthlyCapOne(run, user)
    requires 0 <= i < j < |run| && run[i].user == run[j].user == user && run[i].tier == run[j].tier == Monthly
    requires MonthOutlivesWindow(Run(run[..i]), run[i]) && run[j].now - run[i].now <= WINDOW
    ensures !OneMonthlyAward(run, user)
  {
    var k := NextMonthly(run, user, i, j);
    SilentIffOutlived(run, user, i);
    OutlivedWinsAreOld(run, user, i);
    QuietAfterSilent(run, user, i, k, run[i].now - WINDOW);
    OldWinsPass(Run(run[..k]), run[k], run[i].now - WINDOW);
    TwoAwardsBreakTheCap(run, user, i, k);
  }

  /** A recorded award leaves a row that later attempts see. */
  lemma RecordedRowIsSeen(run: seq<Attempt>, i: int, j: int)
    requires 0 <= i < j < |run| && Passes(Run(run[..i]), run[i]) && !KeyTaken(Run(run[..i]), run[i])
    ensures NewRow(run[i].user, run[i].tier, run[i].ctx, run[i].now) in Run(run[..j])
  {
    RunStep(run, i);
    var row := NewRow(run[i].user, run[i].tier, run[i].ctx, run[i].now);
    StepShape(Run(run[..i]), run[i]);
    assert row in Run(run[..i + 1]) by { assert Run(run[..i + 1]) == Run(run[..i]) + [row]; }
    RowsStay(run[..j], i + 1);
    assert run[..j][..i + 1] == run[..i + 1];
  }

  /** Of two awards within thirty days, the first is outlived. */
  lemma TwoAwardsMeetOutlived(run: seq<Attempt>, user: nat, i: int, j: int)
    requires Chronological(run) && MonthlyCapOne(run, user)
    requires 0 <= i < j < |run| && run[i].user == run[j].user == user && run[i].tier == run[j].tier == Monthly
    requires Passes(Run(run[..i]), run[i]) && Passes(Run(run[..j]), run[j]) && run[j].now - run[i].now <= WINDOW
    ensures MonthOutlivesWindow(Run(run[..i]), run[i])
  {
    SilentIffOutlived(run, user, i);
    if !KeyTaken(Run(run[..i]), run[i]) {
      RecordedRowIsSeen(run, i, j);
      var rows := Run(run[..j]);
      var w :| 0 <= w < |rows| && rows[w] == NewRow(run[i].user, run[i].tier, run[i].ctx, run[i].now);
      RecentWinBlocks(rows, run[j], w);
    }
  }

  /** The cap of one monthly award in thirty days holds over a run exactly when no
      attempt that meets a win of its month, already out of the window, is
      followed by another within thirty days. */
  lemma MonthlyAwardCapIff(run: seq<Attempt>, user: nat)
    requires Chronological(run) && MonthlyCapOne(run, user)
    ensures OneMonthlyAward(run, user) <==> NoneFollowsOutlived(run, user)
  {
    if NoneFollowsOutlived(run, user) {
      forall lo, hi | hi - lo <= WINDOW ensures AwardsBetween(run, user, Monthly, lo, hi) <= 1 {
        if AwardsBetween(run, user, Monthly, lo, hi) > 1 {
          SeveralAwardsIff(run, Interval(user, Monthly, lo, hi));
          var i, j :| TwoAwards(run, Interval(user, Monthly, lo, hi), i, j);
          TwoAwardsMeetOutlived(run, user, i, j);
          assert false;
        }
      }
    } else {
      var i, j :| 0 <= i < j < |run| && run[i].user == run[j].user == user && run[i].tier == run[j].tier == Monthly
        && MonthOutlivesWindow(Run(run[..i]), run[i]) && run[j].now - run[i].now <= WINDOW;
      OutlivedThenAnother(run, user, i, j);
    }
  }

  // ---- Grand awards ----

  /** What a caller can look for before a grand award: the user holds a grand win
      of this day, in whatever campaign. */
  ghost predicate DayTaken(rows: seq<Row>, a: Attempt) {
    exists i :: 0 <= i < |rows| && WonThisPeriod(rows[i], a)
  }

  /** A grand award goes unrecorded exactly when the day is taken and the user's
      grand wins, in the campaign named or in any when none is, are fewer than
      the limit. */
  lemma GrandSilentIff(rows: seq<Row>, a: Attempt)
    requires WellKeyed(rows, a.now) && a.tier == Grand
    ensures Silent(rows, a) <==> DayTaken(rows, a) && |GrandWinsSet(rows, a.user, CampaignOf(a.ctx))| < Limit(Grand, a.ctx)
  {
    KeyTakenIff(rows, a);
    GrandVerdictIff(rows, a.user, a.ctx, a.now);
  }

  lemma GrandWinsAppend(rows: seq<Row>, row: Row, user: nat, campaign: Option<nat>)
    ensures GrandWins(rows + [row], user, campaign) == GrandWins(rows, user, campaign) +
            (if row.user == user && row.tier == Grand && (campaign == None || row.campaign == campaign) then 1 else 0)
  {
    assert (rows + [row])[..|rows|] == rows;
  }

  /** Attempts of a selection, passing or not. */
  function Attempts(run: seq<Attempt>, sel: Selection): nat {
    if run == [] then 0 else Attempts(run[..|run| - 1], sel) + (if Selects(sel, run[|run| - 1]) then 1 else 0)
  }

  /** Of the first L attempts of the campaign, those that meet a taken day. */
  function Swallowed(run: seq<Attempt>, user: nat, campaign: nat, L: nat): nat {
    if run == [] then 0
    else
      var before, a := run[..|run| - 1], run[|run| - 1];
      Swallowed(before, user, campaign, L) +
      (if Selects(GrandOf(user, campaign), a) && Attempts(before, GrandOf(user, campaign)) < L && KeyTaken(Run(before), a) then 1 else 0)
  }

  /** Every attempt of the user in the campaign runs under the cap L. */
  ghost predicate GrandCapIs(run: seq<Attempt>, user: nat, campaign: nat, L: nat) {
    forall i :: 0 <= i < |run| && Selects(GrandOf(user, campaign), run[i]) ==> Limit(Grand, run[i].ctx) == L
  }

  lemma GrandStep(rows: seq<Row>, a: Attempt, user: nat, campaign: nat, L: nat)
    requires Selects(GrandOf(user, campaign), a) ==> Limit(Grand, a.ctx) == L
    ensures var sel := GrandOf(user, campaign);
            && (Selects(sel, a) ==> (Passes(rows, a) <==> GrandWins(rows, user, Some(campaign)) < L))
            && GrandWins(Step(rows, a), user, Some(campaign)) == GrandWins(rows, user, Some(campaign)) +
                 (if Selects(sel, a) && Passes(rows, a) && !KeyTaken(rows, a) then 1 else 0)
  {
    StepShape(rows, a);
    if Step(rows, a) != rows {
      GrandWinsAppend(rows, NewRow(a.user, a.tier, a.ctx, a.now), user, Some(campaign));
    }
  }

  /** The first L attempts all pass, and record all but the swallowed ones; what
      comes after them passes as long as one was swallowed. */
  ghost predicate GrandTally(attempts: nat, awards: nat, wins: nat, swallowed: nat, L: nat) {
    && (attempts <= L ==> awards == attempts && wins + swallowed == attempts)
    && (L <= attempts && swallowed == 0 ==> awards == L && wins == L)
    && (L < attempts && 0 < swallowed ==> L < awards)
    && swallowed <= attempts && (0 < swallowed && L <= attempts ==> L <= awards)
  }

  lemma {:induction false} GrandRunTally(run: seq<Attempt>, user: nat, campaign: nat, L: nat)
    requires GrandCapIs(run, user, campaign, L)
    ensures var sel := GrandOf(user, campaign);
            GrandTally(Attempts(run, sel), Awards(run, sel), GrandWins(Run(run), user, Some(campaign)), Swallowed(run, user, campaign, L), L)
  {
    if run != [] {
      var before, a := run[..|run| - 1], run[|run| - 1];
      assert GrandCapIs(before, user, campaign, L);
      GrandRunTally(before, user, campaign, L);
      GrandStep(Run(before), a, user, campaign, L);
    }
  }

  /** None of the first L attempts of the campaign meets a taken day. */
  ghost predicate FirstDaysFree(run: seq<Attempt>, user: nat, campaign: nat, L: nat) {
    forall i :: 0 <= i < |run| && Selects(GrandOf(user, campaign), run[i]) && Attempts(run[..i], GrandOf(user, campaign)) < L
      ==> !DayTaken(Run(run[..i]), run[i])
  }

  lemma {:induction false} NoneSwallowedIff(run: seq<Attempt>, user: nat, campaign: nat, L: nat)
    requires Chronological(run)
    ensures Swallowed(run, user, campaign, L) == 0 <==> FirstDaysFree(run, user, campaign, L)
  {
    if run != [] {
      var k := |run| - 1;
      NoneSwallowedIff(run[..k], user, campaign, L);
      PrefixIsWellKeyed(run, k);
      KeyTakenIff(Run(run[..k]), run[k]);
      LastDayFree(run, user, campaign, L);
    }
  }

  lemma LastDayFree(run: seq<Attempt>, user: nat, campaign: nat, L: nat)
    requires run != []
    ensures var before, a := run[..|run| - 1], run[|run| - 1];
            FirstDaysFree(run, user, campaign, L) <==>
              && FirstDaysFree(before, user, campaign, L)
              && (Selects(GrandOf(user, campaign), a) && Attempts(before, GrandOf(user, campaign)) < L ==> !DayTaken(Run(before), a))
  {
    var before := run[..|run| - 1];
    forall i | 0 <= i < |before| ensures before[..i] == run[..i] {
    }
  }

  /** A run keeps its cap of L grand awards in a campaign exactly when it has no
      more attempts than that, or none of the first L meets a day on which the
      user already holds a grand win. */
  lemma GrandAwardCapIff(run: seq<Attempt>, user: nat, campaign: nat, L: nat)
    requires Chronological(run) && GrandCapIs(run, user, campaign, L)
    ensures Awards(run, GrandOf(user, campaign)) <= L
       <==> Attempts(run, GrandOf(user, campaign)) <= L || FirstDaysFree(run, user, campaign, L)
  {
    GrandRunTally(run, user, campaign, L);
    NoneSwallowedIff(run, user, campaign, L);
  }
}
