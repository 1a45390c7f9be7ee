/** Where the winner restriction is tight and where it fails: runs that reach
    the long-run bound, runs whose awards escape the cap because the calendar
    key swallows their row, and the per-campaign rule of grand wins. */
module WinSeams {
  import opened Calendar
  import opened Options
  import opened WinPeriods
  import opened WinLedger
  import opened WinAwards

  lemma LastStep(run: seq<Attempt>, a: Attempt)
    ensures Run(run + [a]) == Step(Run(run), a)
  {
    assert (run + [a])[..|run|] == run;
  }

  lemma LastAward(run: seq<Attempt>, a: Attempt, user: nat, tier: Tier, lo: int, hi: int)
    ensures AwardsBetween(run + [a], user, tier, lo, hi) == AwardsBetween(run, user, tier, lo, hi) +
            (if a.user == user && a.tier == tier && lo <= a.now <= hi && Passes(Run(run), a) then 1 else 0)
  {
    assert (run + [a])[..|run|] == run;
  }

  // ---- The monthly seam ----

  function At(y: int, m: int, d: int, micros: int): (t: nat)
    requires Valid(Civil(y, m, d, micros))
    ensures FromInstant(t) == Civil(y, m, d, micros)
  {
    CivilRoundTrip(Civil(y, m, d, micros));
    ToInstant(Civil(y, m, d, micros))
  }

  function RowOf(a: Attempt): Row {
    NewRow(a.user, a.tier, a.ctx, a.now)
  }

  lemma FirstIsRecorded(a: Attempt)
    requires Passes([], a)
    ensures Run([a]) == [RowOf(a)]
  {
    LastStep([], a);
    assert [] + [a] == [a];
  }

  /** A second attempt of the same user, tier and period leaves no row. */
  lemma SharedKeyLeavesNoRow(a: Attempt, b: Attempt)
    requires a.user == b.user && a.tier == b.tier && SamePeriod(a.tier, a.now, b.now)
    ensures KeyTaken([RowOf(a)], b) && Step([RowOf(a)], b) == [RowOf(a)]
  {
    KeyIffSamePeriod(a.tier, a.now, b.now);
    assert [RowOf(a)][0] == RowOf(a);
  }

  lemma SecondRun(a: Attempt, b: Attempt)
    requires Passes([], a)
    ensures Run([a, b]) == Step([RowOf(a)], b)
  {
    FirstIsRecorded(a);
    LastStep([a], b);
    assert [a] + [b] == [a, b];
  }

  lemma PassesOutsideTheWindow(a: Attempt, b: Attempt)
    requires a.tier == b.tier == Monthly && Limit(Monthly, b.ctx) == 1 && b.now - a.now > WINDOW
    ensures Passes([RowOf(a)], b)
  {
    assert WinsSince([RowOf(a)], b.user, Monthly, b.now - WINDOW) == 0;
  }

  /** The second attempt shares the key but not the window: it passes and
      leaves no row, so a third, which sees only the first, passes as well. */
  lemma ThirdPasses(a: Attempt, b: Attempt, c: Attempt)
    requires a.tier == b.tier == c.tier == Monthly && a.user == b.user == c.user
    requires Limit(Monthly, a.ctx) == Limit(Monthly, b.ctx) == Limit(Monthly, c.ctx) == 1
    requires SamePeriod(Monthly, a.now, b.now) && b.now - a.now > WINDOW && b.now <= c.now
    ensures AwardsBetween([a, b, c], a.user, Monthly, b.now, c.now) == 2
  {
    FirstIsRecorded(a);
    SecondRun(a, b);
    SharedKeyLeavesNoRow(a, b);
    PassesOutsideTheWindow(a, b);
    PassesOutsideTheWindow(a, c);
    assert [] + [a] == [a] && [a] + [b] == [a, b] && [a, b] + [c] == [a, b, c];
    LastAward([], a, a.user, Monthly, b.now, c.now);
    LastAward([a], b, a.user, Monthly, b.now, c.now);
    LastAward([a, b], c, a.user, Monthly, b.now, c.now);
  }

  lemma AcrossA31DayMonth(y: int, m: int)
    requires 1 <= y && 1 <= m <= 12 && DaysInMonth(y, m) == 31
    ensures var (y', m') := NextMonth(y, m);
            && At(y, m, 31, 1) - At(y, m, 1, 0) == WINDOW + 1
            && At(y', m', 1, 0) - At(y, m, 31, 1) == DAY - 1
  {
    MonthsAbut(y, m);
  }

  /** In every 31-day month, a monthly winner of its first instant may win
      again on day 31 and once more the next day: two awards under a cap of one
      per thirty days, less than a day apart, in any campaigns. */
  lemma MonthlySeam(y: int, m: int, user: nat, first: Context, second: Context, third: Context)
    requires 1 <= y && 1 <= m <= 12 && DaysInMonth(y, m) == 31
    requires Limit(Monthly, first) == Limit(Monthly, second) == Limit(Monthly, third) == 1
    ensures var (y', m') := NextMonth(y, m);
            var a := Attempt(user, Monthly, first, At(y, m, 1, 0));
            var b := Attempt(user, Monthly, second, At(y, m, 31, 1));
            var c := Attempt(user, Monthly, third, At(y', m', 1, 0));
            && Chronological([a, b, c]) && MonthlyCapOne([a, b, c], user)
            && 0 < c.now - b.now < DAY
            && AwardsBetween([a, b, c], user, Monthly, b.now, c.now) == 2
  {
    AcrossA31DayMonth(y, m);
    var (y', m') := NextMonth(y, m);
    ThirdPasses(Attempt(user, Monthly, first, At(y, m, 1, 0)),
                Attempt(user, Monthly, second, At(y, m, 31, 1)),
                Attempt(user, Monthly, third, At(y', m', 1, 0)));
  }

  // ---- Caps of two or more ----

  /** The cap is two or more, and no cooldown spaces a daily win. */
  predicate Roomy(a: Attempt) {
    a.tier != Grand && Limit(a.tier, a.ctx) >= 2 && (a.tier == Daily ==> Cooldown(a.ctx) <= 0)
  }

  lemma SecondOfThePeriod(a: Attempt, b: Attempt)
    requires Roomy(b) && b.tier == a.tier && b.user == a.user && b.now == a.now
    ensures Passes([RowOf(a)], b) && Step([RowOf(a)], b) == [RowOf(a)]
  {
    SharedKeyLeavesNoRow(a, b);
    assert WinsSince([RowOf(a)], b.user, b.tier, b.now - WINDOW) <= 1;
    if b.tier == Daily {
      assert Cooldown(b.ctx) * DAY <= 0;
      NothingLater([RowOf(a)], b.user, b.now - Cooldown(b.ctx) * DAY);
    }
  }

  lemma FirstOfThePeriod(a: Attempt)
    requires a.tier != Grand && Limit(a.tier, a.ctx) >= 1
    ensures Passes([], a) && Step([], a) == [RowOf(a)]
  {
  }

  /** Attempts of one user and tier at one instant, each in a campaign of its own
      choice. */
  ghost predicate AtOnce(run: seq<Attempt>, user: nat, tier: Tier, now: nat) {
    forall i :: 0 <= i < |run| ==> run[i].user == user && run[i].tier == tier && run[i].now == now && Roomy(run[i])
  }

  lemma NextAtOnce(run: seq<Attempt>, first: Attempt, a: Attempt)
    requires Run(run) == [RowOf(first)] && Roomy(a) && first.user == a.user && first.tier == a.tier && first.now == a.now
    ensures Run(run + [a]) == [RowOf(first)]
    ensures AwardsBetween(run + [a], a.user, a.tier, a.now, a.now) == AwardsBetween(run, a.user, a.tier, a.now, a.now) + 1
  {
    SecondOfThePeriod(first, a);
    LastStep(run, a);
    LastAward(run, a, a.user, a.tier, a.now, a.now);
  }

  lemma FirstAtOnce(a: Attempt)
    requires Roomy(a)
    ensures Run([a]) == [RowOf(a)] && AwardsBetween([a], a.user, a.tier, a.now, a.now) == 1
  {
    FirstOfThePeriod(a);
    FirstIsRecorded(a);
    LastAward([], a, a.user, a.tier, a.now, a.now);
    assert [] + [a] == [a];
  }

  lemma LastAtOnce(run: seq<Attempt>, user: nat, tier: Tier, now: nat)
    requires AtOnce(run, user, tier, now) && |run| > 1
    ensures var before, a := run[..|run| - 1], run[|run| - 1];
            && AtOnce(before, user, tier, now) && before[0] == run[0] && run == before + [a]
            && Roomy(a) && a.user == run[0].user && a.tier == run[0].tier && a.now == run[0].now
  {
  }

  /** With daily, weekly or monthly caps of two or more, and no cooldown on a
      daily one, the second award of a period inserts nothing, in whatever
      campaign, and so is never counted: any number of awards pass at once. */
  lemma {:induction false} PeriodSeam(run: seq<Attempt>, user: nat, tier: Tier, now: nat)
    requires AtOnce(run, user, tier, now)
    ensures Run(run) == (if run == [] then [] else [RowOf(run[0])])
    ensures AwardsBetween(run, user, tier, now, now) == |run|
  {
    if |run| == 1 {
      FirstAtOnce(run[0]);
      assert run == [run[0]];
    } else if |run| > 1 {
      LastAtOnce(run, user, tier, now);
      PeriodSeam(run[..|run| - 1], user, tier, now);
      NextAtOnce(run[..|run| - 1], run[0], run[|run| - 1]);
    }
  }

  // ---- Which settings are safe ----

  /** Every attempt of the user and tier runs under the same cap and cooldown. */
  ghost predicate Under(run: seq<Attempt>, user: nat, tier: Tier, limit: int, cooldown: int) {
    forall i :: 0 <= i < |run| && run[i].user == user && run[i].tier == tier
      ==> Limit(tier, run[i].ctx) == limit && Cooldown(run[i].ctx) == cooldown
  }

  ghost predicate AlwaysRecorded(tier: Tier, limit: int, cooldown: int) {
    forall run, user :: Chronological(run) && Under(run, user, tier, limit, cooldown) ==> NeverSilent(run, user, tier)
  }

  function Cap(limit: int): nat {
    if limit < 0 then 0 else limit
  }

  /** The cap, said of awards: in every thirty days, or for a grand win in every
      campaign. */
  ghost predicate AwardsKeepCap(run: seq<Attempt>, user: nat, tier: Tier, limit: int) {
    if tier == Grand then forall campaign: nat :: Awards(run, GrandOf(user, campaign)) <= Cap(limit)
    else forall lo, hi :: hi - lo <= WINDOW ==> AwardsBetween(run, user, tier, lo, hi) <= Cap(limit)
  }

  ghost predicate AlwaysCapped(tier: Tier, limit: int, cooldown: int) {
    forall run, user :: Chronological(run) && Under(run, user, tier, limit, cooldown) ==> AwardsKeepCap(run, user, tier, limit)
  }

  /** A cap of none; a cap of one on a daily or weekly tier; or a daily cooldown. */
  predicate Safe(tier: Tier, limit: int, cooldown: int) {
    limit <= 0 || (limit == 1 && (tier == Daily || tier == Weekly)) || (tier == Daily && cooldown >= 1)
  }

  lemma NoAwardsWithoutACap(rows: seq<Row>, a: Attempt)
    requires Limit(a.tier, a.ctx) <= 0
    ensures !Passes(rows, a)
  {
  }

  lemma SafeIsRecorded(run: seq<Attempt>, user: nat, tier: Tier, limit: int, cooldown: int)
    requires Safe(tier, limit, cooldown) && Chronological(run) && Under(run, user, tier, limit, cooldown)
    ensures NeverSilent(run, user, tier)
  {
    if limit <= 0 {
      forall i | 0 <= i < |run| && run[i].user == user && run[i].tier == tier ensures !Silent(Run(run[..i]), run[i]) {
        NoAwardsWithoutACap(Run(run[..i]), run[i]);
      }
    } else {
      SpacedOutIsRecorded(run, user, tier);
    }
  }

  lemma RecordedIsCapped(run: seq<Attempt>, user: nat, tier: Tier, limit: int, cooldown: int, lo: int, hi: int)
    requires tier != Grand && Chronological(run) && Under(run, user, tier, limit, cooldown)
    requires NeverSilent(run, user, tier) && hi - lo <= WINDOW
    ensures AwardsBetween(run, user, tier, lo, hi) <= Cap(limit)
  {
    NoSilentAwards(run, user, tier, lo, hi);
    AwardCap(run, user, tier, Cap(limit), lo, hi);
  }

  lemma {:induction false} NoGrandAwards(run: seq<Attempt>, user: nat, campaign: nat, limit: int, cooldown: int)
    requires limit <= 0 && Under(run, user, Grand, limit, cooldown)
    ensures Awards(run, GrandOf(user, campaign)) == 0
  {
    if run != [] {
      var before, a := run[..|run| - 1], run[|run| - 1];
      assert Under(before, user, Grand, limit, cooldown);
      NoGrandAwards(before, user, campaign, limit, cooldown);
      if Selects(GrandOf(user, campaign), a) {
        NoAwardsWithoutACap(Run(before), a);
      }
    }
  }

  lemma SafeIsCapped(run: seq<Attempt>, user: nat, tier: Tier, limit: int, cooldown: int)
    requires Safe(tier, limit, cooldown) && Chronological(run) && Under(run, user, tier, limit, cooldown)
    ensures AwardsKeepCap(run, user, tier, limit)
  {
    if tier == Grand {
      forall campaign: nat ensures Awards(run, GrandOf(user, campaign)) <= Cap(limit) {
        NoGrandAwards(run, user, campaign, limit, cooldown);
      }
    } else {
      SafeIsRecorded(run, user, tier, limit, cooldown);
      forall lo, hi | hi - lo <= WINDOW ensures AwardsBetween(run, user, tier, lo, hi) <= Cap(limit) {
        RecordedIsCapped(run, user, tier, limit, cooldown, lo, hi);
      }
    }
  }

  /** A campaign with the settings given. */
  function With(campaign: nat, limit: int, cooldown: int): Context {
    InCampaign(campaign, Some(Config(limit, limit, limit, limit, cooldown)))
  }

  lemma OneMonthlyIsUnsafe(cooldown: int) returns (run: seq<Attempt>, lo: int, hi: int)
    ensures Chronological(run) && Under(run, 0, Monthly, 1, cooldown) && hi - lo <= WINDOW
    ensures AwardsBetween(run, 0, Monthly, lo, hi) == 2
  {
    var a, b, c := At(2024, 1, 1, 0), At(2024, 1, 31, 1), At(2024, 2, 1, 0);
    MonthlySeam(2024, 1, 0, With(0, 1, cooldown), With(1, 1, cooldown), With(2, 1, cooldown));
    run := [Attempt(0, Monthly, With(0, 1, cooldown), a), Attempt(0, Monthly, With(1, 1, cooldown), b),
            Attempt(0, Monthly, With(2, 1, cooldown), c)];
    lo, hi := b, c;
  }

  /** One attempt at one instant in each of so many campaigns. */
  function Everywhere(tier: Tier, limit: int, cooldown: int, k: nat): seq<Attempt> {
    seq(k, i requires 0 <= i < k => Attempt(0, tier, With(i, limit, cooldown), 0))
  }

  lemma EverywhereIsARun(tier: Tier, limit: int, cooldown: int, k: nat)
    ensures Chronological(Everywhere(tier, limit, cooldown, k)) && Under(Everywhere(tier, limit, cooldown, k), 0, tier, limit, cooldown)
    ensures tier != Grand && limit >= 2 && (tier == Daily ==> cooldown <= 0) ==> AtOnce(Everywhere(tier, limit, cooldown, k), 0, tier, 0)
  {
  }

  lemma SeveralAtOnce(tier: Tier, limit: int, cooldown: int) returns (run: seq<Attempt>)
    requires tier != Grand && limit >= 2 && (tier == Daily ==> cooldown <= 0)
    ensures Chronological(run) && Under(run, 0, tier, limit, cooldown)
    ensures AtOnce(run, 0, tier, 0) && |run| == limit + 1
  {
    run := Everywhere(tier, limit, cooldown, limit + 1);
    EverywhereIsARun(tier, limit, cooldown, limit + 1);
  }

  lemma UnsafeBreaksTheCap(tier: Tier, limit: int, cooldown: int) returns (run: seq<Attempt>, lo: int, hi: int)
    requires tier != Grand && !Safe(tier, limit, cooldown)
    ensures Chronological(run) && Under(run, 0, tier, limit, cooldown) && hi - lo <= WINDOW
    ensures AwardsBetween(run, 0, tier, lo, hi) > limit
  {
    if limit == 1 {
      run, lo, hi := OneMonthlyIsUnsafe(cooldown);
    } else {
      run := SeveralAtOnce(tier, limit, cooldown);
      PeriodSeam(run, 0, tier, 0);
      lo, hi := 0, 0;
    }
  }

  /** A final in one campaign, then so many in another on the same day. */
  function Finals(limit: int, cooldown: int, k: nat): seq<Attempt> {
    if k == 0 then [Attempt(0, Grand, With(0, limit, cooldown), 0)]
    else Finals(limit, cooldown, k - 1) + [Attempt(0, Grand, With(1, limit, cooldown), 0)]
  }

  lemma {:induction false} AllButTheFirst(run: seq<Attempt>, sel: Selection)
    requires forall i :: 0 < i < |run| ==> Selects(sel, run[i])
    ensures Attempts(run, sel) >= |run| - 1
  {
    if run != [] {
      AllButTheFirst(run[..|run| - 1], sel);
    }
  }

  /** The second of them finds the day taken and passes. */
  lemma SecondFinalIsSilent(a: Attempt, b: Attempt)
    requires a.tier == b.tier == Grand && a.user == b.user && a.now == b.now && Limit(Grand, a.ctx) >= 1 && Limit(Grand, b.ctx) >= 1
    requires CampaignOf(b.ctx).Some? && CampaignOf(a.ctx) != CampaignOf(b.ctx)
    ensures Run([a]) == [RowOf(a)] && Silent(Run([a]), b) && WonThisPeriod(RowOf(a), b)
  {
    assert Passes([], a);
    FirstIsRecorded(a);
    SharedKeyLeavesNoRow(a, b);
    OtherGrandPasses(a, b);
  }

  lemma {:induction false} FinalsAre(limit: int, cooldown: int, k: nat)
    ensures var run := Finals(limit, cooldown, k);
            && |run| == k + 1 && Chronological(run) && Under(run, 0, Grand, limit, cooldown)
            && run[0] == Attempt(0, Grand, With(0, limit, cooldown), 0)
            && forall i :: 0 < i < |run| ==> run[i] == Attempt(0, Grand, With(1, limit, cooldown), 0)
  {
    if k > 0 {
      FinalsAre(limit, cooldown, k - 1);
    }
  }

  lemma FinalsAreUnsafe(limit: int, cooldown: int) returns (run: seq<Attempt>)
    requires limit >= 1
    ensures Chronological(run) && Under(run, 0, Grand, limit, cooldown)
    ensures !NeverSilent(run, 0, Grand) && Awards(run, GrandOf(0, 1)) > limit
  {
    run := Finals(limit, cooldown, limit + 1);
    FinalsAre(limit, cooldown, limit + 1);
    var a, b := Attempt(0, Grand, With(0, limit, cooldown), 0), Attempt(0, Grand, With(1, limit, cooldown), 0);
    SecondFinalIsSilent(a, b);
    assert run[..1] == [a] && run[1] == b;
    AllButTheFirst(run, GrandOf(0, 1));
    FirstOnly(a, GrandOf(0, 1));
    assert DayTaken(Run([a]), b) by { assert WonThisPeriod([RowOf(a)][0], b); }
    GrandAwardCapIff(run, 0, 1, limit);
  }

  lemma FirstOnly(a: Attempt, sel: Selection)
    requires !Selects(sel, a)
    ensures Attempts([a], sel) == 0
  {
  }

  /** For every tier, cap and cooldown, these are exactly the settings under which
      every award of every run inserts its row, and exactly those under which
      awards keep the cap. */
  lemma SafeSettingsIff(tier: Tier, limit: int, cooldown: int)
    ensures AlwaysRecorded(tier, limit, cooldown) <==> Safe(tier, limit, cooldown)
    ensures AlwaysCapped(tier, limit, cooldown) <==> Safe(tier, limit, cooldown)
  {
    if Safe(tier, limit, cooldown) {
      forall run, user | Chronological(run) && Under(run, user, tier, limit, cooldown)
        ensures NeverSilent(run, user, tier) && AwardsKeepCap(run, user, tier, limit)
      {
        SafeIsRecorded(run, user, tier, limit, cooldown);
        SafeIsCapped(run, user, tier, limit, cooldown);
      }
    } else if tier == Grand {
      var run := FinalsAreUnsafe(limit, cooldown);
      assert !AwardsKeepCap(run, 0, tier, limit);
    } else {
      var run, lo, hi := UnsafeBreaksTheCap(tier, limit, cooldown);
      assert !AwardsKeepCap(run, 0, tier, limit);
      if NeverSilent(run, 0, tier) {
        RecordedIsCapped(run, 0, tier, limit, cooldown, lo, hi);
        assert false;
      }
    }
  }

  // ---- Grand wins: per campaign, for life ----

  ghost predicate GrandCappedAt(run: seq<Attempt>, user: nat, campaign: nat, L: nat) {
    forall i :: 0 <= i < |run| && run[i].user == user && run[i].tier == Grand && CampaignOf(run[i].ctx) == Some(campaign)
      ==> Limit(Grand, run[i].ctx) <= L
  }

  /** No run, however long, records more than L grand wins of a user in a
      campaign. */
  lemma {:induction false} GrandCap(run: seq<Attempt>, user: nat, campaign: nat, L: nat)
    requires GrandCappedAt(run, user, campaign, L)
    ensures GrandWins(Run(run), user, Some(campaign)) <= L
  {
    if run != [] {
      var before, a := run[..|run| - 1], run[|run| - 1];
      assert GrandCappedAt(before, user, campaign, L);
      GrandCap(before, user, campaign, L);
      StepShape(Run(before), a);
      if Run(run) != Run(before) {
        GrandWinsAppend(Run(before), NewRow(a.user, a.tier, a.ctx, a.now), user, Some(campaign));
      }
    }
  }

  lemma OtherGrandPasses(a: Attempt, b: Attempt)
    requires a.tier == b.tier == Grand && CampaignOf(b.ctx).Some? && CampaignOf(a.ctx) != CampaignOf(b.ctx)
    requires Limit(Grand, b.ctx) >= 1
    ensures Passes([RowOf(a)], b)
  {
    assert GrandWins([RowOf(a)], b.user, CampaignOf(b.ctx)) == 0;
  }

  lemma LastOfGrand(run: seq<Attempt>, a: Attempt, sel: Selection)
    ensures Awards(run + [a], sel) == Awards(run, sel) + (if Selects(sel, a) && Passes(Run(run), a) then 1 else 0)
  {
    assert (run + [a])[..|run|] == run;
  }

  /** The key of a grand win names the day but not the campaign, so a final of
      another campaign on the same day swallows the row, and under a cap of one
      the same user may take the campaign's grand prize again, at any later time. */
  lemma GrandSeam(a: Attempt, b: Attempt, c: Attempt)
    requires a.tier == b.tier == c.tier == Grand && a.user == b.user == c.user
    requires CampaignOf(b.ctx).Some? && CampaignOf(c.ctx) == CampaignOf(b.ctx) != CampaignOf(a.ctx)
    requires Limit(Grand, b.ctx) == Limit(Grand, c.ctx) == 1 && Passes([], a)
    requires a.now <= b.now <= c.now && SamePeriod(Grand, a.now, b.now)
    ensures Silent(Run([a]), b) && Run([a, b]) == [RowOf(a)]
    ensures Awards([a, b, c], GrandOf(b.user, CampaignOf(b.ctx).value)) == 2
  {
    var sel := GrandOf(b.user, CampaignOf(b.ctx).value);
    FirstIsRecorded(a);
    SecondRun(a, b);
    SharedKeyLeavesNoRow(a, b);
    OtherGrandPasses(a, b);
    OtherGrandPasses(a, c);
    assert [] + [a] == [a] && [a] + [b] == [a, b] && [a, b] + [c] == [a, b, c];
    LastOfGrand([], a, sel);
    LastOfGrand([a], b, sel);
    LastOfGrand([a, b], c, sel);
  }

  // ---- The long-run bound is reached ----

  /** Blocks of L instants, a gap g apart, each block one microsecond more than
      thirty days after the block before it. */
  function Tick(a: nat, g: nat, L: nat, n: nat): nat
    requires L > 0
  {
    if n < L then a + n * g else Tick(a, g, L, n - L) + WINDOW + 1
  }

  /** Two ticks are at least a gap apart: the blocks leave room for it. */
  lemma {:induction false} NextTick(a: nat, g: nat, L: nat, n: nat)
    requires 0 < L && L * g <= WINDOW
    ensures Tick(a, g, L, n + 1) >= Tick(a, g, L, n) + g
  {
    if n + 1 < L {
      assert (n + 1) * g == n * g + g;
    } else if n < L {
      assert n * g + g == L * g;
    } else {
      NextTick(a, g, L, n - L);
    }
  }

  lemma {:induction false} TicksAdvance(a: nat, g: nat, L: nat, m: nat, n: nat)
    requires 0 < L && L * g <= WINDOW && m < n
    ensures Tick(a, g, L, m) + g <= Tick(a, g, L, n)
  {
    NextTick(a, g, L, n - 1);
    if m < n - 1 {
      TicksAdvance(a, g, L, m, n - 1);
    }
  }

  /** The last tick of block k. */
  lemma {:induction false} LastTickIs(a: nat, g: nat, L: nat, k: nat)
    requires 0 < L && 0 < k
    ensures 0 <= k * L - 1 && Tick(a, g, L, k * L - 1) == a + (k - 1) * (WINDOW + 1) + (L - 1) * g
    decreases k
  {
    assert k * L == (k - 1) * L + L && (k - 1) * L >= 0;
    if k > 1 {
      LastTickIs(a, g, L, k - 1);
      assert (k - 1) * (WINDOW + 1) == (k - 2) * (WINDOW + 1) + (WINDOW + 1);
      assert (k - 1) * L - 1 >= 0;
    }
  }

  /** The instants a tier can hold in thirty days: gaps of a day or of a week. */
  function Gap(tier: Tier): nat {
    if tier == Daily then DAY else 7 * DAY
  }

  ghost predicate WonAtTicks(rows: seq<Row>, user: nat, tier: Tier, a: nat, L: nat)
    requires L > 0
  {
    forall i :: 0 <= i < |rows| ==> rows[i].user == user && rows[i].tier == tier && rows[i].wonAt == Tick(a, Gap(tier), L, i)
  }

  /** A run of daily or weekly attempts, one at each tick. */
  ghost predicate Spaced(run: seq<Attempt>, user: nat, tier: Tier, a: nat, L: nat)
    requires L > 0
  {
    forall i :: 0 <= i < |run| ==> run[i].user == user && run[i].tier == tier && run[i].now == Tick(a, Gap(tier), L, i)
                                   && Limit(tier, run[i].ctx) == L && Cooldown(run[i].ctx) <= 1
  }

  lemma {:induction false} OldRowsDoNotCount(rows: seq<Row>, user: nat, tier: Tier, from: int, k: nat)
    requires k <= |rows| && forall i :: 0 <= i < k ==> rows[i].wonAt < from
    ensures WinsSince(rows, user, tier, from) <= |rows| - k
  {
    if rows != [] {
      var before := rows[..|rows| - 1];
      OldRowsDoNotCount(before, user, tier, from, if k == |rows| then k - 1 else k);
    }
  }

  /** At a tick, fewer than L earlier ticks lie in the trailing window. */
  lemma FewRecentTicks(rows: seq<Row>, user: nat, tier: Tier, a: nat, L: nat)
    requires 0 < L && L * Gap(tier) <= WINDOW && WonAtTicks(rows, user, tier, a, L)
    ensures WinsSince(rows, user, tier, Tick(a, Gap(tier), L, |rows|) - WINDOW) < L
  {
    var n, g := |rows|, Gap(tier);
    if n < L {
      OldRowsDoNotCount(rows, user, tier, Tick(a, g, L, n) - WINDOW, 0);
    } else {
      forall i | 0 <= i < n - L + 1 ensures rows[i].wonAt < Tick(a, g, L, n) - WINDOW {
        if i < n - L {
          TicksAdvance(a, g, L, i, n - L);
        }
      }
      OldRowsDoNotCount(rows, user, tier, Tick(a, g, L, n) - WINDOW, n - L + 1);
    }
  }

  lemma {:induction false} NothingLater(rows: seq<Row>, user: nat, bound: int)
    requires forall i :: 0 <= i < |rows| ==> rows[i].wonAt <= bound
    ensures !(LatestDaily(rows, user).Some? && LatestDaily(rows, user).value > bound)
  {
    LatestDailyIsMaximum(rows, user, bound);
  }

  lemma PassesWhenSpaced(rows: seq<Row>, a: Attempt)
    requires a.tier == Daily || a.tier == Weekly
    requires WinsSince(rows, a.user, a.tier, a.now - WINDOW) < Limit(a.tier, a.ctx)
    requires Cooldown(a.ctx) <= 1 && forall i :: 0 <= i < |rows| ==> rows[i].wonAt <= a.now - Gap(a.tier)
    ensures Passes(rows, a)
  {
    if a.tier == Daily && Cooldown(a.ctx) != 0 {
      assert Cooldown(a.ctx) * DAY <= DAY;
      NothingLater(rows, a.user, a.now - Cooldown(a.ctx) * DAY);
    }
  }

  lemma FarApart(tier: Tier, s: nat, t: nat)
    requires (tier == Daily || tier == Weekly) && t - s >= Gap(tier)
    ensures !SamePeriod(tier, s, t)
  {
    var m, n := s / DAY, t / DAY;
    assert s == m * DAY + s % DAY && t == n * DAY + t % DAY;
  }

  lemma KeyFreeWhenSpaced(rows: seq<Row>, a: Attempt)
    requires (a.tier == Daily || a.tier == Weekly) && WellKeyed(rows, a.now)
    requires forall i :: 0 <= i < |rows| ==> rows[i].wonAt <= a.now - Gap(a.tier)
    ensures !KeyTaken(rows, a)
  {
    KeyTakenIff(rows, a);
    forall i | 0 <= i < |rows| ensures !WonThisPeriod(rows[i], a) {
      FarApart(a.tier, rows[i].wonAt, a.now);
    }
  }

  lemma RecordsWhenOpen(rows: seq<Row>, a: Attempt)
    requires Passes(rows, a) && !KeyTaken(rows, a)
    ensures Step(rows, a) == rows + [RowOf(a)]
  {
  }

  lemma TicksAreApart(rows: seq<Row>, user: nat, tier: Tier, a: nat, L: nat, i: int)
    requires 0 < L && L * Gap(tier) <= WINDOW && WonAtTicks(rows, user, tier, a, L) && 0 <= i < |rows|
    ensures rows[i].wonAt + Gap(tier) <= Tick(a, Gap(tier), L, |rows|)
  {
    TicksAdvance(a, Gap(tier), L, i, |rows|);
  }

  lemma SpacedIsRecorded(rows: seq<Row>, a: Attempt)
    requires (a.tier == Daily || a.tier == Weekly) && WellKeyed(rows, a.now) && Cooldown(a.ctx) <= 1
    requires WinsSince(rows, a.user, a.tier, a.now - WINDOW) < Limit(a.tier, a.ctx)
    requires forall i :: 0 <= i < |rows| ==> rows[i].wonAt <= a.now - Gap(a.tier)
    ensures Step(rows, a) == rows + [RowOf(a)]
  {
    PassesWhenSpaced(rows, a);
    KeyFreeWhenSpaced(rows, a);
    RecordsWhenOpen(rows, a);
  }

  lemma OneMoreTick(rows: seq<Row>, row: Row, user: nat, tier: Tier, a: nat, L: nat)
    requires 0 < L && WonAtTicks(rows, user, tier, a, L)
    requires row.user == user && row.tier == tier && row.wonAt == Tick(a, Gap(tier), L, |rows|)
    ensures WonAtTicks(rows + [row], user, tier, a, L)
  {
  }

  lemma TickStep(rows: seq<Row>, next: Attempt, a: nat, L: nat)
    requires (next.tier == Daily || next.tier == Weekly) && 0 < L && L * Gap(next.tier) <= WINDOW
    requires WellKeyed(rows, next.now) && WonAtTicks(rows, next.user, next.tier, a, L)
    requires next.now == Tick(a, Gap(next.tier), L, |rows|) && Limit(next.tier, next.ctx) == L && Cooldown(next.ctx) <= 1
    ensures |Step(rows, next)| == |rows| + 1 && WonAtTicks(Step(rows, next), next.user, next.tier, a, L)
  {
    forall i | 0 <= i < |rows| ensures rows[i].wonAt <= next.now - Gap(next.tier) {
      TicksAreApart(rows, next.user, next.tier, a, L, i);
    }
    FewRecentTicks(rows, next.user, next.tier, a, L);
    SpacedIsRecorded(rows, next);
    OneMoreTick(rows, RowOf(next), next.user, next.tier, a, L);
  }

  lemma SpacedIsARun(run: seq<Attempt>, user: nat, tier: Tier, a: nat, L: nat)
    requires 0 < L && L * Gap(tier) <= WINDOW && Spaced(run, user, tier, a, L)
    ensures Chronological(run) && CappedAt(run, user, tier, L)
  {
    forall i, j | 0 <= i < j < |run| ensures run[i].now <= run[j].now {
      TicksAdvance(a, Gap(tier), L, i, j);
    }
  }

  lemma {:induction false} SpacedAreAllRecorded(run: seq<Attempt>, user: nat, tier: Tier, a: nat, L: nat)
    requires (tier == Daily || tier == Weekly) && 0 < L && L * Gap(tier) <= WINDOW && Spaced(run, user, tier, a, L)
    ensures |Run(run)| == |run| && WonAtTicks(Run(run), user, tier, a, L)
  {
    if run != [] {
      var before, next := run[..|run| - 1], run[|run| - 1];
      SpacedAreAllRecorded(before, user, tier, a, L);
      SpacedIsARun(run, user, tier, a, L);
      RunIsWellKeyed(before, next.now);
      TickStep(Run(before), next, a, L);
    }
  }

  lemma {:induction false} AllInside(rows: seq<Row>, user: nat, tier: Tier, lo: int, hi: int)
    requires forall i :: 0 <= i < |rows| ==> rows[i].user == user && rows[i].tier == tier && lo <= rows[i].wonAt <= hi
    ensures WinsBetween(rows, user, tier, lo, hi) == |rows|
  {
    if rows != [] {
      AllInside(rows[..|rows| - 1], user, tier, lo, hi);
    }
  }

  lemma TicksCount(rows: seq<Row>, user: nat, tier: Tier, a: nat, L: nat)
    requires 0 < L && L * Gap(tier) <= WINDOW && WonAtTicks(rows, user, tier, a, L) && rows != []
    ensures WinsBetween(rows, user, tier, a, Tick(a, Gap(tier), L, |rows| - 1)) == |rows|
  {
    var g := Gap(tier);
    forall i | 0 <= i < |rows| ensures a <= rows[i].wonAt <= Tick(a, g, L, |rows| - 1) {
      if i > 0 {
        TicksAdvance(a, g, L, 0, i);
      }
      if i < |rows| - 1 {
        TicksAdvance(a, g, L, i, |rows| - 1);
      }
    }
    AllInside(rows, user, tier, a, Tick(a, g, L, |rows| - 1));
  }

  lemma AllTicksAreWins(run: seq<Attempt>, user: nat, tier: Tier, a: nat, L: nat)
    requires (tier == Daily || tier == Weekly) && 0 < L && L * Gap(tier) <= WINDOW && Spaced(run, user, tier, a, L)
    requires run != []
    ensures WinsBetween(Run(run), user, tier, a, Tick(a, Gap(tier), L, |run| - 1)) == |run|
  {
    SpacedAreAllRecorded(run, user, tier, a, L);
    TicksCount(Run(run), user, tier, a, L);
  }

  lemma BlockFits(tier: Tier, L: nat)
    requires (tier == Daily && 0 < L <= 30) || (tier == Weekly && 0 < L <= 4)
    ensures L * Gap(tier) <= WINDOW && 0 <= (L - 1) * Gap(tier) <= WINDOW
  {
  }

  lemma WindowsBegun(k: nat, L: nat, rest: nat)
    requires 0 < k && rest <= WINDOW
    ensures L * (((k - 1) * (WINDOW + 1) + rest) / (WINDOW + 1) + 1) == k * L
  {
    assert ((k - 1) * (WINDOW + 1) + rest) / (WINDOW + 1) == k - 1;
  }

  /** For every number k of windows, every daily cap up to 30 and every weekly
      cap up to 4, a cooldown of a day included, the spaced run records k * L
      wins in a span that begins k windows: the most the long-run bound allows. */
  lemma LongRunBoundIsReached(run: seq<Attempt>, user: nat, tier: Tier, a: nat, L: nat, k: nat)
    requires (tier == Daily && 0 < L <= 30) || (tier == Weekly && 0 < L <= 4)
    requires Spaced(run, user, tier, a, L) && 0 < k && |run| == k * L
    ensures Chronological(run) && CappedAt(run, user, tier, L)
    ensures var S := (k - 1) * (WINDOW + 1) + (L - 1) * Gap(tier);
            && WinsBetween(Run(run), user, tier, a, a + S) == L * (S / (WINDOW + 1) + 1)
  {
    BlockFits(tier, L);
    SpacedIsARun(run, user, tier, a, L);
    LastTickIs(a, Gap(tier), L, k);
    AllTicksAreWins(run, user, tier, a, L);
    WindowsBegun(k, L, (L - 1) * Gap(tier));
  }
}
