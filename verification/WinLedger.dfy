/** The winner frequency records: the eligibility check, the keyed recording of
    a win, and what both keep over a whole run of selections. */
module WinLedger {
  import opened Calendar
  import opened Options
  import opened WinPeriods

  const WINDOW: int := 30 * DAY

  /** The caps and the cooldown of one campaign's scoring configuration. */
  datatype Config = Config(dailyLimit: int, weeklyLimit: int, monthlyLimit: int, grandLimit: int, dailyCooldown: int)

  /** The campaign a call names, if any, with the configuration found for it. */
  datatype Context = General | InCampaign(id: nat, config: Option<Config>)

  datatype Row = Row(user: nat, tier: Tier, campaign: Option<nat>, wonAt: nat, periodStart: nat, periodEnd: int)

  /** (is_eligible, current_wins, limit) */
  datatype Verdict = Verdict(eligible: bool, wins: nat, limit: int)

  /** One passage through a selector: check, then record if the check passed. */
  datatype Attempt = Attempt(user: nat, tier: Tier, ctx: Context, now: nat)

  function ConfigOf(ctx: Context): Option<Config> {
    match ctx
    case General => None
    case InCampaign(_, config) => config
  }

  function CampaignOf(ctx: Context): Option<nat> {
    match ctx
    case General => None
    case InCampaign(id, _) => Some(id)
  }

  function Limit(tier: Tier, ctx: Context): int {
    match ConfigOf(ctx)
    case None => 1
    case Some(c) =>
      match tier
      case Daily => c.dailyLimit
      case Weekly => c.weeklyLimit
      case Monthly => c.monthlyLimit
      case Grand => c.grandLimit
  }

  function Cooldown(ctx: Context): int {
    match ConfigOf(ctx)
    case None => 0
    case Some(c) => c.dailyCooldown
  }

  // ---- Queries over the table ----

  /** Rows of one user and tier won at or after an instant. */
  function WinsSince(rows: seq<Row>, user: nat, tier: Tier, from: int): nat {
    if rows == [] then 0
    else
      var r := rows[|rows| - 1];
      WinsSince(rows[..|rows| - 1], user, tier, from) +
      (if r.user == user && r.tier == tier && from <= r.wonAt then 1 else 0)
  }

  function GrandWins(rows: seq<Row>, user: nat, campaign: Option<nat>): nat {
    if rows == [] then 0
    else
      var r := rows[|rows| - 1];
      GrandWins(rows[..|rows| - 1], user, campaign) +
      (if r.user == user && r.tier == Grand && (campaign == None || r.campaign == campaign) then 1 else 0)
  }

  /** The latest daily win of a user. */
  function LatestDaily(rows: seq<Row>, user: nat): Option<int> {
    if rows == [] then None
    else
      var r := rows[|rows| - 1];
      var before := LatestDaily(rows[..|rows| - 1], user);
      if r.user == user && r.tier == Daily && (before == None || before.value <= r.wonAt) then Some(r.wonAt)
      else before
  }

  predicate Holds(rows: seq<Row>, user: nat, tier: Tier, start: int) {
    exists i :: 0 <= i < |rows| && rows[i].user == user && rows[i].tier == tier && rows[i].periodStart == start
  }

  // ---- What the queries count ----

  ghost function WinsSinceSet(rows: seq<Row>, user: nat, tier: Tier, from: int): set<int> {
    set i | 0 <= i < |rows| && rows[i].user == user && rows[i].tier == tier && from <= rows[i].wonAt
  }

  lemma WithoutLast<T>(all: set<T>, before: set<T>, k: T)
    requires forall i :: i in before <==> i in all && i != k
    ensures |all| == |before| + (if k in all then 1 else 0)
  {
    assert before == all - {k};
  }

  lemma {:induction false} WinsSinceCounts(rows: seq<Row>, user: nat, tier: Tier, from: int)
    ensures WinsSince(rows, user, tier, from) == |WinsSinceSet(rows, user, tier, from)|
  {
    if rows != [] {
      var k := |rows| - 1;
      WinsSinceCounts(rows[..k], user, tier, from);
      WithoutLast(WinsSinceSet(rows, user, tier, from), WinsSinceSet(rows[..k], user, tier, from), k);
    }
  }

  lemma {:induction false} LatestDailyIsMaximum(rows: seq<Row>, user: nat, bound: int)
    ensures (LatestDaily(rows, user).Some? && LatestDaily(rows, user).value > bound)
       <==> exists i :: 0 <= i < |rows| && rows[i].user == user && rows[i].tier == Daily && rows[i].wonAt > bound
  {
    if rows != [] {
      var k := |rows| - 1;
      LatestDailyIsMaximum(rows[..k], user, bound);
      assert forall i :: 0 <= i < k ==> rows[..k][i] == rows[i];
    }
  }

  // ---- The two operations ----

  function CheckEligibility(rows: seq<Row>, user: nat, tier: Tier, ctx: Context, now: nat): Verdict {
    var limit := Limit(tier, ctx);
    if tier == Grand then
      var wins := GrandWins(rows, user, CampaignOf(ctx));
      Verdict(wins < limit, wins, limit)
    else
      var wins := WinsSince(rows, user, tier, now - WINDOW);
      if wins >= limit then Verdict(false, wins, limit)
      else if tier == Daily && Cooldown(ctx) != 0 then
        var last := LatestDaily(rows, user);
        Verdict(!(last.Some? && last.value > now - Cooldown(ctx) * DAY), wins, limit)
      else Verdict(true, wins, limit)
  }

  function NewRow(user: nat, tier: Tier, ctx: Context, now: nat): Row {
    Row(user, tier, CampaignOf(ctx), now, PeriodStart(tier, now), PeriodEnd(tier, now))
  }

  /** get_or_create on (user, winner_type, period_start). */
  function Recorded(rows: seq<Row>, user: nat, tier: Tier, ctx: Context, now: nat): seq<Row> {
    if Holds(rows, user, tier, PeriodStart(tier, now)) then rows
    else rows + [NewRow(user, tier, ctx, now)]
  }

  predicate Passes(rows: seq<Row>, a: Attempt) {
    CheckEligibility(rows, a.user, a.tier, a.ctx, a.now).eligible
  }

  predicate KeyTaken(rows: seq<Row>, a: Attempt) {
    Holds(rows, a.user, a.tier, PeriodStart(a.tier, a.now))
  }

  function Step(rows: seq<Row>, a: Attempt): seq<Row> {
    if Passes(rows, a) then Recorded(rows, a.user, a.tier, a.ctx, a.now) else rows
  }

  /** The two restrictions, each said of the rows: fewer wins than the limit in
      the trailing thirty days, and, for a daily win under a cooldown, no win of
      the user inside it. */
  lemma VerdictIff(rows: seq<Row>, user: nat, tier: Tier, ctx: Context, now: nat)
    requires tier != Grand
    ensures var v := CheckEligibility(rows, user, tier, ctx, now);
            && v.wins == |WinsSinceSet(rows, user, tier, now - WINDOW)| && v.limit == Limit(tier, ctx)
            && (v.eligible <==>
                 && |WinsSinceSet(rows, user, tier, now - WINDOW)| < Limit(tier, ctx)
                 && (tier == Daily && Cooldown(ctx) != 0 ==>
                      forall i :: 0 <= i < |rows| && rows[i].user == user && rows[i].tier == Daily
                        ==> rows[i].wonAt <= now - Cooldown(ctx) * DAY))
  {
    WinsSinceCounts(rows, user, tier, now - WINDOW);
    LatestDailyIsMaximum(rows, user, now - Cooldown(ctx) * DAY);
  }

  ghost function GrandWinsSet(rows: seq<Row>, user: nat, campaign: Option<nat>): set<int> {
    set i | 0 <= i < |rows| && rows[i].user == user && rows[i].tier == Grand && (campaign == None || rows[i].campaign == campaign)
  }

  lemma {:induction false} GrandWinsCounts(rows: seq<Row>, user: nat, campaign: Option<nat>)
    ensures GrandWins(rows, user, campaign) == |GrandWinsSet(rows, user, campaign)|
  {
    if rows != [] {
      var k := |rows| - 1;
      GrandWinsCounts(rows[..k], user, campaign);
      WithoutLast(GrandWinsSet(rows, user, campaign), GrandWinsSet(rows[..k], user, campaign), k);
    }
  }

  /** A grand win is open exactly while the user's grand wins, in the campaign
      named or in any when none is, are fewer than the limit, however old. */
  lemma GrandVerdictIff(rows: seq<Row>, user: nat, ctx: Context, now: nat)
    ensures var v := CheckEligibility(rows, user, Grand, ctx, now);
            v.eligible <==> |GrandWinsSet(rows, user, CampaignOf(ctx))| < Limit(Grand, ctx)
  {
    GrandWinsCounts(rows, user, CampaignOf(ctx));
  }

  // ---- The verdict in the words of the configuration ----

  ghost predicate WonSince(r: Row, user: nat, tier: Tier, from: int) {
    r.user == user && r.tier == tier && r.wonAt >= from
  }

  /** A campaign's own columns decide: the daily limit and cooldown a daily win,
      the weekly limit a weekly one, the monthly limit a monthly one, and the
      grand limit, over all time and this campaign alone, a grand one. */
  lemma ConfiguredVerdict(rows: seq<Row>, user: nat, id: nat, c: Config, now: nat)
    ensures var v := CheckEligibility(rows, user, Daily, InCampaign(id, Some(c)), now);
            var recent := set i | 0 <= i < |rows| && WonSince(rows[i], user, Daily, now - 30 * DAY);
            && v.wins == |recent| && v.limit == c.dailyLimit
            && (v.eligible <==>
                  && |recent| < c.dailyLimit
                  && forall r :: r in rows && r.user == user && r.tier == Daily && c.dailyCooldown != 0
                       ==> r.wonAt <= now - c.dailyCooldown * DAY)
    ensures var v := CheckEligibility(rows, user, Weekly, InCampaign(id, Some(c)), now);
            var recent := set i | 0 <= i < |rows| && WonSince(rows[i], user, Weekly, now - 30 * DAY);
            v == Verdict(|recent| < c.weeklyLimit, |recent|, c.weeklyLimit)
    ensures var v := CheckEligibility(rows, user, Monthly, InCampaign(id, Some(c)), now);
            var recent := set i | 0 <= i < |rows| && WonSince(rows[i], user, Monthly, now - 30 * DAY);
            v == Verdict(|recent| < c.monthlyLimit, |recent|, c.monthlyLimit)
    ensures var v := CheckEligibility(rows, user, Grand, InCampaign(id, Some(c)), now);
            var won := set i | 0 <= i < |rows| && rows[i].user == user && rows[i].tier == Grand && rows[i].campaign == Some(id);
            v == Verdict(|won| < c.grandLimit, |won|, c.grandLimit)
  {
    var ctx := InCampaign(id, Some(c));
    RecentVerdict(rows, user, Daily, ctx, now);
    RecentVerdict(rows, user, Weekly, ctx, now);
    RecentVerdict(rows, user, Monthly, ctx, now);
    VerdictIff(rows, user, Daily, ctx, now);
    GrandVerdict(rows, user, ctx, now);
    var won := set i | 0 <= i < |rows| && rows[i].user == user && rows[i].tier == Grand && rows[i].campaign == Some(id);
    assert won == GrandWinsSet(rows, user, Some(id));
  }

  /** Without a campaign, or without a configuration of its own, one win is
      allowed in thirty days and no cooldown applies; one grand win, in the
      campaign or, when none is named, in all. */
  lemma DefaultVerdict(rows: seq<Row>, user: nat, tier: Tier, ctx: Context, now: nat)
    requires ctx == General || ctx == InCampaign(ctx.id, None)
    ensures tier != Grand ==>
              var v := CheckEligibility(rows, user, tier, ctx, now);
              var recent := set i | 0 <= i < |rows| && WonSince(rows[i], user, tier, now - 30 * DAY);
              v == Verdict(|recent| < 1, |recent|, 1)
    ensures var v := CheckEligibility(rows, user, Grand, ctx, now);
            var won := set i | 0 <= i < |rows| && rows[i].user == user && rows[i].tier == Grand
                                 && (ctx == General || rows[i].campaign == Some(ctx.id));
            v == Verdict(|won| < 1, |won|, 1)
  {
    if tier != Grand {
      RecentVerdict(rows, user, tier, ctx, now);
      VerdictIff(rows, user, tier, ctx, now);
    }
    GrandVerdict(rows, user, ctx, now);
    var won := set i | 0 <= i < |rows| && rows[i].user == user && rows[i].tier == Grand
                         && (ctx == General || rows[i].campaign == Some(ctx.id));
    assert won == GrandWinsSet(rows, user, CampaignOf(ctx));
  }

  lemma RecentVerdict(rows: seq<Row>, user: nat, tier: Tier, ctx: Context, now: nat)
    requires tier != Grand
    ensures var v := CheckEligibility(rows, user, tier, ctx, now);
            var recent := set i | 0 <= i < |rows| && WonSince(rows[i], user, tier, now - 30 * DAY);
            && v.wins == |recent| && v.limit == Limit(tier, ctx)
            && (tier != Daily ==> v.eligible == (|recent| < Limit(tier, ctx)))
  {
    VerdictIff(rows, user, tier, ctx, now);
    var recent := set i | 0 <= i < |rows| && WonSince(rows[i], user, tier, now - 30 * DAY);
    assert recent == WinsSinceSet(rows, user, tier, now - WINDOW);
  }

  lemma GrandVerdict(rows: seq<Row>, user: nat, ctx: Context, now: nat)
    ensures var wins := |GrandWinsSet(rows, user, CampaignOf(ctx))|;
            CheckEligibility(rows, user, Grand, ctx, now) == Verdict(wins < Limit(Grand, ctx), wins, Limit(Grand, ctx))
  {
    GrandWinsCounts(rows, user, CampaignOf(ctx));
  }

  class WinnerFrequencyTable {
    var rows: seq<Row>

    constructor ()
      ensures rows == []
    {
      rows := [];
    }

    /** The row of the win's period, and whether this call inserted it. The
        unique key holds before and after. */
    method RecordWin(user: nat, tier: Tier, ctx: Context, now: nat) returns (row: Row, created: bool)
      requires UniqueTogether(rows)
      modifies this
      ensures UniqueTogether(rows)
      ensures created <==> forall r :: r in old(rows) ==> !(r.user == user && r.tier == tier && r.periodStart == PeriodStart(tier, now))
      ensures created ==> rows == old(rows) + [row]
      ensures created ==> row == Row(user, tier, if ctx == General then None else Some(ctx.id), now,
                                     PeriodStart(tier, now), PeriodEnd(tier, now))
      ensures !created ==> rows == old(rows) && row in rows
      ensures row.user == user && row.tier == tier && row.periodStart == PeriodStart(tier, now)
      ensures rows == Recorded(old(rows), user, tier, ctx, now)
    {
      if Holds(rows, user, tier, PeriodStart(tier, now)) {
        var i :| 0 <= i < |rows| && rows[i].user == user && rows[i].tier == tier && rows[i].periodStart == PeriodStart(tier, now);
        return rows[i], false;
      }
      row, created := NewRow(user, tier, ctx, now), true;
      assert forall r :: r in rows ==> exists i :: 0 <= i < |rows| && rows[i] == r;
      rows := rows + [row];
    }

    /** Check and record at one instant, as the selectors do. The award does
        not depend on whether the recording inserted anything. */
    method Select(a: Attempt) returns (awarded: bool, created: bool)
      requires UniqueTogether(rows)
      modifies this
      ensures UniqueTogether(rows)
      ensures rows == Step(old(rows), a)
      ensures awarded == old(CheckEligibility(rows, a.user, a.tier, a.ctx, a.now).eligible)
      ensures created <==> awarded && forall r :: r in old(rows) ==>
        !(r.user == a.user && r.tier == a.tier && r.periodStart == PeriodStart(a.tier, a.now))
      ensures !created ==> rows == old(rows)
      ensures created ==> rows == old(rows) + [Row(a.user, a.tier, if a.ctx == General then None else Some(a.ctx.id), a.now,
                                                   PeriodStart(a.tier, a.now), PeriodEnd(a.tier, a.now))]
    {
      var verdict := CheckEligibility(rows, a.user, a.tier, a.ctx, a.now);
      awarded, created := verdict.eligible, false;
      if verdict.eligible {
        var _, c := RecordWin(a.user, a.tier, a.ctx, a.now);
        created := c;
      }
    }
  }

  // ---- What holds of every table a run can reach ----

  predicate UniqueTogether(rows: seq<Row>) {
    forall i, j :: 0 <= i < j < |rows| ==>
      !(rows[i].user == rows[j].user && rows[i].tier == rows[j].tier && rows[i].periodStart == rows[j].periodStart)
  }

  ghost predicate WellKeyed(rows: seq<Row>, now: int) {
    && (forall i :: 0 <= i < |rows| ==> rows[i].wonAt <= now && rows[i].periodStart == PeriodStart(rows[i].tier, rows[i].wonAt)
                                        && rows[i].periodEnd == PeriodEnd(rows[i].tier, rows[i].wonAt))
    && (forall i, j :: 0 <= i < j < |rows| ==> rows[i].wonAt <= rows[j].wonAt)
  }

  ghost predicate Chronological(run: seq<Attempt>) {
    forall i, j :: 0 <= i < j < |run| ==> run[i].now <= run[j].now
  }

  function Run(run: seq<Attempt>): seq<Row> {
    if run == [] then [] else Step(Run(run[..|run| - 1]), run[|run| - 1])
  }

  /** A run keeps the unique key, and each row the key of its own instant. */
  lemma {:induction false} RunIsWellKeyed(run: seq<Attempt>, now: int)
    requires Chronological(run) && forall i :: 0 <= i < |run| ==> run[i].now <= now
    ensures UniqueTogether(Run(run)) && WellKeyed(Run(run), now)
  {
    if run != [] {
      var before, a := run[..|run| - 1], run[|run| - 1];
      RunIsWellKeyed(before, a.now);
      StepKeepsKeys(Run(before), a);
      assert WellKeyed(Run(run), a.now);
    }
  }

  lemma StepKeepsKeys(rows: seq<Row>, a: Attempt)
    requires UniqueTogether(rows) && WellKeyed(rows, a.now)
    ensures UniqueTogether(Step(rows, a)) && WellKeyed(Step(rows, a), a.now)
  {
    if Step(rows, a) != rows {
      var row := NewRow(a.user, a.tier, a.ctx, a.now);
      var rows' := rows + [row];
      assert Step(rows, a) == rows' && !KeyTaken(rows, a);
      forall i | 0 <= i < |rows|
        ensures !(rows[i].user == row.user && rows[i].tier == row.tier && rows[i].periodStart == row.periodStart)
      {
      }
      assert UniqueTogether(rows');
      assert WellKeyed(rows', a.now);
    }
  }

  /** The periods a user's wins of one tier belong to never overlap. */
  lemma PeriodsOfWinsAreDisjoint(run: seq<Attempt>, i: int, j: int)
    requires Chronological(run) && 0 <= i < j < |Run(run)|
    requires Run(run)[i].user == Run(run)[j].user && Run(run)[i].tier == Run(run)[j].tier != Grand
    ensures Run(run)[i].periodEnd <= Run(run)[j].periodStart
  {
    RunIsWellKeyed(run, run[|run| - 1].now);
    var rows := Run(run);
    KeyIffSamePeriod(rows[i].tier, rows[i].wonAt, rows[j].wonAt);
    PeriodsAreOrdered(rows[i].tier, rows[i].wonAt, rows[j].wonAt);
  }

  /** Rows of one user and tier won inside a closed interval. */
  function WinsBetween(rows: seq<Row>, user: nat, tier: Tier, lo: int, hi: int): nat {
    if rows == [] then 0
    else
      var r := rows[|rows| - 1];
      WinsBetween(rows[..|rows| - 1], user, tier, lo, hi) +
      (if r.user == user && r.tier == tier && lo <= r.wonAt <= hi then 1 else 0)
  }

  ghost function WinsBetweenSet(rows: seq<Row>, user: nat, tier: Tier, lo: int, hi: int): set<int> {
    set i | 0 <= i < |rows| && rows[i].user == user && rows[i].tier == tier && lo <= rows[i].wonAt <= hi
  }

  lemma {:induction false} WinsBetweenCounts(rows: seq<Row>, user: nat, tier: Tier, lo: int, hi: int)
    ensures WinsBetween(rows, user, tier, lo, hi) == |WinsBetweenSet(rows, user, tier, lo, hi)|
  {
    if rows != [] {
      var k := |rows| - 1;
      WinsBetweenCounts(rows[..k], user, tier, lo, hi);
      WithoutLast(WinsBetweenSet(rows, user, tier, lo, hi), WinsBetweenSet(rows[..k], user, tier, lo, hi), k);
    }
  }

  lemma WinsBetweenShrinks(rows: seq<Row>, user: nat, tier: Tier, lo: int, hi: int, from: int)
    requires from <= lo
    ensures WinsBetween(rows, user, tier, lo, hi) <= WinsSince(rows, user, tier, from)
  {
  }

  lemma {:induction false} WinsBetweenSplit(rows: seq<Row>, user: nat, tier: Tier, lo: int, mid: int, hi: int)
    requires lo <= mid + 1 && mid <= hi
    ensures WinsBetween(rows, user, tier, lo, hi)
         == WinsBetween(rows, user, tier, lo, mid) + WinsBetween(rows, user, tier, mid + 1, hi)
  {
    if rows != [] {
      WinsBetweenSplit(rows[..|rows| - 1], user, tier, lo, mid, hi);
    }
  }

  /** No attempt of this user and tier runs under a cap above L. */
  ghost predicate CappedAt(run: seq<Attempt>, user: nat, tier: Tier, L: nat) {
    forall i :: 0 <= i < |run| && run[i].user == user && run[i].tier == tier ==> Limit(tier, run[i].ctx) <= L
  }

  /** A step leaves the table alone or appends one row, and appends only after
      a passing check. */
  lemma StepShape(rows: seq<Row>, a: Attempt)
    ensures Step(rows, a) == rows
         || (Passes(rows, a) && Step(rows, a) == rows + [NewRow(a.user, a.tier, a.ctx, a.now)])
  {
  }

  lemma WinsBetweenAppend(rows: seq<Row>, row: Row, user: nat, tier: Tier, lo: int, hi: int)
    ensures WinsBetween(rows + [row], user, tier, lo, hi) == WinsBetween(rows, user, tier, lo, hi) +
            (if row.user == user && row.tier == tier && lo <= row.wonAt <= hi then 1 else 0)
  {
    assert (rows + [row])[..|rows|] == rows;
  }

  lemma PassingIsBelowTheCap(rows: seq<Row>, a: Attempt)
    requires Passes(rows, a) && a.tier != Grand
    ensures WinsSince(rows, a.user, a.tier, a.now - WINDOW) < Limit(a.tier, a.ctx)
  {
  }

  /** The rolling cap has no seam: whatever the run, every closed interval of
      thirty days or less holds at most L recorded wins of a user in a tier. */
  lemma {:induction false} RollingCap(run: seq<Attempt>, user: nat, tier: Tier, L: nat, lo: int, hi: int)
    requires Chronological(run) && tier != Grand && CappedAt(run, user, tier, L)
    requires hi - lo <= WINDOW
    ensures WinsBetween(Run(run), user, tier, lo, hi) <= L
  {
    if run != [] {
      var before, a := run[..|run| - 1], run[|run| - 1];
      assert CappedAt(before, user, tier, L);
      RollingCap(before, user, tier, L, lo, hi);
      StepShape(Run(before), a);
      if Run(run) != Run(before) {
        WinsBetweenAppend(Run(before), NewRow(a.user, a.tier, a.ctx, a.now), user, tier, lo, hi);
        if a.user == user && a.tier == tier && lo <= a.now <= hi {
          PassingIsBelowTheCap(Run(before), a);
          WinsBetweenShrinks(Run(before), user, tier, lo, hi, a.now - WINDOW);
        }
      }
    }
  }

  /** A bound on every closed interval of length w bounds a span of k of them. */
  lemma {:induction false} WindowsCoverASpan(rows: seq<Row>, user: nat, tier: Tier, L: nat, w: nat, a: int, k: nat)
    requires 0 < k
    requires forall lo, hi :: hi - lo <= w ==> WinsBetween(rows, user, tier, lo, hi) <= L
    ensures WinsBetween(rows, user, tier, a, a + k * (w + 1) - 1) <= L * k
    decreases k
  {
    if k > 1 {
      var b := a + w + 1;
      WindowsCoverASpan(rows, user, tier, L, w, b, k - 1);
      assert b + (k - 1) * (w + 1) == a + k * (w + 1);
      assert 0 <= (k - 1) * (w + 1);
      WinsBetweenSplit(rows, user, tier, a, a + w, a + k * (w + 1) - 1);
      assert L * (k - 1) + L == L * k;
    }
  }

  /** Over a span of any length S, a user records at most L wins for every
      window the span begins. Clock readings are whole microseconds, so the
      windows lie thirty days and one microsecond apart. */
  lemma {:induction false} LongRunBound(run: seq<Attempt>, user: nat, tier: Tier, L: nat, a: int, S: nat)
    requires Chronological(run) && tier != Grand && CappedAt(run, user, tier, L)
    ensures WinsBetween(Run(run), user, tier, a, a + S) <= L * (S / (WINDOW + 1) + 1)
  {
    var rows := Run(run);
    forall lo, hi | hi - lo <= WINDOW ensures WinsBetween(rows, user, tier, lo, hi) <= L {
      RollingCap(run, user, tier, L, lo, hi);
    }
    var k := S / (WINDOW + 1) + 1;
    WindowsCoverASpan(rows, user, tier, L, WINDOW, a, k);
    assert S < k * (WINDOW + 1);
    WinsBetweenNarrower(rows, user, tier, a, a + S, a + k * (WINDOW + 1) - 1);
  }

  lemma WinsBetweenNarrower(rows: seq<Row>, user: nat, tier: Tier, lo: int, mid: int, hi: int)
    requires mid <= hi
    ensures WinsBetween(rows, user, tier, lo, mid) <= WinsBetween(rows, user, tier, lo, hi)
  {
  }

  // ---- The cooldown ----

  ghost predicate CooledFor(run: seq<Attempt>, user: nat, c: int) {
    forall i :: 0 <= i < |run| && run[i].user == user && run[i].tier == Daily ==> c <= Cooldown(run[i].ctx)
  }

  lemma LatestDailyIsLatest(rows: seq<Row>, user: nat, i: int)
    requires 0 <= i < |rows| && rows[i].user == user && rows[i].tier == Daily
    ensures LatestDaily(rows, user).Some? && rows[i].wonAt <= LatestDaily(rows, user).value
  {
  }

  /** Any two daily wins of a user, adjacent or not, are a cooldown apart,
      whatever the caps. */
  lemma {:induction false} CooldownSpacing(run: seq<Attempt>, user: nat, c: int, i: int, j: int)
    requires Chronological(run) && 0 < c && CooledFor(run, user, c)
    requires 0 <= i < j < |Run(run)|
    requires Run(run)[i].user == Run(run)[j].user == user && Run(run)[i].tier == Run(run)[j].tier == Daily
    ensures Run(run)[j].wonAt - Run(run)[i].wonAt >= c * DAY
  {
    var before, a := run[..|run| - 1], run[|run| - 1];
    assert CooledFor(before, user, c);
    if j < |Run(before)| {
      CooldownSpacing(before, user, c, i, j);
    } else {
      LatestDailyIsLatest(Run(before), user, i);
      assert Cooldown(a.ctx) * DAY >= c * DAY;
    }
  }
}
