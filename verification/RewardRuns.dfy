/** Runs of the reward ledger: awards under the row lock, interleaved with
    edits and go-live snapshots that read the row first and save it later. */
module RewardRuns {
  import Calendar
  import opened Options
  import opened RewardLedger

  /** `Read` is the load that an edit or a snapshot decides on; its save comes
      later and finds the row as other writers left it. */
  datatype Step =
    | Award(user: nat, action: string, reference: string, requested: int, now: int)
    | Read(id: nat)
    | SaveEdit(id: nat, change: Change)
    | SaveSnapshot(id: nat, defaults: Option<Defaults>)

  datatype State = State(row: Row, grants: seq<Grant>, held: map<nat, Row>)

  /** A snapshot save that takes effect: the row was read unlocked, and what it
      writes is lawful. */
  predicate Overwrites(s: State, id: nat, defaults: Option<Defaults>) {
    id in s.held && !s.held[id].locked && WithinBudget(Snapshot(s.held[id], defaults))
  }

  function Next(s: State, step: Step): State {
    match step
    case Award(user, action, reference, requested, now) =>
      var coins := Pays(s.row, s.grants, user, action, reference, requested, now);
      if coins == 0 then s
      else s.(row := s.row.(distributed := s.row.distributed + coins),
              grants := s.grants + [Grant(user, action, reference, coins, now)])
    case Read(id) => s.(held := s.held[id := s.row])
    case SaveEdit(id, c) =>
      if id in s.held && Acceptable(c) && PreCheck(s.held[id], c)
      then s.(row := Constrained(s.row, Edited(s.row, s.held[id], c)))
      else s
    case SaveSnapshot(id, d) =>
      if Overwrites(s, id, d) then s.(row := Snapshot(s.held[id], d)) else s
  }

  /** The state after a run from any state. */
  function RunFrom(s: State, steps: seq<Step>): State {
    if steps == [] then s else Next(RunFrom(s, steps[..|steps| - 1]), steps[|steps| - 1])
  }

  function Run(start: Row, steps: seq<Step>): State {
    RunFrom(State(start, [], map[]), steps)
  }

  /** A row that nothing has been paid from. */
  predicate Fresh(start: Row) {
    start.distributed == 0
  }

  // ---- Safety over every run ----

  /** Whatever interleaves, the constraint holds and no engagement is paid
      twice. */
  lemma {:induction false} EveryRunIsSafe(start: Row, steps: seq<Step>)
    requires Fresh(start)
    ensures WithinBudget(Run(start, steps).row) && OnePerEngagement(Run(start, steps).grants)
    ensures var grants := Run(start, steps).grants;
            forall g, h :: 0 <= g < h < |grants| ==>
              grants[g].user != grants[h].user || grants[g].action != grants[h].action || grants[g].reference != grants[h].reference
  {
    if steps != [] {
      EveryRunIsSafe(start, steps[..|steps| - 1]);
    }
  }

  lemma StepKeepsGrants(s: State, step: Step)
    ensures |s.grants| <= |Next(s, step).grants| && Next(s, step).grants[..|s.grants|] == s.grants
  {
  }

  lemma GrantedStays(a: seq<Grant>, b: seq<Grant>, user: nat, action: string, reference: string)
    requires |a| <= |b| && b[..|a|] == a && Granted(a, user, action, reference)
    ensures Granted(b, user, action, reference)
  {
    var i :| 0 <= i < |a| && a[i].user == user && a[i].action == action && a[i].reference == reference;
    assert b[i] == b[..|a|][i];
  }

  lemma PayingGrants(s: State, a: Step)
    requires a.Award? && Next(s, a) != s
    ensures Granted(Next(s, a).grants, a.user, a.action, a.reference)
  {
    var grants := Next(s, a).grants;
    assert grants[|grants| - 1].reference == a.reference;
  }

  lemma {:induction false} GrantsStay(s: State, steps: seq<Step>, user: nat, action: string, reference: string)
    requires Granted(s.grants, user, action, reference)
    ensures Granted(RunFrom(s, steps).grants, user, action, reference)
  {
    if steps != [] {
      var t := RunFrom(s, steps[..|steps| - 1]);
      GrantsStay(s, steps[..|steps| - 1], user, action, reference);
      StepKeepsGrants(t, steps[|steps| - 1]);
      GrantedStays(t.grants, Next(t, steps[|steps| - 1]).grants, user, action, reference);
    }
  }

  /** An engagement paid once is never paid again: whatever steps come between,
      another award of it leaves the state as it is. */
  lemma PaidOnce(s: State, a: Step, between: seq<Step>, b: Step)
    requires a.Award? && b.Award? && b.user == a.user && b.action == a.action && b.reference == a.reference
    requires Next(s, a) != s
    ensures var t := RunFrom(Next(s, a), between); Next(t, b) == t
  {
    PayingGrants(s, a);
    GrantsStay(Next(s, a), between, a.user, a.action, a.reference);
  }

  // ---- Conservation ----

  /** Coins a snapshot's save wiped from the total: what was paid between its
      read and its save. */
  function Lost(start: Row, steps: seq<Step>): int {
    if steps == [] then 0
    else
      var before, step := steps[..|steps| - 1], steps[|steps| - 1];
      var s := Run(start, before);
      Lost(start, before) +
      (if step.SaveSnapshot? && Overwrites(s, step.id, step.defaults) then s.row.distributed - s.held[step.id].distributed else 0)
  }

  lemma PaidAppend(grants: seq<Grant>, g: Grant)
    ensures Paid(grants + [g]) == Paid(grants) + g.coins
  {
    assert (grants + [g])[..|grants|] == grants;
  }

  /** Every coin paid is in the total or was lost to a snapshot. */
  lemma {:induction false} Conservation(start: Row, steps: seq<Step>)
    requires Fresh(start)
    ensures Paid(Run(start, steps).grants) == Run(start, steps).row.distributed + Lost(start, steps)
  {
    if steps != [] {
      var before, step := steps[..|steps| - 1], steps[|steps| - 1];
      Conservation(start, before);
      var s := Run(start, before);
      if step.Award? {
        PaidAppend(s.grants, Grant(step.user, step.action, step.reference,
                   Pays(s.row, s.grants, step.user, step.action, step.reference, step.requested, step.now), step.now));
      }
    }
  }

  /** The save at v, if it is a snapshot's and takes effect, saves the total it
      finds. */
  ghost predicate Current(start: Row, steps: seq<Step>, v: nat)
    requires v < |steps|
  {
    var s, step := Run(start, steps[..v]), steps[v];
    step.SaveSnapshot? && Overwrites(s, step.id, step.defaults) ==> s.held[step.id].distributed == s.row.distributed
  }

  ghost predicate SnapshotsAreCurrent(start: Row, steps: seq<Step>) {
    forall v: nat :: v < |steps| ==> Current(start, steps, v)
  }

  ghost predicate Accounted(start: Row, steps: seq<Step>, i: nat)
    requires i <= |steps|
  {
    Paid(Run(start, steps[..i]).grants) == Run(start, steps[..i]).row.distributed
  }

  ghost predicate AccountedUpTo(start: Row, steps: seq<Step>, k: nat)
    requires k <= |steps|
  {
    forall i: nat :: i <= k ==> Accounted(start, steps, i)
  }

  ghost predicate AlwaysAccounted(start: Row, steps: seq<Step>) {
    AccountedUpTo(start, steps, |steps|)
  }

  lemma LostStep(start: Row, steps: seq<Step>, i: nat)
    requires i < |steps|
    ensures var s, step := Run(start, steps[..i]), steps[i];
            Lost(start, steps[..i + 1]) == Lost(start, steps[..i]) +
              (if step.SaveSnapshot? && Overwrites(s, step.id, step.defaults)
               then s.row.distributed - s.held[step.id].distributed else 0)
  {
    assert steps[..i + 1][..i] == steps[..i];
  }

  /** The length of the run before the last read of a call. */
  function ReadAt(steps: seq<Step>, id: nat): (r: nat)
    ensures r <= |steps|
  {
    if steps == [] then 0
    else if steps[|steps| - 1] == Read(id) then |steps| - 1
    else ReadAt(steps[..|steps| - 1], id)
  }

  /** What a call holds is the row as it was at its last read. */
  lemma {:induction false} HeldIsRead(start: Row, steps: seq<Step>, id: nat)
    ensures id in Run(start, steps).held ==> Run(start, steps).held[id] == Run(start, steps[..ReadAt(steps, id)]).row
  {
    if steps != [] {
      var before := steps[..|steps| - 1];
      HeldIsRead(start, before, id);
      assert before[..ReadAt(before, id)] == steps[..ReadAt(before, id)];
    }
  }

  /** The save at v, if it is a snapshot's and takes effect, finds the grants
      that its call's read found: no award paid in between. */
  ghost predicate Undisturbed(start: Row, steps: seq<Step>, v: nat)
    requires v < |steps|
  {
    var s, step := Run(start, steps[..v]), steps[v];
    step.SaveSnapshot? && Overwrites(s, step.id, step.defaults) ==>
      Run(start, steps[..ReadAt(steps[..v], step.id)]).grants == s.grants
  }

  ghost predicate NoAwardInside(start: Row, steps: seq<Step>) {
    forall v: nat :: v < |steps| ==> Undisturbed(start, steps, v)
  }

  /** A step pays nothing and leaves the grants, or adds one with some coins. */
  lemma GrantsStep(s: State, step: Step)
    ensures Next(s, step).grants == s.grants
         || (|s.grants| < |Next(s, step).grants| && Paid(s.grants) < Paid(Next(s, step).grants))
  {
    if step.Award? && Next(s, step) != s {
      PaidAppend(s.grants, Next(s, step).grants[|s.grants|]);
    }
  }

  /** So the coins paid tell whether anything was granted in between. */
  lemma {:induction false} GrantsGrow(start: Row, steps: seq<Step>, i: nat)
    requires i <= |steps|
    ensures Paid(Run(start, steps[..i]).grants) < Paid(Run(start, steps).grants)
         || Run(start, steps[..i]).grants == Run(start, steps).grants
  {
    if i == |steps| {
      assert steps[..i] == steps;
    } else {
      var before := steps[..|steps| - 1];
      GrantsGrow(start, before, i);
      assert before[..i] == steps[..i];
      GrantsStep(Run(start, before), steps[|steps| - 1]);
    }
  }

  /** Accounted up to a save, the save is current exactly when undisturbed. */
  lemma CurrentIffUndisturbed(start: Row, steps: seq<Step>, v: nat)
    requires v < |steps| && AccountedUpTo(start, steps, v)
    ensures Undisturbed(start, steps, v) <==> Current(start, steps, v)
  {
    var before, step := steps[..v], steps[v];
    if step.SaveSnapshot? {
      var r := ReadAt(before, step.id);
      HeldIsRead(start, before, step.id);
      assert before[..r] == steps[..r];
      GrantsGrow(start, before, r);
      assert Accounted(start, steps, r) && Accounted(start, steps, v);
    }
  }

  lemma AccountedStep(start: Row, steps: seq<Step>, v: nat)
    requires Fresh(start) && v < |steps| && Accounted(start, steps, v)
    ensures Accounted(start, steps, v + 1) <==> Current(start, steps, v)
  {
    Conservation(start, steps[..v]);
    Conservation(start, steps[..v + 1]);
    LostStep(start, steps, v);
  }

  lemma {:induction false} AccountedUpToIff(start: Row, steps: seq<Step>, k: nat)
    requires Fresh(start) && k <= |steps|
    ensures AccountedUpTo(start, steps, k) <==> forall v: nat :: v < k ==> Current(start, steps, v)
    ensures AccountedUpTo(start, steps, k) <==> forall v: nat :: v < k ==> Undisturbed(start, steps, v)
  {
    if k == 0 {
      Conservation(start, steps[..0]);
    } else {
      AccountedUpToIff(start, steps, k - 1);
      if AccountedUpTo(start, steps, k - 1) {
        CurrentIffUndisturbed(start, steps, k - 1);
        AccountedStep(start, steps, k - 1);
      }
    }
  }

  /** The total equals the sum of the grants at every point of a run exactly
      when no award pays between an unlocked read and the snapshot save that
      uses it; that is, when no snapshot saves an outdated total. */
  lemma AccountedIff(start: Row, steps: seq<Step>)
    requires Fresh(start)
    ensures AlwaysAccounted(start, steps) <==> NoAwardInside(start, steps)
    ensures AlwaysAccounted(start, steps) <==> SnapshotsAreCurrent(start, steps)
  {
    AccountedUpToIff(start, steps, |steps|);
  }

  /** And then a budget bounds what was really paid, and the remaining budget
      and the exhausted flag tell the truth about it. */
  lemma BudgetIsHonest(start: Row, steps: seq<Step>)
    requires Fresh(start) && NoAwardInside(start, steps)
    ensures var s := Run(start, steps);
            s.row.budget != 0 ==>
              && Paid(s.grants) <= s.row.budget
              && RemainingBudget(s.row) == Some(s.row.budget - Paid(s.grants))
              && (IsExhausted(s.row) <==> Paid(s.grants) == s.row.budget)
              && (IsExhausted(s.row) <==> RemainingBudget(s.row) == Some(0))
    ensures var s := Run(start, steps); s.row.budget == 0 ==> RemainingBudget(s.row) == None && !IsExhausted(s.row)
  {
    EveryRunIsSafe(start, steps);
    AccountedAtTheEnd(start, steps);
  }

  lemma AccountedAtTheEnd(start: Row, steps: seq<Step>)
    requires Fresh(start) && NoAwardInside(start, steps)
    ensures Paid(Run(start, steps).grants) == Run(start, steps).row.distributed
  {
    AccountedIff(start, steps);
    assert Accounted(start, steps, |steps|);
    assert steps[..|steps|] == steps;
  }

  /** One award between a snapshot's read and its save is enough to overspend:
      the wiped total lets the whole budget be paid once more. An award asks for
      a snapshot only when it resolved no active row of the campaign's own, so
      the row read here was created or activated since. */
  lemma SnapshotRace(budget: nat, first: nat, user: nat, action: string, now: int)
    requires 0 < first <= budget <= MAX_COLUMN
    ensures var start := Row(budget, 0, 0, 0, true, true, false);
            var run := [Read(0), Award(user, action, "a", first, now),
                        SaveSnapshot(0, Some(Defaults(budget, 0, 0, true))), Award(user, action, "b", budget, now)];
            Paid(Run(start, run).grants) == budget + first && Run(start, run).row.distributed == budget
  {
    var start := Row(budget, 0, 0, 0, true, true, false);
    var d := Some(Defaults(budget, 0, 0, true));
    var a, b := Award(user, action, "a", first, now), Award(user, action, "b", budget, now);
    RunOfFour(start, Read(0), a, SaveSnapshot(0, d), b);
    var g := Grant(user, action, "a", first, now);
    var s1 := Next(State(start, [], map[]), Read(0));
    var s2 := Next(s1, a);
    assert s2.grants == [g] && s2.row.distributed == first;
    var s3 := Next(s2, SaveSnapshot(0, d));
    assert s3.grants == [g] && s3.row.distributed == 0;
    assert "a" != "b";
    assert [g][0] == g && !Granted([g], user, action, "b");
    PaidAppend([], g);
    assert [] + [g] == [g];
    PaidAppend([g], Grant(user, action, "b", budget, now));
  }

  lemma RunOfFour(start: Row, a: Step, b: Step, c: Step, d: Step)
    ensures Run(start, [a, b, c, d]) == Next(Next(Next(Next(State(start, [], map[]), a), b), c), d)
  {
    RunAppend(start, [], a);
    RunAppend(start, [a], b);
    RunAppend(start, [a, b], c);
    RunAppend(start, [a, b, c], d);
    assert [] + [a] == [a] && [a] + [b] == [a, b] && [a, b] + [c] == [a, b, c] && [a, b, c] + [d] == [a, b, c, d];
  }

  lemma RunAppend(start: Row, steps: seq<Step>, step: Step)
    ensures Run(start, steps + [step]) == Next(Run(start, steps), step)
  {
    assert (steps + [step])[..|steps|] == steps;
  }

  // ---- Edits ----

  /** What an edit or snapshot read was a lawful row, and its total has not
      since shrunk. */
  lemma {:induction false} ReadsAreOld(start: Row, steps: seq<Step>)
    requires Fresh(start) && SnapshotsAreCurrent(start, steps)
    ensures var s := Run(start, steps);
            forall id :: id in s.held ==> WithinBudget(s.held[id]) && s.held[id].distributed <= s.row.distributed
  {
    if steps != [] {
      PrefixIsCurrent(start, steps);
      ReadsAreOld(start, steps[..|steps| - 1]);
      EveryRunIsSafe(start, steps[..|steps| - 1]);
    }
  }

  lemma PrefixIsCurrent(start: Row, steps: seq<Step>)
    requires steps != [] && SnapshotsAreCurrent(start, steps)
    ensures SnapshotsAreCurrent(start, steps[..|steps| - 1])
    ensures var s, last := Run(start, steps[..|steps| - 1]), steps[|steps| - 1];
            last.SaveSnapshot? && Overwrites(s, last.id, last.defaults) ==> s.held[last.id].distributed == s.row.distributed
  {
    var before := steps[..|steps| - 1];
    assert Current(start, steps, |before|);
    forall v: nat | v < |before| ensures Current(start, before, v) {
      assert Current(start, steps, v);
      assert before[..v] == steps[..v];
    }
  }

  /** Though an edit checks the budget against a row it may have read long ago,
      it never refuses what the constraint would have stored, as long as the
      total has not shrunk since: the outcome is decided by the row as saved. */
  lemma StaleCheckIsHarmless(s: State, id: nat, c: Change)
    requires id in s.held && WithinBudget(s.held[id]) && WithinBudget(s.row) && s.held[id].distributed <= s.row.distributed
    requires Acceptable(c)
    ensures var saved := Edited(s.row, s.held[id], c);
            Next(s, SaveEdit(id, c)).row == if saved.budget == 0 || saved.distributed <= saved.budget then saved else s.row
  {
  }

  /** Which is so throughout a run in which no award pays inside a snapshot. */
  lemma EditsAreJudgedWhenSaved(start: Row, steps: seq<Step>, id: nat, c: Change)
    requires Fresh(start) && NoAwardInside(start, steps)
    requires id in Run(start, steps).held && Acceptable(c)
    ensures var s := Run(start, steps);
            var saved := Edited(s.row, s.held[id], c);
            Next(s, SaveEdit(id, c)).row == if saved.budget == 0 || saved.distributed <= saved.budget then saved else s.row
  {
    AccountedIff(start, steps);
    ReadsAreOld(start, steps);
    EveryRunIsSafe(start, steps);
    StaleCheckIsHarmless(Run(start, steps), id, c);
  }

  // ---- Ceilings per user ----

  /** Every award to the user meets a ceiling on the row, of at most P. */
  ghost predicate UserCeiling(start: Row, steps: seq<Step>, user: nat, P: nat) {
    forall i :: 0 <= i < |steps| && steps[i].Award? && steps[i].user == user ==> 0 < Run(start, steps[..i]).row.maxPerUser <= P
  }

  ghost predicate DailyCeiling(start: Row, steps: seq<Step>, user: nat, M: nat) {
    forall i :: 0 <= i < |steps| && steps[i].Award? && steps[i].user == user ==> 0 < Run(start, steps[..i]).row.maxDaily <= M
  }

  lemma PrefixCeilings(start: Row, steps: seq<Step>, user: nat, c: nat)
    requires steps != []
    ensures UserCeiling(start, steps, user, c) ==> UserCeiling(start, steps[..|steps| - 1], user, c)
    ensures DailyCeiling(start, steps, user, c) ==> DailyCeiling(start, steps[..|steps| - 1], user, c)
  {
    var before := steps[..|steps| - 1];
    assert forall i :: 0 <= i < |before| ==> before[..i] == steps[..i];
  }

  lemma EarnedAppend(grants: seq<Grant>, g: Grant, user: nat)
    ensures EarnedTotal(grants + [g], user) == EarnedTotal(grants, user) + (if g.user == user then g.coins else 0)
  {
    assert (grants + [g])[..|grants|] == grants;
  }

  /** No run pays a user more than the ceiling in force. */
  lemma {:induction false} UserCeilingHolds(start: Row, steps: seq<Step>, user: nat, P: nat)
    requires UserCeiling(start, steps, user, P)
    ensures EarnedTotal(Run(start, steps).grants, user) <= P
  {
    if steps != [] {
      var before, step := steps[..|steps| - 1], steps[|steps| - 1];
      PrefixCeilings(start, steps, user, P);
      UserCeilingHolds(start, before, user, P);
      var s := Run(start, before);
      assert steps[..|steps| - 1] == before;
      if step.Award? {
        var coins := Pays(s.row, s.grants, step.user, step.action, step.reference, step.requested, step.now);
        EarnedAppend(s.grants, Grant(step.user, step.action, step.reference, coins, step.now), user);
      }
    }
  }

  datatype Zone = Utc | Local

  function DayOf(zone: Zone, t: int): int {
    match zone
    case Utc => UtcDay(t)
    case Local => LocalDay(t)
  }

  /** What a user was paid on one day of a calendar. */
  function PaidOnDay(grants: seq<Grant>, user: nat, zone: Zone, day: int): nat {
    if grants == [] then 0
    else
      var g := grants[|grants| - 1];
      PaidOnDay(grants[..|grants| - 1], user, zone, day) + (if g.user == user && DayOf(zone, g.at) == day then g.coins else 0)
  }

  lemma PaidOnDayAppend(grants: seq<Grant>, g: Grant, user: nat, zone: Zone, day: int)
    ensures PaidOnDay(grants + [g], user, zone, day) == PaidOnDay(grants, user, zone, day) +
            (if g.user == user && DayOf(zone, g.at) == day then g.coins else 0)
  {
    assert (grants + [g])[..|grants|] == grants;
  }

  /** The mixed query sees all of today on either calendar. */
  lemma {:induction false} TodayIsCounted(grants: seq<Grant>, user: nat, zone: Zone, now: int)
    ensures PaidOnDay(grants, user, zone, DayOf(zone, now)) <= EarnedSince(grants, user, UtcDay(now))
  {
    if grants != [] {
      TodayIsCounted(grants[..|grants| - 1], user, zone, now);
      var g := grants[|grants| - 1];
      assert UtcDay(g.at) <= LocalDay(g.at) && UtcDay(now) <= LocalDay(now);
    }
  }

  /** So the daily ceiling holds for every day of both calendars, though the
      code takes the date from one and compares it on the other. */
  lemma {:induction false} DailyCeilingHolds(start: Row, steps: seq<Step>, user: nat, M: nat, zone: Zone, day: int)
    requires DailyCeiling(start, steps, user, M)
    ensures PaidOnDay(Run(start, steps).grants, user, zone, day) <= M
  {
    if steps != [] {
      var before, step := steps[..|steps| - 1], steps[|steps| - 1];
      PrefixCeilings(start, steps, user, M);
      DailyCeilingHolds(start, before, user, M, zone, day);
      var s := Run(start, before);
      assert steps[..|steps| - 1] == before;
      if step.Award? {
        var coins := Pays(s.row, s.grants, step.user, step.action, step.reference, step.requested, step.now);
        PaidOnDayAppend(s.grants, Grant(step.user, step.action, step.reference, coins, step.now), user, zone, day);
        TodayIsCounted(s.grants, user, zone, step.now);
      }
    }
  }

  /** The price of mixing them: in the last three hours of a UTC day a user is
      refused for coins earned a full day before, on neither calendar's today. */
  lemma DailyCeilingOutlastsTheDay(row: Row, user: nat, action: string, day: int, t: int, requested: int)
    requires 0 < row.maxDaily && Calendar.DAY - LOCAL_OFFSET <= t < Calendar.DAY
    ensures var g := Grant(user, action, "a", row.maxDaily, (day - 1) * Calendar.DAY + t);
            var now := day * Calendar.DAY + t;
            && PaidOnDay([g], user, Utc, UtcDay(now)) == 0 && PaidOnDay([g], user, Local, LocalDay(now)) == 0
            && Pays(row, [g], user, action, "b", requested, now) == 0
  {
    var at := (day - 1) * Calendar.DAY + t;
    var now := day * Calendar.DAY + t;
    DayAt(day - 1, t);
    DayAt(day, t);
    var g := Grant(user, action, "a", row.maxDaily, at);
    assert EarnedSince([g], user, UtcDay(now)) == row.maxDaily;
  }

  /** Every grant of a ledger lies at or before now. */
  ghost predicate DatedBy(grants: seq<Grant>, now: int) {
    forall i :: 0 <= i < |grants| ==> grants[i].at <= now
  }

  /** The ceiling's query sees exactly what was paid on the local day. */
  ghost predicate SeesToday(grants: seq<Grant>, user: nat, now: int) {
    EarnedSince(grants, user, UtcDay(now)) == PaidOnDay(grants, user, Local, LocalDay(now))
  }

  lemma OneDayAtATime(at: int, now: int)
    requires at <= now && now % Calendar.DAY < Calendar.DAY - LOCAL_OFFSET
    ensures LocalDay(at) >= UtcDay(now) <==> LocalDay(at) == LocalDay(now)
  {
    var d, r := now / Calendar.DAY, now % Calendar.DAY;
    assert now == d * Calendar.DAY + r;
    assert now + LOCAL_OFFSET == d * Calendar.DAY + (r + LOCAL_OFFSET);
  }

  lemma {:induction false} SeesTodayBeforeTheLastHours(grants: seq<Grant>, user: nat, now: int)
    requires DatedBy(grants, now) && now % Calendar.DAY < Calendar.DAY - LOCAL_OFFSET
    ensures SeesToday(grants, user, now)
  {
    if grants != [] {
      SeesTodayBeforeTheLastHours(grants[..|grants| - 1], user, now);
      OneDayAtATime(grants[|grants| - 1].at, now);
    }
  }

  /** At an instant, the query is exact for every ledger exactly outside the last
      three hours of the UTC day, when the local day has already changed. */
  lemma SeesTodayIff(user: nat, now: int)
    ensures (forall grants :: DatedBy(grants, now) ==> SeesToday(grants, user, now))
       <==> now % Calendar.DAY < Calendar.DAY - LOCAL_OFFSET
  {
    var day, t := now / Calendar.DAY, now % Calendar.DAY;
    if t < Calendar.DAY - LOCAL_OFFSET {
      forall grants | DatedBy(grants, now) ensures SeesToday(grants, user, now) {
        SeesTodayBeforeTheLastHours(grants, user, now);
      }
    } else {
      assert now == day * Calendar.DAY + t;
      DayAt(day, t);
      DayAt(day - 1, t);
      var g := Grant(user, "", "", 1, now - Calendar.DAY);
      assert g.at == (day - 1) * Calendar.DAY + t;
      assert EarnedSince([g], user, UtcDay(now)) == 1 && PaidOnDay([g], user, Local, LocalDay(now)) == 0;
      assert DatedBy([g], now) && !SeesToday([g], user, now);
    }
  }

  lemma DayAt(day: int, t: int)
    requires Calendar.DAY - LOCAL_OFFSET <= t < Calendar.DAY
    ensures UtcDay(day * Calendar.DAY + t) == day && LocalDay(day * Calendar.DAY + t) == day + 1
  {
    assert (day * Calendar.DAY + t + LOCAL_OFFSET) == (day + 1) * Calendar.DAY + (t + LOCAL_OFFSET - Calendar.DAY);
  }
}
