/** Engagement rewards of one campaign: its coin configuration row, the grants
    paid against it, and the three writers that race for the row. */
module RewardLedger {
  import opened Calendar
  import opened Options

  /** The deployment's time zone is three hours ahead of UTC. */
  const LOCAL_OFFSET: int := 10_800_000_000

  /** A positive integer column holds no more than this. */
  const MAX_COLUMN: int := 2_147_483_647

  datatype Row = Row(budget: nat, distributed: nat, maxPerUser: nat, maxDaily: nat, enabled: bool, active: bool, locked: bool)

  datatype Grant = Grant(user: nat, action: string, reference: string, coins: nat, at: int)

  function RemainingBudget(row: Row): Option<nat> {
    if row.budget == 0 then None else Some(if row.distributed <= row.budget then row.budget - row.distributed else 0)
  }

  predicate IsExhausted(row: Row) {
    row.budget != 0 && row.distributed >= row.budget
  }

  /** The check constraint on the row. */
  predicate WithinBudget(row: Row) {
    row.budget == 0 || row.distributed <= row.budget
  }

  /** None without a budget; else what is left of it, or nothing once as much has
      been paid, which is when it is exhausted. */
  lemma RemainingIs(row: Row)
    ensures row.budget == 0 ==> RemainingBudget(row) == None && !IsExhausted(row)
    ensures 0 < row.budget && row.distributed < row.budget ==>
      RemainingBudget(row).Some? && RemainingBudget(row).value + row.distributed == row.budget && !IsExhausted(row)
    ensures 0 < row.budget <= row.distributed ==> RemainingBudget(row) == Some(0) && IsExhausted(row)
  {
  }

  // ---- Sums over grants ----

  function Paid(grants: seq<Grant>): nat {
    if grants == [] then 0 else Paid(grants[..|grants| - 1]) + grants[|grants| - 1].coins
  }

  function EarnedTotal(grants: seq<Grant>, user: nat): nat {
    if grants == [] then 0
    else
      var g := grants[|grants| - 1];
      EarnedTotal(grants[..|grants| - 1], user) + (if g.user == user then g.coins else 0)
  }

  function UtcDay(t: int): int {
    t / DAY
  }

  function LocalDay(t: int): int {
    (t + LOCAL_OFFSET) / DAY
  }

  /** The database compares a grant's local date; the caller's date is UTC. */
  function EarnedSince(grants: seq<Grant>, user: nat, day: int): nat {
    if grants == [] then 0
    else
      var g := grants[|grants| - 1];
      EarnedSince(grants[..|grants| - 1], user, day) + (if g.user == user && LocalDay(g.at) >= day then g.coins else 0)
  }

  predicate Granted(grants: seq<Grant>, user: nat, action: string, reference: string) {
    exists i :: 0 <= i < |grants| && grants[i].user == user && grants[i].action == action && grants[i].reference == reference
  }

  predicate OnePerEngagement(grants: seq<Grant>) {
    forall i, j :: 0 <= i < j < |grants| ==>
      !(grants[i].user == grants[j].user && grants[i].action == grants[j].action && grants[i].reference == grants[j].reference)
  }

  // ---- Awarding ----

  function Min(a: int, b: int): int {
    if a < b then a else b
  }

  /** The amount left of a request after a ceiling, where 0 sets no ceiling. */
  function Capped(amount: int, ceiling: nat, used: nat): int {
    if ceiling == 0 then amount else Min(amount, ceiling - used)
  }

  /** What an award pays under the row's lock, before the uniqueness of the
      grant is tested; 0 or less declines. */
  function Payable(row: Row, grants: seq<Grant>, user: nat, amount: int, now: int): int {
    if !row.enabled || !row.active then 0
    else
      Capped(Capped(Capped(amount, row.budget, row.distributed),
                    row.maxPerUser, EarnedTotal(grants, user)),
             row.maxDaily, EarnedSince(grants, user, UtcDay(now)))
  }

  /** What it pays in the end: nothing for an engagement already granted, and
      nothing when the total would not fit its column, where the transaction
      fails. */
  function Pays(row: Row, grants: seq<Grant>, user: nat, action: string, reference: string, amount: int, now: int): nat {
    var p := Payable(row, grants, user, amount, now);
    if amount <= 0 || p <= 0 || Granted(grants, user, action, reference) || row.distributed + p > MAX_COLUMN then 0 else p
  }

  /** An amount the configuration lets this award pay: no more than asked, and
      within every ceiling once added to what it counts against. */
  predicate Allowed(row: Row, grants: seq<Grant>, user: nat, amount: int, now: int, coins: int) {
    && row.enabled && row.active && 0 < coins <= amount
    && (row.budget != 0 ==> row.distributed + coins <= row.budget)
    && (row.maxPerUser != 0 ==> EarnedTotal(grants, user) + coins <= row.maxPerUser)
    && (row.maxDaily != 0 ==> EarnedSince(grants, user, UtcDay(now)) + coins <= row.maxDaily)
  }

  /** Some allowed amount would take the total out of its column. */
  ghost predicate Outgrows(row: Row, grants: seq<Grant>, user: nat, amount: int, now: int) {
    exists y :: Allowed(row, grants, user, amount, now, y) && row.distributed + y > MAX_COLUMN
  }

  /** An award of something not yet granted pays the largest allowed amount, and
      nothing only when none is allowed or the largest would outgrow its column. */
  lemma PaysTheMost(row: Row, grants: seq<Grant>, user: nat, action: string, reference: string, amount: int, now: int)
    requires forall g :: g in grants ==> !(g.user == user && g.action == action && g.reference == reference)
    ensures var paid := Pays(row, grants, user, action, reference, amount, now);
            && (paid > 0 <==> (exists x :: Allowed(row, grants, user, amount, now, x)) && !Outgrows(row, grants, user, amount, now))
            && (paid > 0 ==> Allowed(row, grants, user, amount, now, paid))
            && (paid > 0 ==> forall x :: Allowed(row, grants, user, amount, now, x) ==> x <= paid)
  {
    var p := Payable(row, grants, user, amount, now);
    if 0 < amount && 0 < p {
      assert Allowed(row, grants, user, amount, now, p);
    }
  }

  /** And nothing for an engagement that has a grant. */
  lemma PaysNothingAgain(row: Row, grants: seq<Grant>, g: Grant, amount: int, now: int)
    requires g in grants
    ensures Pays(row, grants, g.user, g.action, g.reference, amount, now) == 0
  {
  }

  datatype Outcome = Declined | AlreadyPaid | Failed | Rewarded(coins: nat)

  // ---- Edits and snapshots ----

  /** The fields an administrator's request proposes. */
  datatype Change = Change(budget: Option<int>, maxPerUser: Option<int>, maxDaily: Option<int>,
                           enabled: Option<bool>, active: Option<bool>)

  /** The organization's defaults a snapshot copies. */
  datatype Defaults = Defaults(budget: nat, maxPerUser: nat, maxDaily: nat, enabled: bool)

  predicate FitsColumn(v: Option<int>) {
    v.Some? ==> 0 <= v.value <= MAX_COLUMN
  }

  predicate Acceptable(c: Change) {
    FitsColumn(c.budget) && FitsColumn(c.maxPerUser) && FitsColumn(c.maxDaily)
  }

  /** The check an edit makes on the row it read, before it saves anything. */
  predicate PreCheck(read: Row, c: Change) {
    var budget := if c.budget.Some? then c.budget.value else read.budget;
    budget == 0 || budget >= read.distributed
  }

  function Written(proposed: Option<int>, read: nat, current: nat): int {
    if proposed.Some? && proposed.value != read then proposed.value else current
  }

  function WrittenFlag(proposed: Option<bool>, read: bool, current: bool): bool {
    if proposed.Some? && proposed.value != read then proposed.value else current
  }

  /** Only the fields that differ from the row as read are saved. */
  function Edited(row: Row, read: Row, c: Change): Row
    requires Acceptable(c)
  {
    row.(budget := Written(c.budget, read.budget, row.budget),
         maxPerUser := Written(c.maxPerUser, read.maxPerUser, row.maxPerUser),
         maxDaily := Written(c.maxDaily, read.maxDaily, row.maxDaily),
         enabled := WrittenFlag(c.enabled, read.enabled, row.enabled),
         active := WrittenFlag(c.active, read.active, row.active))
  }

  /** A snapshot saves the whole row as it read it, the distributed total
      included, with the defaults and the lock written over it. */
  function Snapshot(read: Row, defaults: Option<Defaults>): Row {
    var base := read.(locked := true);
    match defaults
    case None => base
    case Some(d) => base.(budget := d.budget, maxPerUser := d.maxPerUser, maxDaily := d.maxDaily, enabled := d.enabled)
  }

  /** The database refuses a row outside its constraint. */
  function Constrained(row: Row, saved: Row): Row {
    if WithinBudget(saved) then saved else row
  }

  class CampaignRewards {
    var row: Row
    var grants: seq<Grant>

    constructor (row: Row)
      ensures this.row == row && grants == []
    {
      this.row := row;
      grants := [];
    }

    /** The body of the award transaction: grant and total change together or
        not at all. */
    method Award(user: nat, action: string, reference: string, requested: int, now: int) returns (outcome: Outcome)
      requires WithinBudget(row) && OnePerEngagement(grants)
      modifies this
      ensures WithinBudget(row) && OnePerEngagement(grants)
      ensures outcome.Rewarded? <==> old(Pays(row, grants, user, action, reference, requested, now)) > 0
      ensures outcome.Rewarded? ==>
        && outcome.coins == old(Pays(row, grants, user, action, reference, requested, now))
        && row == old(row).(distributed := old(row.distributed) + outcome.coins)
        && grants == old(grants) + [Grant(user, action, reference, outcome.coins, now)]
      ensures !outcome.Rewarded? ==> row == old(row) && grants == old(grants)
      ensures outcome.Rewarded? ==>
        && old(Allowed(row, grants, user, requested, now, outcome.coins))
        && (forall x :: old(Allowed(row, grants, user, requested, now, x)) ==> x <= outcome.coins)
      ensures outcome == Declined <==> forall x :: !old(Allowed(row, grants, user, requested, now, x))
      ensures outcome == AlreadyPaid <==>
        && (exists x :: old(Allowed(row, grants, user, requested, now, x)))
        && (exists g :: g in old(grants) && g.user == user && g.action == action && g.reference == reference)
      ensures outcome == Failed <==>
        && old(Outgrows(row, grants, user, requested, now))
        && (forall g :: g in old(grants) ==> !(g.user == user && g.action == action && g.reference == reference))
    {
      if requested <= 0 || !row.enabled || !row.active {
        return Declined;
      }
      var amount := requested;
      if row.budget != 0 {
        var remaining := row.budget - row.distributed;
        if remaining <= 0 { return Declined; }
        amount := Min(amount, remaining);
      }
      if row.maxPerUser != 0 {
        var headroom := row.maxPerUser - EarnedTotal(grants, user);
        if headroom <= 0 { return Declined; }
        amount := Min(amount, headroom);
      }
      if row.maxDaily != 0 {
        var headroom := row.maxDaily - EarnedSince(grants, user, UtcDay(now));
        if headroom <= 0 { return Declined; }
        amount := Min(amount, headroom);
      }
      assert Allowed(row, grants, user, requested, now, amount);
      if Granted(grants, user, action, reference) {
        return AlreadyPaid;
      }
      if row.distributed + amount > MAX_COLUMN {
        return Failed;
      }
      grants := grants + [Grant(user, action, reference, amount, now)];
      row := row.(distributed := row.distributed + amount);
      outcome := Rewarded(amount);
    }

    /** The save of an edit decided on a row read earlier. Nothing is written
        when a value is refused, by the edit or by the database. */
    method ApplyChanges(read: Row, c: Change) returns (accepted: bool)
      requires WithinBudget(row)
      modifies this
      ensures WithinBudget(row) && grants == old(grants) && row.distributed == old(row.distributed)
      ensures accepted <==>
        && (c.budget.Some? ==> 0 <= c.budget.value <= MAX_COLUMN)
        && (c.maxPerUser.Some? ==> 0 <= c.maxPerUser.value <= MAX_COLUMN)
        && (c.maxDaily.Some? ==> 0 <= c.maxDaily.value <= MAX_COLUMN)
        && (var asked := if c.budget.Some? then c.budget.value else read.budget; asked == 0 || asked >= read.distributed)
        && (var saved := if c.budget.Some? && c.budget.value != read.budget then c.budget.value else old(row.budget);
            saved == 0 || saved >= old(row.distributed))
      ensures row == if accepted then old(Edited(row, read, c)) else old(row)
      ensures accepted ==>
        && row.budget == (if c.budget.Some? && c.budget.value != read.budget then c.budget.value else old(row.budget))
        && row.maxPerUser == (if c.maxPerUser.Some? && c.maxPerUser.value != read.maxPerUser then c.maxPerUser.value else old(row.maxPerUser))
        && row.maxDaily == (if c.maxDaily.Some? && c.maxDaily.value != read.maxDaily then c.maxDaily.value else old(row.maxDaily))
        && row.enabled == (if c.enabled.Some? && c.enabled.value != read.enabled then c.enabled.value else old(row.enabled))
        && row.active == (if c.active.Some? && c.active.value != read.active then c.active.value else old(row.active))
        && row.locked == old(row.locked)
    {
      if !Acceptable(c) {
        return false;
      }
      var budget := if c.budget.Some? then c.budget.value else read.budget;
      if budget != 0 && budget < read.distributed {
        return false;
      }
      var next := Edited(row, read, c);
      accepted := WithinBudget(next);
      if accepted {
        row := next;
      }
    }

    /** The save of a snapshot decided on a row read earlier. A locked row is
        left alone. */
    method SnapshotForCampaign(read: Row, defaults: Option<Defaults>) returns (saved: bool)
      requires WithinBudget(row)
      modifies this
      ensures WithinBudget(row) && grants == old(grants)
      ensures saved <==> !read.locked && WithinBudget(Snapshot(read, defaults))
      ensures row == if saved then Snapshot(read, defaults) else old(row)
      ensures saved ==> row.locked && row.distributed == read.distributed && row.active == read.active
      ensures saved && defaults == None ==> row == read.(locked := true)
      ensures saved && defaults.Some? ==>
        Defaults(row.budget, row.maxPerUser, row.maxDaily, row.enabled) == defaults.value
    {
      if read.locked {
        return false;
      }
      var next := Snapshot(read, defaults);
      saved := WithinBudget(next);
      if saved {
        row := next;
      }
    }
  }
}
