/** How many wins of a tier thirty days can hold when selections overlap: the
    bound on overlapping calls, and the number of periods, are both reached. */
module SelectionBounds {
  import opened Calendar
  import opened Options
  import opened Sets
  import opened WinPeriods
  import opened WinLedger
  import opened SelectionRace

  // ---- The periods that thirty days touch ----

  /** Days, weeks and months numbered in order. */
  function Number(tier: Tier, t: nat): int {
    match tier
    case Daily => t / DAY
    case Weekly => t / DAY / 7
    case Monthly => FromInstant(t).year * 12 + FromInstant(t).month
    case Grand => t / DAY
  }

  /** Thirty days, both ends included, touch at most so many periods. */
  function Periods(tier: Tier): nat {
    match tier
    case Daily => 31
    case Weekly => 6
    case Monthly => 3
    case Grand => 31
  }

  lemma SameNumber(tier: Tier, s: nat, t: nat)
    ensures SamePeriod(tier, s, t) <==> Number(tier, s) == Number(tier, t)
  {
  }

  lemma MonthsInOrder(s: nat, t: nat)
    requires s <= t
    ensures Number(Monthly, s) <= Number(Monthly, t)
  {
    var c, d := FromInstant(s), FromInstant(t);
    if MonthBefore(d.year, d.month, c.year, c.month) {
      LaterMonthsStartLater(d.year, d.month, c.year, c.month);
    }
  }

  lemma ThreeMonthsOn(y: int, m: int, y': int, m': int)
    requires 1 <= y && 1 <= m <= 12 && 1 <= y' && 1 <= m' <= 12 && y * 12 + m + 3 <= y' * 12 + m'
    ensures FirstDay(y, m) + DaysInMonth(y, m) + 56 <= FirstDay(y', m')
  {
    var (y1, m1) := NextMonth(y, m);
    var (y2, m2) := NextMonth(y1, m1);
    MonthsAbut(y, m);
    MonthsAbut(y1, m1);
    LaterMonthsStartLater(y2, m2, y', m');
  }

  lemma MonthsTouched(s: nat, t: nat)
    requires s <= t <= s + WINDOW
    ensures Number(Monthly, t) <= Number(Monthly, s) + 2
  {
    var c, d := FromInstant(s), FromInstant(t);
    if Number(Monthly, t) >= Number(Monthly, s) + 3 {
      ThreeMonthsOn(c.year, c.month, d.year, d.month);
      assert false;
    }
  }

  lemma PeriodsTouched(tier: Tier, s: nat, t: nat)
    requires s <= t <= s + WINDOW
    ensures Number(tier, s) <= Number(tier, t) < Number(tier, s) + Periods(tier)
  {
    if tier == Monthly {
      MonthsInOrder(s, t);
      MonthsTouched(s, t);
    }
  }

  // ---- At most one win for each of them ----

  predicate Inside(r: Row, user: nat, tier: Tier, lo: int, hi: int) {
    r.user == user && r.tier == tier && lo <= r.wonAt <= hi
  }

  /** The periods of the user's wins inside an interval. */
  function Won(rows: seq<Row>, user: nat, tier: Tier, lo: int, hi: int): set<int> {
    if rows == [] then {}
    else
      var r := rows[|rows| - 1];
      Won(rows[..|rows| - 1], user, tier, lo, hi) + (if Inside(r, user, tier, lo, hi) then {Number(tier, r.wonAt)} else {})
  }

  /** No two wins of the user in the tier share a period. */
  ghost predicate OnePerPeriod(rows: seq<Row>, user: nat, tier: Tier) {
    forall i, j :: 0 <= i < j < |rows| && rows[i].user == rows[j].user == user && rows[i].tier == rows[j].tier == tier
      ==> Number(tier, rows[i].wonAt) != Number(tier, rows[j].wonAt)
  }

  lemma {:induction false} WonIs(rows: seq<Row>, user: nat, tier: Tier, lo: int, hi: int, n: int)
    requires n in Won(rows, user, tier, lo, hi)
    ensures exists i :: 0 <= i < |rows| && Inside(rows[i], user, tier, lo, hi) && Number(tier, rows[i].wonAt) == n
  {
    var k := |rows| - 1;
    if !(Inside(rows[k], user, tier, lo, hi) && Number(tier, rows[k].wonAt) == n) {
      WonIs(rows[..k], user, tier, lo, hi, n);
    }
  }

  lemma NotWonBefore(rows: seq<Row>, user: nat, tier: Tier, lo: int, hi: int)
    requires rows != [] && OnePerPeriod(rows, user, tier) && Inside(rows[|rows| - 1], user, tier, lo, hi)
    ensures Number(tier, rows[|rows| - 1].wonAt) !in Won(rows[..|rows| - 1], user, tier, lo, hi)
  {
    var k := |rows| - 1;
    if Number(tier, rows[k].wonAt) in Won(rows[..k], user, tier, lo, hi) {
      WonIs(rows[..k], user, tier, lo, hi, Number(tier, rows[k].wonAt));
    }
  }

  lemma {:induction false} WinsArePeriods(rows: seq<Row>, user: nat, tier: Tier, lo: int, hi: int)
    requires OnePerPeriod(rows, user, tier)
    ensures WinsBetween(rows, user, tier, lo, hi) == |Won(rows, user, tier, lo, hi)|
  {
    if rows != [] {
      var k := |rows| - 1;
      WinsArePeriods(rows[..k], user, tier, lo, hi);
      if Inside(rows[k], user, tier, lo, hi) {
        NotWonBefore(rows, user, tier, lo, hi);
      }
    }
  }

  function Range(from: int, n: nat): (s: set<int>)
    ensures |s| == n && forall x: int :: x in s <==> from <= x < from + n
  {
    if n == 0 then {} else Range(from, n - 1) + {from + n - 1}
  }

  lemma WonIsTouched(rows: seq<Row>, user: nat, tier: Tier, lo: nat, hi: int, n: int)
    requires hi - lo <= WINDOW && n in Won(rows, user, tier, lo, hi)
    ensures Number(tier, lo) <= n < Number(tier, lo) + Periods(tier)
  {
    WonIs(rows, user, tier, lo, hi, n);
    var i :| 0 <= i < |rows| && Inside(rows[i], user, tier, lo, hi) && Number(tier, rows[i].wonAt) == n;
    PeriodsTouched(tier, lo, rows[i].wonAt);
  }

  lemma {:induction false} NothingBeforeTheStart(rows: seq<Row>, user: nat, tier: Tier, lo: int, hi: int)
    requires lo < 0
    ensures WinsBetween(rows, user, tier, lo, hi) == WinsBetween(rows, user, tier, 0, hi)
  {
    if rows != [] {
      NothingBeforeTheStart(rows[..|rows| - 1], user, tier, lo, hi);
    }
  }

  lemma FewPeriodsFrom(rows: seq<Row>, user: nat, tier: Tier, lo: nat, hi: int)
    requires OnePerPeriod(rows, user, tier) && hi - lo <= WINDOW
    ensures WinsBetween(rows, user, tier, lo, hi) <= Periods(tier)
  {
    var won, range := Won(rows, user, tier, lo, hi), Range(Number(tier, lo), Periods(tier));
    WinsArePeriods(rows, user, tier, lo, hi);
    forall n | n in won ensures n in range {
      WonIsTouched(rows, user, tier, lo, hi, n);
    }
    SubsetIsNoLarger(won, range);
  }

  lemma FewPeriods(rows: seq<Row>, user: nat, tier: Tier, lo: int, hi: int)
    requires OnePerPeriod(rows, user, tier) && hi - lo <= WINDOW
    ensures WinsBetween(rows, user, tier, lo, hi) <= Periods(tier)
  {
    if lo < 0 {
      NothingBeforeTheStart(rows, user, tier, lo, hi);
      FewPeriodsFrom(rows, user, tier, 0, hi);
    } else {
      FewPeriodsFrom(rows, user, tier, lo, hi);
    }
  }

  ghost predicate Keyed(rows: seq<Row>) {
    forall i :: 0 <= i < |rows| ==> rows[i].periodStart == PeriodStart(rows[i].tier, rows[i].wonAt)
  }

  lemma KeyIsNew(rows: seq<Row>, row: Row, user: nat, tier: Tier)
    requires Keyed(rows) && OnePerPeriod(rows, user, tier)
    requires row.periodStart == PeriodStart(row.tier, row.wonAt) && !Holds(rows, row.user, row.tier, row.periodStart)
    ensures Keyed(rows + [row]) && OnePerPeriod(rows + [row], user, tier)
  {
    forall i | 0 <= i < |rows| && rows[i].user == row.user == user && rows[i].tier == row.tier == tier
      ensures Number(tier, rows[i].wonAt) != Number(tier, row.wonAt)
    {
      KeyIffSamePeriod(tier, rows[i].wonAt, row.wonAt);
      SameNumber(tier, rows[i].wonAt, row.wonAt);
    }
  }

  lemma {:induction false} RunIsKeyed(run: seq<Event>, user: nat, tier: Tier)
    ensures Keyed(After(run).rows) && OnePerPeriod(After(run).rows, user, tier)
  {
    if run != [] {
      var st, e := After(run[..|run| - 1]), run[|run| - 1];
      RunIsKeyed(run[..|run| - 1], user, tier);
      RecordShape(st, e);
      if Do(st, e).rows != st.rows {
        KeyIsNew(st.rows, NewRow(e.user, e.tier, InCampaign(st.calls[e.id].campaign, None), e.now), user, tier);
      }
    }
  }

  // ---- Runs that fill thirty days ----

  function Settings(L: nat): Option<Config> {
    Some(Config(L, L, L, L, 0))
  }

  /** A user and tier, and instants in different periods within thirty days. */
  datatype Plan = Plan(user: nat, tier: Tier, at: seq<nat>)

  predicate InThirtyDays(at: seq<nat>) {
    && at != [] && (forall i, j :: 0 <= i < j < |at| ==> at[i] <= at[j])
    && at[|at| - 1] <= at[0] + WINDOW
  }

  ghost predicate Apart(tier: Tier, at: seq<nat>) {
    forall i, j :: 0 <= i < j < |at| ==> Number(tier, at[i]) != Number(tier, at[j])
  }

  ghost predicate Fits(p: Plan) {
    p.tier != Grand && InThirtyDays(p.at) && Apart(p.tier, p.at)
  }

  /** The instant of a slot, or the last one past the end. */
  function Slot(p: Plan, i: nat): nat
    requires p.at != []
  {
    if i < |p.at| then p.at[i] else p.at[|p.at| - 1]
  }

  /** A win in each of the first slots, each in a campaign of its own. */
  function RowsOf(p: Plan, n: nat): seq<Row>
    requires p.at != []
  {
    seq(n, i requires 0 <= i < n => NewRow(p.user, p.tier, InCampaign(i, None), Slot(p, i)))
  }

  function Owners(n: nat): seq<nat> {
    seq(n, i requires 0 <= i < n => i)
  }

  function Ids(from: nat, upTo: nat): (ids: set<nat>)
    ensures forall id :: id in ids <==> from <= id < upTo
    ensures |ids| == (if from <= upTo then upTo - from else 0)
    decreases upTo
  {
    if upTo <= from then {} else Ids(from, upTo - 1) + {upTo - 1}
  }

  /** A selection numbered after its campaign: over, begun, past its check of the
      user, and with the win recorded. */
  function Closed(id: nat): Call {
    Call(id, true, false, {}, {})
  }

  function Begun(id: nat): Call {
    Call(id, true, true, {}, {})
  }

  function Passed(w: (nat, Tier), id: nat): Call {
    Call(id, true, true, {w}, {})
  }

  function Written(w: (nat, Tier), id: nat): Call {
    Call(id, true, true, {w}, {w})
  }

  /** The first selections are over, the others in flight. */
  function Calls(w: (nat, Tier), from: nat, upTo: nat): map<nat, Call> {
    map id | id in Ids(0, upTo) :: if id < from then Closed(id) else Passed(w, id)
  }

  function BeginAndCheck(w: (nat, Tier), L: nat, id: nat, now: nat): seq<Event> {
    [Begin(id, id, true, now), Check(id, w.0, w.1, Settings(L), now)]
  }

  function RecordAndEnd(w: (nat, Tier), id: nat, now: nat): seq<Event> {
    [Record(id, w.0, w.1, now), End(id, now)]
  }

  lemma SlotsGrow(p: Plan, i: nat, j: nat)
    requires InThirtyDays(p.at) && i <= j
    ensures Slot(p, i) <= Slot(p, j)
  {
  }

  lemma ApartIsFree(p: Plan, n: nat, i: nat)
    requires Fits(p) && i < n < |p.at|
    ensures PeriodStart(p.tier, p.at[i]) != PeriodStart(p.tier, p.at[n])
  {
    SameNumber(p.tier, p.at[i], p.at[n]);
    KeyIffSamePeriod(p.tier, p.at[i], p.at[n]);
  }

  lemma NextSlotIsFree(p: Plan, n: nat)
    requires Fits(p) && n < |p.at|
    ensures !Holds(RowsOf(p, n), p.user, p.tier, PeriodStart(p.tier, Slot(p, n)))
  {
    var rows := RowsOf(p, n);
    forall i | 0 <= i < n ensures rows[i].periodStart != PeriodStart(p.tier, p.at[n]) {
      ApartIsFree(p, n, i);
    }
  }

  lemma OneMoreRow(p: Plan, n: nat)
    requires p.at != []
    ensures RowsOf(p, n + 1) == RowsOf(p, n) + [NewRow(p.user, p.tier, InCampaign(n, None), Slot(p, n))]
    ensures Owners(n + 1) == Owners(n) + [n]
  {
  }

  lemma {:induction false} WinsAreRows(rows: seq<Row>, user: nat, tier: Tier, from: int)
    ensures WinsSince(rows, user, tier, from) <= |rows|
  {
    if rows != [] {
      WinsAreRows(rows[..|rows| - 1], user, tier, from);
    }
  }

  lemma BelowTheCapPasses(rows: seq<Row>, user: nat, tier: Tier, L: nat, campaign: nat, now: nat)
    requires tier != Grand && |rows| < L
    ensures Passes(rows, Attempt(user, tier, InCampaign(campaign, Settings(L)), now))
  {
    WinsAreRows(rows, user, tier, now - WINDOW);
  }

  /** The state the run is in, its order, its cap, and the calls in flight. */
  ghost predicate Reaches(run: seq<Event>, w: (nat, Tier), L: nat, m: nat, now: nat, st: State) {
    && After(run) == st && InOrder(run) && CapsUpTo(run, w.0, w.1, L) && AtMostInFlight(run, w.0, w.1, m)
    && forall i :: 0 <= i < |run| ==> run[i].now <= now
  }

  lemma Extends(run: seq<Event>, e: Event, w: (nat, Tier), L: nat, m: nat, now: nat, st: State, next: State)
    requires Reaches(run, w, L, m, now, st) && e.now >= now && next == Do(st, e)
    requires e.Check? ==> Limit(w.1, InCampaign(0, e.config)) <= L
    requires |Holders(next.calls, w.0, w.1)| <= m
    ensures Reaches(run + [e], w, L, m, e.now, next)
  {
    AfterNext(run, e);
    assert (run + [e])[..|run|] == run;
  }

  lemma Later(run: seq<Event>, w: (nat, Tier), L: nat, m: nat, now: nat, later: nat, st: State)
    requires Reaches(run, w, L, m, now, st) && now <= later
    ensures Reaches(run, w, L, m, later, st)
  {
  }

  lemma BeginFlight(rows: seq<Row>, owners: seq<nat>, w: (nat, Tier), from: nat, id: nat, now: nat)
    requires |rows| == |owners|
    ensures Do(Table(rows, owners, Calls(w, from, id)), Begin(id, id, true, now))
         == Table(rows, owners, Calls(w, from, id)[id := Begun(id)])
  {
    assert !Locked(Calls(w, from, id), id);
  }

  lemma {:induction false} AllVisible(rows: seq<Row>, owners: seq<nat>, calls: map<nat, Call>, id: nat)
    requires |rows| == |owners| && forall k :: 0 <= k < |owners| ==> !Hidden(calls, id, owners[k])
    ensures Visible(rows, owners, calls, id) == rows
  {
    if rows != [] {
      var k := |rows| - 1;
      AllVisible(rows[..k], owners[..k], calls, id);
      assert Visible(rows, owners, calls, id) == rows[..k] + [rows[k]];
    }
  }

  lemma PassingCheck(rows: seq<Row>, owners: seq<nat>, calls: map<nat, Call>, w: (nat, Tier), L: nat, id: nat, now: nat)
    requires |rows| == |owners| && id in calls && calls[id] == Begun(id)
    requires forall k :: 0 <= k < |owners| ==> !Hidden(calls, id, owners[k])
    requires Passes(rows, Attempt(w.0, w.1, InCampaign(id, Settings(L)), now))
    ensures Do(Table(rows, owners, calls), Check(id, w.0, w.1, Settings(L), now)) == Table(rows, owners, calls[id := Passed(w, id)])
  {
    AllVisible(rows, owners, calls, id);
    assert {} + {w} == {w};
  }

  lemma NextCalls(w: (nat, Tier), from: nat, id: nat)
    requires from <= id
    ensures Calls(w, from, id)[id := Begun(id)][id := Passed(w, id)] == Calls(w, from, id + 1)
  {
  }

  lemma CheckFlight(rows: seq<Row>, owners: seq<nat>, w: (nat, Tier), L: nat, from: nat, id: nat, now: nat)
    requires |rows| == |owners| && from <= id && forall k :: 0 <= k < |owners| ==> owners[k] < from
    requires Passes(rows, Attempt(w.0, w.1, InCampaign(id, Settings(L)), now))
    ensures Do(Table(rows, owners, Calls(w, from, id)[id := Begun(id)]), Check(id, w.0, w.1, Settings(L), now))
         == Table(rows, owners, Calls(w, from, id + 1))
  {
    PassingCheck(rows, owners, Calls(w, from, id)[id := Begun(id)], w, L, id, now);
    NextCalls(w, from, id);
  }

  lemma RecordFlight(rows: seq<Row>, owners: seq<nat>, w: (nat, Tier), from: nat, upTo: nat, now: nat)
    requires |rows| == |owners| && from < upTo && !Holds(rows, w.0, w.1, PeriodStart(w.1, now))
    ensures Do(Table(rows, owners, Calls(w, from, upTo)), Record(from, w.0, w.1, now))
         == Table(rows + [NewRow(w.0, w.1, InCampaign(from, None), now)], owners + [from], Calls(w, from, upTo)[from := Written(w, from)])
  {
    assert {} + {w} == {w};
  }

  lemma EndFlight(rows: seq<Row>, owners: seq<nat>, w: (nat, Tier), from: nat, upTo: nat, now: nat)
    requires |rows| == |owners| && from < upTo
    ensures Do(Table(rows, owners, Calls(w, from, upTo)[from := Written(w, from)]), End(from, now))
         == Table(rows, owners, Calls(w, from + 1, upTo))
  {
    assert Calls(w, from, upTo)[from := Written(w, from)][from := Closed(from)] == Calls(w, from + 1, upTo);
  }

  /** Calls numbered from one id up to another are no more than that many. */
  lemma FewHolders(calls: map<nat, Call>, w: (nat, Tier), from: nat, upTo: nat, m: nat)
    requires upTo <= from + m && forall id :: id in calls && w in calls[id].passed ==> from <= id < upTo
    ensures |Holders(calls, w.0, w.1)| <= m
  {
    SubsetIsNoLarger(Holders(calls, w.0, w.1), Ids(from, upTo));
  }

  /** One more selection begins and checks. */
  lemma BeginsAndChecks(run: seq<Event>, rows: seq<Row>, owners: seq<nat>, w: (nat, Tier), L: nat, m: nat, now: nat, from: nat, id: nat)
    requires |rows| == |owners| && forall k :: 0 <= k < |owners| ==> owners[k] < from
    requires Reaches(run, w, L, m, now, Table(rows, owners, Calls(w, from, id)))
    requires w.1 != Grand && |rows| < L && from <= id < from + m
    ensures Reaches(run + BeginAndCheck(w, L, id, now), w, L, m, now, Table(rows, owners, Calls(w, from, id + 1)))
  {
    var st, next := Table(rows, owners, Calls(w, from, id)), Table(rows, owners, Calls(w, from, id + 1));
    var begun := Table(rows, owners, Calls(w, from, id)[id := Begun(id)]);
    var e, f := Begin(id, id, true, now), Check(id, w.0, w.1, Settings(L), now);
    BeginFlight(rows, owners, w, from, id, now);
    BelowTheCapPasses(rows, w.0, w.1, L, id, now);
    CheckFlight(rows, owners, w, L, from, id, now);
    FewHolders(begun.calls, w, from, id, m);
    FewHolders(next.calls, w, from, id + 1, m);
    Extends(run, e, w, L, m, now, st, begun);
    Extends(run + [e], f, w, L, m, now, begun, next);
    assert run + [e] + [f] == run + BeginAndCheck(w, L, id, now);
  }

  /** The first of them records and commits. */
  lemma RecordsAndEnds(run: seq<Event>, rows: seq<Row>, owners: seq<nat>, w: (nat, Tier), L: nat, m: nat, now: nat, id: nat, upTo: nat)
    requires |rows| == |owners| && !Holds(rows, w.0, w.1, PeriodStart(w.1, now)) && id < upTo <= id + m
    requires Reaches(run, w, L, m, now, Table(rows, owners, Calls(w, id, upTo)))
    ensures Reaches(run + RecordAndEnd(w, id, now), w, L, m, now,
                    Table(rows + [NewRow(w.0, w.1, InCampaign(id, None), now)], owners + [id], Calls(w, id + 1, upTo)))
  {
    var grown, owned := rows + [NewRow(w.0, w.1, InCampaign(id, None), now)], owners + [id];
    var st, next := Table(rows, owners, Calls(w, id, upTo)), Table(grown, owned, Calls(w, id + 1, upTo));
    var written := Table(grown, owned, Calls(w, id, upTo)[id := Written(w, id)]);
    var e, f := Record(id, w.0, w.1, now), End(id, now);
    RecordFlight(rows, owners, w, id, upTo, now);
    EndFlight(grown, owned, w, id, upTo, now);
    FewHolders(written.calls, w, id, upTo, m);
    FewHolders(next.calls, w, id + 1, upTo, m);
    Extends(run, e, w, L, m, now, st, written);
    Extends(run + [e], f, w, L, m, now, written, next);
    assert run + [e] + [f] == run + RecordAndEnd(w, id, now);
  }

  /** At the n-th slot, n wins on record, and some calls in flight. */
  ghost predicate AtSlot(run: seq<Event>, p: Plan, L: nat, m: nat, n: nat, from: nat, upTo: nat)
    requires p.at != []
  {
    Reaches(run, (p.user, p.tier), L, m, Slot(p, n), Table(RowsOf(p, n), Owners(n), Calls((p.user, p.tier), from, upTo)))
  }

  lemma ChecksAtSlot(run: seq<Event>, longer: seq<Event>, p: Plan, L: nat, m: nat, n: nat, id: nat, upTo: nat)
    requires Fits(p) && AtSlot(run, p, L, m, n, n, id) && n < L && n <= id < n + m
    requires longer == run + BeginAndCheck((p.user, p.tier), L, id, Slot(p, n)) && upTo == id + 1
    ensures AtSlot(longer, p, L, m, n, n, upTo)
  {
    BeginsAndChecks(run, RowsOf(p, n), Owners(n), (p.user, p.tier), L, m, Slot(p, n), n, id);
  }

  lemma RecordsAtSlot(run: seq<Event>, longer: seq<Event>, p: Plan, L: nat, m: nat, n: nat, next: nat, upTo: nat)
    requires Fits(p) && AtSlot(run, p, L, m, n, n, upTo) && n < upTo <= n + m && n < |p.at|
    requires longer == run + RecordAndEnd((p.user, p.tier), n, Slot(p, n)) && next == n + 1
    ensures AtSlot(longer, p, L, m, next, next, upTo)
  {
    var w := (p.user, p.tier);
    NextSlotIsFree(p, n);
    OneMoreRow(p, n);
    SlotsGrow(p, n, next);
    RecordsAndEnds(run, RowsOf(p, n), Owners(n), w, L, m, Slot(p, n), n, upTo);
    Later(longer, w, L, m, Slot(p, n), Slot(p, next), Table(RowsOf(p, next), Owners(next), Calls(w, next, upTo)));
  }

  lemma NothingYet(p: Plan, L: nat, m: nat)
    requires p.at != []
    ensures AtSlot([], p, L, m, 0, 0, 0)
  {
    assert RowsOf(p, 0) == [] && Owners(0) == [] && Calls((p.user, p.tier), 0, 0) == map[];
    assert Holders(map[], p.user, p.tier) == {};
  }

  /** Selections that do not overlap, one a slot. */
  lemma {:induction false} Serial(p: Plan, L: nat, m: nat, n: nat) returns (run: seq<Event>)
    requires Fits(p) && 0 < m && n <= L && n <= |p.at|
    ensures AtSlot(run, p, L, m, n, n, n)
  {
    if n == 0 {
      run := [];
      NothingYet(p, L, m);
    } else {
      var before := Serial(p, L, m, n - 1);
      var checked := before + BeginAndCheck((p.user, p.tier), L, n - 1, Slot(p, n - 1));
      run := checked + RecordAndEnd((p.user, p.tier), n - 1, Slot(p, n - 1));
      ChecksAtSlot(before, checked, p, L, m, n - 1, n - 1, n);
      RecordsAtSlot(checked, run, p, L, m, n - 1, n, n);
    }
  }

  /** After n selections in turn, more begin and check before any records. */
  lemma {:induction false} Checks(p: Plan, L: nat, m: nat, n: nat, upTo: nat) returns (run: seq<Event>)
    requires Fits(p) && 0 < m && n <= upTo <= n + m && n < L && n <= |p.at|
    ensures AtSlot(run, p, L, m, n, n, upTo)
    decreases upTo
  {
    if upTo == n {
      run := Serial(p, L, m, n);
    } else {
      var before := Checks(p, L, m, n, upTo - 1);
      run := before + BeginAndCheck((p.user, p.tier), L, upTo - 1, Slot(p, n));
      ChecksAtSlot(before, run, p, L, m, n, upTo - 1, upTo);
    }
  }

  /** Then they record and commit, one a slot. */
  lemma {:induction false} Records(p: Plan, L: nat, m: nat, n: nat, done: nat) returns (run: seq<Event>)
    requires Fits(p) && 0 < m && n <= done <= n + m && n < L && done <= |p.at|
    ensures AtSlot(run, p, L, m, done, done, n + m)
    decreases done
  {
    if done == n {
      run := Checks(p, L, m, done, n + m);
    } else {
      var before := Records(p, L, m, n, done - 1);
      run := before + RecordAndEnd((p.user, p.tier), done - 1, Slot(p, done - 1));
      RecordsAtSlot(before, run, p, L, m, done - 1, done, n + m);
    }
  }

  lemma RowsFit(p: Plan)
    requires InThirtyDays(p.at)
    ensures WinsBetween(RowsOf(p, |p.at|), p.user, p.tier, p.at[0], p.at[0] + WINDOW) == |p.at|
  {
    var rows := RowsOf(p, |p.at|);
    forall i | 0 <= i < |rows| ensures p.at[0] <= rows[i].wonAt <= p.at[0] + WINDOW {
      SlotsGrow(p, 0, i);
      SlotsGrow(p, i, |p.at| - 1);
    }
    AllCount(rows, p.user, p.tier, p.at[0], p.at[0] + WINDOW);
  }

  /** L - 1 selections in turn, then m of other campaigns that all check before
      any records, win in every slot of a plan of L + m - 1. */
  lemma PlanIsFilled(p: Plan, L: nat, m: nat) returns (run: seq<Event>)
    requires Fits(p) && 0 < L && 0 < m && |p.at| == L + m - 1
    ensures InOrder(run) && CapsUpTo(run, p.user, p.tier, L) && AtMostInFlight(run, p.user, p.tier, m)
    ensures WinsBetween(After(run).rows, p.user, p.tier, p.at[0], p.at[0] + WINDOW) == |p.at|
  {
    run := Records(p, L, m, L - 1, |p.at|);
    RowsFit(p);
  }

  // ---- Plans of every length ----

  lemma SomeDays() returns (at: seq<nat>)
    ensures |at| == Periods(Daily) && InThirtyDays(at) && Apart(Daily, at)
  {
    at := seq(31, i requires 0 <= i < 31 => i * DAY);
    forall i | 0 <= i < 31 ensures Number(Daily, at[i]) == i {
      assert i * DAY / DAY == i;
    }
  }

  /** Six weeks, from a Sunday on. */
  lemma SomeWeeks() returns (at: seq<nat>)
    ensures |at| == Periods(Weekly) && InThirtyDays(at) && Apart(Weekly, at)
  {
    at := [6 * DAY, 7 * DAY, 14 * DAY, 21 * DAY, 28 * DAY, 35 * DAY];
    forall i | 0 <= i < 6 ensures Number(Weekly, at[i]) == i {
    }
  }

  lemma InstantOf(y: int, m: int, d: int) returns (t: nat)
    requires 1 <= y && 1 <= m <= 12 && 1 <= d <= DaysInMonth(y, m)
    ensures t == (FirstDay(y, m) + d - 1) * DAY && Number(Monthly, t) == y * 12 + m
  {
    CivilRoundTrip(Civil(y, m, d, 0));
    t := ToInstant(Civil(y, m, d, 0));
  }

  /** The last day of a month, the first of the next, which is short, and the
      first of the one after it lie within thirty days. */
  lemma AroundAShortMonth(y: int, m: int) returns (a: nat, b: nat, c: nat)
    requires 1 <= y && 1 <= m <= 10 && DaysInMonth(y, m + 1) <= 29
    ensures a <= b <= c <= a + WINDOW && Number(Monthly, a) < Number(Monthly, b) < Number(Monthly, c)
  {
    MonthsAbut(y, m);
    MonthsAbut(y, m + 1);
    a := InstantOf(y, m, DaysInMonth(y, m));
    b := InstantOf(y, m + 1, 1);
    c := InstantOf(y, m + 2, 1);
  }

  lemma MonthsOf(a: nat, b: nat, c: nat) returns (at: seq<nat>)
    requires a <= b <= c <= a + WINDOW && Number(Monthly, a) < Number(Monthly, b) < Number(Monthly, c)
    ensures |at| == Periods(Monthly) && InThirtyDays(at) && Apart(Monthly, at)
  {
    at := [a, b, c];
  }

  /** Three months, around a February. */
  lemma SomeMonths() returns (at: seq<nat>)
    ensures |at| == Periods(Monthly) && InThirtyDays(at) && Apart(Monthly, at)
  {
    var a, b, c := AroundAShortMonth(2023, 1);
    at := MonthsOf(a, b, c);
  }

  lemma PlanOf(user: nat, tier: Tier, n: nat) returns (p: Plan)
    requires tier != Grand && 0 < n <= Periods(tier)
    ensures Fits(p) && p.user == user && p.tier == tier && |p.at| == n
  {
    var at;
    match tier {
      case Daily => at := SomeDays();
      case Weekly => at := SomeWeeks();
      case Monthly => at := SomeMonths();
    }
    FirstOf(tier, at, n);
    p := Plan(user, tier, at[..n]);
  }

  lemma FirstOf(tier: Tier, at: seq<nat>, n: nat)
    requires InThirtyDays(at) && Apart(tier, at) && 0 < n <= |at|
    ensures InThirtyDays(at[..n]) && Apart(tier, at[..n])
  {
  }

  // ---- The bound is exact ----

  /** Runs with at most m calls in flight for the user keep a bound. */
  ghost predicate OverlapsKeep(user: nat, tier: Tier, L: nat, m: nat, bound: int) {
    forall run :: InOrder(run) && CapsUpTo(run, user, tier, L) && AtMostInFlight(run, user, tier, m)
      ==> KeepsBound(After(run).rows, user, tier, bound)
  }

  lemma {:induction false} FewerInFlight(run: seq<Event>, user: nat, tier: Tier, m: nat, more: nat)
    requires AtMostInFlight(run, user, tier, m) && m <= more
    ensures AtMostInFlight(run, user, tier, more)
  {
    if run != [] {
      FewerInFlight(run[..|run| - 1], user, tier, m, more);
    }
  }

  function Least(a: nat, b: nat): nat {
    if a < b then a else b
  }

  lemma WeakerCap(run: seq<Event>, user: nat, tier: Tier, L: nat, m: nat, cap: nat, calls: nat)
    requires CapsUpTo(run, user, tier, cap) && AtMostInFlight(run, user, tier, calls) && cap <= L && calls <= m
    ensures CapsUpTo(run, user, tier, L) && AtMostInFlight(run, user, tier, m)
  {
    FewerInFlight(run, user, tier, calls, m);
  }

  /** A shorter plan is filled under a smaller cap or by fewer calls. */
  lemma ShortPlanIsFilled(p: Plan, L: nat, m: nat) returns (run: seq<Event>)
    requires Fits(p) && 0 < L && 0 < m && 0 < |p.at| <= L + m - 1
    ensures InOrder(run) && CapsUpTo(run, p.user, p.tier, L) && AtMostInFlight(run, p.user, p.tier, m)
    ensures WinsBetween(After(run).rows, p.user, p.tier, p.at[0], p.at[0] + WINDOW) == |p.at|
  {
    var cap := Least(L, |p.at|);
    run := PlanIsFilled(p, cap, |p.at| - cap + 1);
    WeakerCap(run, p.user, p.tier, L, m, cap, |p.at| - cap + 1);
  }

  lemma OverlapBoundIsReached(user: nat, tier: Tier, L: nat, m: nat) returns (run: seq<Event>, lo: nat)
    requires tier != Grand && 0 < L && 0 < m
    ensures InOrder(run) && CapsUpTo(run, user, tier, L) && AtMostInFlight(run, user, tier, m)
    ensures WinsBetween(After(run).rows, user, tier, lo, lo + WINDOW) == Least(L + m - 1, Periods(tier))
  {
    var p := PlanOf(user, tier, Least(L + m - 1, Periods(tier)));
    run := ShortPlanIsFilled(p, L, m);
    lo := p.at[0];
  }

  lemma OverlapBoundHolds(user: nat, tier: Tier, L: nat, m: nat)
    requires tier != Grand && 0 < m
    ensures OverlapsKeep(user, tier, L, m, Least(L + m - 1, Periods(tier)))
  {
    forall run | InOrder(run) && CapsUpTo(run, user, tier, L) && AtMostInFlight(run, user, tier, m)
      ensures KeepsBound(After(run).rows, user, tier, Least(L + m - 1, Periods(tier)))
    {
      RunIsKeyed(run, user, tier);
      forall lo, hi | hi - lo <= WINDOW
        ensures WinsBetween(After(run).rows, user, tier, lo, hi) <= Least(L + m - 1, Periods(tier))
      {
        OverlapBound(run, user, tier, L, m, lo, hi);
        FewPeriods(After(run).rows, user, tier, lo, hi);
      }
    }
  }

  /** For every tier under the window, cap L and number m of overlapping calls,
      the lesser of L + m - 1 and the periods that thirty days touch is exactly
      the bound that is kept. So the cap is kept exactly when no two calls
      overlap, or it is no smaller than those periods. */
  lemma OverlapBoundIsExact(user: nat, tier: Tier, L: nat, m: nat, bound: int)
    requires tier != Grand && 0 < L && 0 < m
    ensures OverlapsKeep(user, tier, L, m, bound) <==> bound >= Least(L + m - 1, Periods(tier))
    ensures OverlapsKeep(user, tier, L, m, L) <==> m == 1 || L >= Periods(tier)
  {
    var run, lo := OverlapBoundIsReached(user, tier, L, m);
    OverlapBoundHolds(user, tier, L, m);
    BoundIsMonotone(user, tier, L, m, Least(L + m - 1, Periods(tier)), bound);
    BoundIsMonotone(user, tier, L, m, Least(L + m - 1, Periods(tier)), L);
  }

  lemma BoundIsMonotone(user: nat, tier: Tier, L: nat, m: nat, bound: int, more: int)
    ensures OverlapsKeep(user, tier, L, m, bound) && bound <= more ==> OverlapsKeep(user, tier, L, m, more)
  {
  }
}
