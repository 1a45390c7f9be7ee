/** Selections and gift calls that overlap: each checks a user and records the
    win later. A selection holds its own campaign's row lock, and what it records
    is seen by others only when it commits; a gift call holds no lock and commits
    each record at once. The cap counts a user's wins in every campaign. */
module SelectionRace {
  import opened Calendar
  import opened Options
  import opened Sets
  import opened WinPeriods
  import opened WinLedger

  /** A call with the users and tiers it has passed and, for a selection, those
      it has recorded and not committed. A gift call is done with a user once the
      win is recorded. */
  datatype Call = Call(campaign: nat, selecting: bool, open: bool, passed: set<(nat, Tier)>, recorded: set<(nat, Tier)>)

  /** The rows in order of insertion, the call that inserted each, and the calls. */
  datatype Table = Table(rows: seq<Row>, owners: seq<nat>, calls: map<nat, Call>)

  type State = t: Table | |t.rows| == |t.owners| witness Table([], [], map[])

  datatype Event =
    | Begin(id: nat, campaign: nat, selecting: bool, now: nat)
    | Check(id: nat, user: nat, tier: Tier, config: Option<Config>, now: nat)
    | Record(id: nat, user: nat, tier: Tier, now: nat)
    | End(id: nat, now: nat)

  predicate Locked(calls: map<nat, Call>, campaign: nat) {
    exists id :: id in calls && calls[id].open && calls[id].selecting && calls[id].campaign == campaign
  }

  /** A row of another selection that has not committed. */
  predicate Hidden(calls: map<nat, Call>, id: nat, owner: nat) {
    owner != id && owner in calls && calls[owner].open && calls[owner].selecting
  }

  /** The rows a call sees. */
  function Visible(rows: seq<Row>, owners: seq<nat>, calls: map<nat, Call>, id: nat): seq<Row>
    requires |rows| == |owners|
  {
    if rows == [] then []
    else
      var k := |rows| - 1;
      Visible(rows[..k], owners[..k], calls, id) + (if Hidden(calls, id, owners[k]) then [] else [rows[k]])
  }

  /** The check of a call, on the rows it sees. */
  predicate PassesFor(st: State, id: nat, user: nat, tier: Tier, config: Option<Config>, now: nat)
    requires id in st.calls
  {
    Passes(Visible(st.rows, st.owners, st.calls, id), Attempt(user, tier, InCampaign(st.calls[id].campaign, config), now))
  }

  /** A selection passes each user at most once: its entries are unique per user. */
  predicate MayPass(st: State, id: nat, user: nat, tier: Tier, config: Option<Config>, now: nat) {
    && id in st.calls && st.calls[id].open && !(st.calls[id].selecting && (user, tier) in st.calls[id].passed)
    && PassesFor(st, id, user, tier, config, now)
  }

  predicate MayRecord(st: State, id: nat, user: nat, tier: Tier) {
    id in st.calls && (user, tier) in st.calls[id].passed && (user, tier) !in st.calls[id].recorded
  }

  function AfterRecord(call: Call, user: nat, tier: Tier): Call {
    if call.selecting then call.(recorded := call.recorded + {(user, tier)}) else call.(passed := call.passed - {(user, tier)})
  }

  /** One step. A selection whose campaign is locked waits, that is, does nothing
      yet; a call records only what it has passed, and the unique key counts the
      rows of all calls. */
  function Do(st: State, e: Event): State {
    match e
    case Begin(id, campaign, selecting, _) =>
      if id in st.calls || (selecting && Locked(st.calls, campaign)) then st
      else st.(calls := st.calls[id := Call(campaign, selecting, true, {}, {})])
    case Check(id, user, tier, config, now) =>
      if MayPass(st, id, user, tier, config, now)
      then st.(calls := st.calls[id := st.calls[id].(passed := st.calls[id].passed + {(user, tier)})])
      else st
    case Record(id, user, tier, now) =>
      if !MayRecord(st, id, user, tier) then st
      else
        var calls := st.calls[id := AfterRecord(st.calls[id], user, tier)];
        if Holds(st.rows, user, tier, PeriodStart(tier, now)) then st.(calls := calls)
        else Table(st.rows + [NewRow(user, tier, InCampaign(st.calls[id].campaign, None), now)], st.owners + [id], calls)
    case End(id, _) =>
      if id in st.calls then st.(calls := st.calls[id := st.calls[id].(open := false, passed := {}, recorded := {})]) else st
  }

  function After(run: seq<Event>): State {
    if run == [] then Table([], [], map[]) else Do(After(run[..|run| - 1]), run[|run| - 1])
  }

  lemma AfterNext(run: seq<Event>, e: Event)
    ensures After(run + [e]) == Do(After(run), e)
  {
    assert (run + [e])[..|run|] == run;
  }

  ghost predicate InOrder(run: seq<Event>) {
    forall i, j :: 0 <= i < j < |run| ==> run[i].now <= run[j].now
  }

  /** No check of this user and tier runs under a cap above L. */
  ghost predicate CapsUpTo(run: seq<Event>, user: nat, tier: Tier, L: nat) {
    forall i :: 0 <= i < |run| && run[i].Check? && run[i].user == user && run[i].tier == tier
      ==> Limit(tier, InCampaign(0, run[i].config)) <= L
  }

  /** The calls in flight for the user: a gift call from its check to its record,
      a selection from its check to its commit. */
  function Holders(calls: map<nat, Call>, user: nat, tier: Tier): set<nat> {
    set id | id in calls && (user, tier) in calls[id].passed
  }

  /** Those that have recorded and not committed, and those still to record. */
  function Uncommitted(calls: map<nat, Call>, user: nat, tier: Tier): set<nat> {
    set id | id in calls && (user, tier) in calls[id].passed && (user, tier) in calls[id].recorded
  }

  function Waiting(calls: map<nat, Call>, user: nat, tier: Tier): set<nat> {
    set id | id in calls && (user, tier) in calls[id].passed && (user, tier) !in calls[id].recorded
  }

  /** After every prefix, at most m such calls are in flight. */
  ghost predicate AtMostInFlight(run: seq<Event>, user: nat, tier: Tier, m: nat) {
    && |Holders(After(run).calls, user, tier)| <= m
    && (run != [] ==> AtMostInFlight(run[..|run| - 1], user, tier, m))
  }

  ghost predicate KeepsBound(rows: seq<Row>, user: nat, tier: Tier, bound: int) {
    forall lo, hi :: hi - lo <= WINDOW ==> WinsBetween(rows, user, tier, lo, hi) <= bound
  }

  // ---- What a step does to the table and to the calls in flight ----

  ghost predicate Inserts(st: State, e: Event, user: nat, tier: Tier) {
    e.Record? && e.user == user && e.tier == tier && Do(st, e).rows != st.rows
  }

  lemma RecordShape(st: State, e: Event)
    ensures (Do(st, e).rows == st.rows && Do(st, e).owners == st.owners)
         || (e.Record? && MayRecord(st, e.id, e.user, e.tier) && !Holds(st.rows, e.user, e.tier, PeriodStart(e.tier, e.now))
             && Do(st, e).rows == st.rows + [NewRow(e.user, e.tier, InCampaign(st.calls[e.id].campaign, None), e.now)]
             && Do(st, e).owners == st.owners + [e.id])
  {
  }

  /** Wins of the user move only when a record inserts, and then by one. */
  lemma WinsMove(st: State, e: Event, user: nat, tier: Tier, lo: int, hi: int)
    ensures WinsBetween(Do(st, e).rows, user, tier, lo, hi) == WinsBetween(st.rows, user, tier, lo, hi) +
            (if Inserts(st, e, user, tier) && lo <= e.now <= hi then 1 else 0)
  {
    RecordShape(st, e);
    if Do(st, e).rows != st.rows {
      WinsBetweenAppend(st.rows, NewRow(e.user, e.tier, InCampaign(st.calls[e.id].campaign, None), e.now), user, tier, lo, hi);
    }
  }

  lemma WinsSinceMove(st: State, e: Event, user: nat, tier: Tier, from: int)
    ensures WinsSince(Do(st, e).rows, user, tier, from) == WinsSince(st.rows, user, tier, from) +
            (if Inserts(st, e, user, tier) && from <= e.now then 1 else 0)
  {
    RecordShape(st, e);
    if Do(st, e).rows != st.rows {
      assert Do(st, e).rows[..|st.rows|] == st.rows;
    }
  }

  lemma {:induction false} WinsSinceLater(rows: seq<Row>, user: nat, tier: Tier, from: int, later: int)
    requires from <= later
    ensures WinsSince(rows, user, tier, later) <= WinsSince(rows, user, tier, from)
  {
    if rows != [] {
      WinsSinceLater(rows[..|rows| - 1], user, tier, from, later);
    }
  }

  // ---- The bound on overlapping calls ----

  /** The uncommitted rows of the user belong to calls that recorded one each. */
  ghost predicate Owned(rows: seq<Row>, owners: seq<nat>, calls: map<nat, Call>, user: nat, tier: Tier)
    requires |rows| == |owners|
  {
    && (forall id :: id in calls ==> calls[id].recorded <= calls[id].passed && (calls[id].passed != {} ==> calls[id].open))
    && (forall k :: 0 <= k < |owners| ==> owners[k] in calls)
    && (forall k :: 0 <= k < |rows| && IsPending(rows[k], calls[owners[k]], user, tier) ==> (user, tier) in calls[owners[k]].recorded)
    && (forall j, k :: 0 <= j < k < |rows| && IsPending(rows[j], calls[owners[j]], user, tier)
          ==> IsPending(rows[k], calls[owners[k]], user, tier) ==> owners[j] != owners[k])
  }

  predicate IsPending(row: Row, call: Call, user: nat, tier: Tier) {
    row.user == user && row.tier == tier && call.open && call.selecting
  }

  /** A call that changes none of its uncommitted records leaves that as it is. */
  lemma OwnedWhenKept(rows: seq<Row>, owners: seq<nat>, calls: map<nat, Call>, id: nat, call: Call, user: nat, tier: Tier)
    requires |rows| == |owners| && Owned(rows, owners, calls, user, tier)
    requires call.recorded <= call.passed && (call.passed != {} ==> call.open)
    requires id in calls ==> call.selecting == calls[id].selecting && (!call.open || calls[id].recorded <= call.recorded)
    requires id in calls ==> call.open ==> calls[id].open
    ensures Owned(rows, owners, calls[id := call], user, tier)
  {
  }

  lemma OwnedWhenInserted(rows: seq<Row>, owners: seq<nat>, calls: map<nat, Call>, id: nat, row: Row, user: nat, tier: Tier)
    requires |rows| == |owners| && Owned(rows, owners, calls, user, tier) && id in calls
    requires (row.user, row.tier) in calls[id].passed && (row.user, row.tier) !in calls[id].recorded
    ensures Owned(rows + [row], owners + [id], calls[id := AfterRecord(calls[id], row.user, row.tier)], user, tier)
  {
    OwnedWhenKept(rows, owners, calls, id, AfterRecord(calls[id], row.user, row.tier), user, tier);
  }

  lemma OwnedStep(st: State, e: Event, user: nat, tier: Tier)
    requires Owned(st.rows, st.owners, st.calls, user, tier)
    ensures Owned(Do(st, e).rows, Do(st, e).owners, Do(st, e).calls, user, tier)
  {
    RecordShape(st, e);
    if Do(st, e) != st {
      var id := e.id;
      if Do(st, e).rows == st.rows {
        OwnedWhenKept(st.rows, st.owners, st.calls, id, Do(st, e).calls[id], user, tier);
      } else {
        OwnedWhenInserted(st.rows, st.owners, st.calls, id,
                          NewRow(e.user, e.tier, InCampaign(st.calls[id].campaign, None), e.now), user, tier);
      }
    }
  }

  lemma {:induction false} RowsAreOwned(run: seq<Event>, user: nat, tier: Tier)
    ensures Owned(After(run).rows, After(run).owners, After(run).calls, user, tier)
  {
    if run != [] {
      RowsAreOwned(run[..|run| - 1], user, tier);
      OwnedStep(After(run[..|run| - 1]), run[|run| - 1], user, tier);
    }
  }

  predicate Misses(row: Row, owner: nat, calls: map<nat, Call>, id: nat, user: nat, tier: Tier) {
    row.user == user && row.tier == tier && Hidden(calls, id, owner)
  }

  /** The owners of the rows of the user that a call does not see. */
  function HiddenOwners(rows: seq<Row>, owners: seq<nat>, calls: map<nat, Call>, id: nat, user: nat, tier: Tier): set<nat>
    requires |rows| == |owners|
  {
    if rows == [] then {}
    else
      var k := |rows| - 1;
      HiddenOwners(rows[..k], owners[..k], calls, id, user, tier) +
      (if Misses(rows[k], owners[k], calls, id, user, tier) then {owners[k]} else {})
  }

  lemma {:induction false} HiddenOwnersMiss(rows: seq<Row>, owners: seq<nat>, calls: map<nat, Call>, id: nat, user: nat, tier: Tier, c: nat)
    requires |rows| == |owners| && c in HiddenOwners(rows, owners, calls, id, user, tier)
    ensures exists k :: 0 <= k < |rows| && owners[k] == c && Misses(rows[k], owners[k], calls, id, user, tier)
  {
    var k := |rows| - 1;
    if !(owners[k] == c && Misses(rows[k], owners[k], calls, id, user, tier)) {
      HiddenOwnersMiss(rows[..k], owners[..k], calls, id, user, tier, c);
    }
  }

  ghost predicate OneHiddenEach(rows: seq<Row>, owners: seq<nat>, calls: map<nat, Call>, id: nat, user: nat, tier: Tier)
    requires |rows| == |owners|
  {
    forall j, k :: 0 <= j < k < |rows| && Misses(rows[j], owners[j], calls, id, user, tier)
      ==> Misses(rows[k], owners[k], calls, id, user, tier) ==> owners[j] != owners[k]
  }

  lemma WinsSinceAppend(rows: seq<Row>, row: Row, user: nat, tier: Tier, from: int)
    ensures WinsSince(rows + [row], user, tier, from) == WinsSince(rows, user, tier, from) +
            (if row.user == user && row.tier == tier && from <= row.wonAt then 1 else 0)
  {
    assert (rows + [row])[..|rows|] == rows;
  }

  lemma LastHidden(rows: seq<Row>, owners: seq<nat>, calls: map<nat, Call>, id: nat, user: nat, tier: Tier)
    requires |rows| == |owners| && rows != [] && OneHiddenEach(rows, owners, calls, id, user, tier)
    ensures var k := |rows| - 1;
            |HiddenOwners(rows, owners, calls, id, user, tier)| == |HiddenOwners(rows[..k], owners[..k], calls, id, user, tier)| +
              (if Misses(rows[k], owners[k], calls, id, user, tier) then 1 else 0)
  {
    var k := |rows| - 1;
    var before := HiddenOwners(rows[..k], owners[..k], calls, id, user, tier);
    if owners[k] in before {
      HiddenOwnersMiss(rows[..k], owners[..k], calls, id, user, tier, owners[k]);
    }
  }

  lemma LastVisible(rows: seq<Row>, owners: seq<nat>, calls: map<nat, Call>, id: nat, user: nat, tier: Tier, from: int)
    requires |rows| == |owners| && rows != []
    ensures var k := |rows| - 1;
            WinsSince(Visible(rows, owners, calls, id), user, tier, from)
              == WinsSince(Visible(rows[..k], owners[..k], calls, id), user, tier, from) +
                 (if !Hidden(calls, id, owners[k]) && rows[k].user == user && rows[k].tier == tier && from <= rows[k].wonAt then 1 else 0)
  {
    var k := |rows| - 1;
    WinsSinceAppend(Visible(rows[..k], owners[..k], calls, id), rows[k], user, tier, from);
    assert Visible(rows[..k], owners[..k], calls, id) + [] == Visible(rows[..k], owners[..k], calls, id);
  }

  /** The wins a call sees: those it recorded itself, those of gift calls, and
      those of selections that have ended. */
  ghost function SeenWins(rows: seq<Row>, owners: seq<nat>, calls: map<nat, Call>, id: nat, user: nat, tier: Tier, from: int): set<int>
    requires |rows| == |owners|
  {
    set k | 0 <= k < |rows| && rows[k].user == user && rows[k].tier == tier && from <= rows[k].wonAt
            && (owners[k] == id || owners[k] !in calls || !calls[owners[k]].selecting || !calls[owners[k]].open)
  }

  lemma LastSeen(rows: seq<Row>, owners: seq<nat>, calls: map<nat, Call>, id: nat, user: nat, tier: Tier, from: int)
    requires |rows| == |owners| && rows != []
    ensures var k := |rows| - 1;
            |SeenWins(rows, owners, calls, id, user, tier, from)| == |SeenWins(rows[..k], owners[..k], calls, id, user, tier, from)| +
              (if !Hidden(calls, id, owners[k]) && rows[k].user == user && rows[k].tier == tier && from <= rows[k].wonAt then 1 else 0)
  {
    var k := |rows| - 1;
    WithoutLast(SeenWins(rows, owners, calls, id, user, tier, from), SeenWins(rows[..k], owners[..k], calls, id, user, tier, from), k);
  }

  lemma {:induction false} VisibleWins(rows: seq<Row>, owners: seq<nat>, calls: map<nat, Call>, id: nat, user: nat, tier: Tier, from: int)
    requires |rows| == |owners|
    ensures WinsSince(Visible(rows, owners, calls, id), user, tier, from) == |SeenWins(rows, owners, calls, id, user, tier, from)|
  {
    if rows != [] {
      var k := |rows| - 1;
      VisibleWins(rows[..k], owners[..k], calls, id, user, tier, from);
      LastVisible(rows, owners, calls, id, user, tier, from);
      LastSeen(rows, owners, calls, id, user, tier, from);
    }
  }

  /** A call misses at most one win for each call that hides one. */
  lemma {:induction false} MissedWins(rows: seq<Row>, owners: seq<nat>, calls: map<nat, Call>, id: nat, user: nat, tier: Tier, from: int)
    requires |rows| == |owners| && OneHiddenEach(rows, owners, calls, id, user, tier)
    ensures WinsSince(rows, user, tier, from)
         <= WinsSince(Visible(rows, owners, calls, id), user, tier, from) + |HiddenOwners(rows, owners, calls, id, user, tier)|
  {
    if rows != [] {
      MissedWins(rows[..|rows| - 1], owners[..|rows| - 1], calls, id, user, tier, from);
      LastHidden(rows, owners, calls, id, user, tier);
      LastVisible(rows, owners, calls, id, user, tier, from);
    }
  }

  lemma HiddenAreUncommitted(st: State, id: nat, user: nat, tier: Tier)
    requires Owned(st.rows, st.owners, st.calls, user, tier)
    ensures OneHiddenEach(st.rows, st.owners, st.calls, id, user, tier)
    ensures |HiddenOwners(st.rows, st.owners, st.calls, id, user, tier)| <= |Uncommitted(st.calls, user, tier)|
  {
    var hidden := HiddenOwners(st.rows, st.owners, st.calls, id, user, tier);
    forall c | c in hidden ensures c in Uncommitted(st.calls, user, tier) {
      HiddenOwnersMiss(st.rows, st.owners, st.calls, id, user, tier, c);
      var k :| 0 <= k < |st.rows| && st.owners[k] == c && Misses(st.rows[k], st.owners[k], st.calls, id, user, tier);
      assert IsPending(st.rows[k], st.calls[st.owners[k]], user, tier);
    }
    SubsetIsNoLarger(hidden, Uncommitted(st.calls, user, tier));
  }

  lemma WaitingAndUncommitted(calls: map<nat, Call>, user: nat, tier: Tier)
    ensures |Holders(calls, user, tier)| == |Waiting(calls, user, tier)| + |Uncommitted(calls, user, tier)|
  {
    assert Holders(calls, user, tier) == Waiting(calls, user, tier) + Uncommitted(calls, user, tier);
  }

  // ---- The bound on overlapping calls ----

  /** The wins of the trailing window plus the calls still to record. */
  function Load(st: State, user: nat, tier: Tier, now: int): nat {
    WinsSince(st.rows, user, tier, now - WINDOW) + |Waiting(st.calls, user, tier)|
  }

  ghost predicate PassesUser(st: State, e: Event, user: nat, tier: Tier) {
    e.Check? && e.user == user && e.tier == tier && MayPass(st, e.id, user, tier, e.config, e.now)
  }

  /** A check that passes sees less than the cap, and misses no more than the
      calls that have not committed. */
  lemma CheckLoad(st: State, e: Event, user: nat, tier: Tier, L: nat)
    requires Owned(st.rows, st.owners, st.calls, user, tier) && tier != Grand
    requires PassesUser(st, e, user, tier) && Limit(tier, InCampaign(0, e.config)) <= L
    ensures Load(Do(st, e), user, tier, e.now) <= L - 1 + |Holders(Do(st, e).calls, user, tier)|
  {
    var seen := Visible(st.rows, st.owners, st.calls, e.id);
    PassingIsBelowTheCap(seen, Attempt(user, tier, InCampaign(st.calls[e.id].campaign, e.config), e.now));
    HiddenAreUncommitted(st, e.id, user, tier);
    MissedWins(st.rows, st.owners, st.calls, e.id, user, tier, e.now - WINDOW);
    assert Uncommitted(Do(st, e).calls, user, tier) == Uncommitted(st.calls, user, tier);
    WaitingAndUncommitted(Do(st, e).calls, user, tier);
  }

  /** A changed call waits only if it waited before. */
  lemma WaitingWhenKept(calls: map<nat, Call>, id: nat, call: Call, user: nat, tier: Tier)
    requires (user, tier) in call.passed && (user, tier) !in call.recorded
      ==> id in calls && (user, tier) in calls[id].passed && (user, tier) !in calls[id].recorded
    ensures |Waiting(calls[id := call], user, tier)| <= |Waiting(calls, user, tier)|
  {
    SubsetIsNoLarger(Waiting(calls[id := call], user, tier), Waiting(calls, user, tier));
  }

  lemma WaitingWhenRecorded(calls: map<nat, Call>, id: nat, user: nat, tier: Tier)
    requires id in calls && (user, tier) in calls[id].passed && (user, tier) !in calls[id].recorded
    ensures |Waiting(calls[id := AfterRecord(calls[id], user, tier)], user, tier)| == |Waiting(calls, user, tier)| - 1
  {
    var after := calls[id := AfterRecord(calls[id], user, tier)];
    assert Waiting(after, user, tier) == Waiting(calls, user, tier) - {id};
  }

  lemma WaitingStep(st: State, e: Event, user: nat, tier: Tier)
    requires !PassesUser(st, e, user, tier)
    ensures |Waiting(Do(st, e).calls, user, tier)| + (if Inserts(st, e, user, tier) then 1 else 0) <= |Waiting(st.calls, user, tier)|
  {
    RecordShape(st, e);
    if Inserts(st, e, user, tier) {
      WaitingWhenRecorded(st.calls, e.id, user, tier);
    } else if Do(st, e) != st {
      WaitingWhenKept(st.calls, e.id, Do(st, e).calls[e.id], user, tier);
    }
  }

  /** Any other step leaves the calls still to record, or takes one away for the
      win it inserts. */
  lemma OtherLoad(st: State, e: Event, user: nat, tier: Tier)
    requires !PassesUser(st, e, user, tier)
    ensures Load(Do(st, e), user, tier, e.now) <= Load(st, user, tier, e.now)
  {
    WinsSinceMove(st, e, user, tier, e.now - WINDOW);
    WaitingStep(st, e, user, tier);
  }

  lemma LoadStep(st: State, e: Event, user: nat, tier: Tier, L: nat, m: nat)
    requires Owned(st.rows, st.owners, st.calls, user, tier) && tier != Grand
    requires 0 < m && Load(st, user, tier, e.now) <= L + m - 1
    requires e.Check? && e.user == user && e.tier == tier ==> Limit(tier, InCampaign(0, e.config)) <= L
    requires |Holders(Do(st, e).calls, user, tier)| <= m
    ensures Load(Do(st, e), user, tier, e.now) <= L + m - 1
  {
    if PassesUser(st, e, user, tier) {
      CheckLoad(st, e, user, tier, L);
    } else {
      OtherLoad(st, e, user, tier);
    }
  }

  lemma LoadFalls(st: State, user: nat, tier: Tier, now: int, later: int)
    requires now <= later
    ensures Load(st, user, tier, later) <= Load(st, user, tier, now)
  {
    WinsSinceLater(st.rows, user, tier, now - WINDOW, later - WINDOW);
  }

  lemma {:induction false} LoadIsBounded(run: seq<Event>, user: nat, tier: Tier, L: nat, m: nat, now: int)
    requires InOrder(run) && tier != Grand && CapsUpTo(run, user, tier, L) && 0 < m && AtMostInFlight(run, user, tier, m)
    requires forall i :: 0 <= i < |run| ==> run[i].now <= now
    ensures Load(After(run), user, tier, now) <= L + m - 1
  {
    if run != [] {
      var before, e := run[..|run| - 1], run[|run| - 1];
      LoadIsBounded(before, user, tier, L, m, e.now);
      RowsAreOwned(before, user, tier);
      LoadStep(After(before), e, user, tier, L, m);
      LoadFalls(After(run), user, tier, e.now, now);
    }
  }

  lemma InsertedWithinBound(st: State, user: nat, tier: Tier, bound: int, lo: int, hi: int, now: int)
    requires Load(st, user, tier, now) <= bound && hi - lo <= WINDOW && now <= hi
    ensures WinsBetween(st.rows, user, tier, lo, hi) <= bound
  {
    WinsBetweenShrinks(st.rows, user, tier, lo, hi, now - WINDOW);
  }

  /** With at most m calls in flight for the user, every closed thirty days hold
      at most L + m - 1 recorded wins. */
  lemma {:induction false} OverlapBound(run: seq<Event>, user: nat, tier: Tier, L: nat, m: nat, lo: int, hi: int)
    requires InOrder(run) && tier != Grand && CapsUpTo(run, user, tier, L) && 0 < m && AtMostInFlight(run, user, tier, m)
    requires hi - lo <= WINDOW
    ensures WinsBetween(After(run).rows, user, tier, lo, hi) <= L + m - 1
  {
    if run != [] {
      var before, e := run[..|run| - 1], run[|run| - 1];
      if e.now <= hi {
        LoadIsBounded(run, user, tier, L, m, e.now);
        InsertedWithinBound(After(run), user, tier, L + m - 1, lo, hi, e.now);
      } else {
        OverlapBound(before, user, tier, L, m, lo, hi);
        WinsMove(After(before), e, user, tier, lo, hi);
      }
    }
  }

  // ---- When the cap survives ----

  ghost predicate OpenAt(st: State, e: Event, user: nat, tier: Tier, L: nat) {
    Inserts(st, e, user, tier) ==> WinsSince(st.rows, user, tier, e.now - WINDOW) < L
  }

  /** Every insertion of the run still finds the cap open, as its check did, in a
      table that counts the rows not yet committed. */
  ghost predicate StillOpen(run: seq<Event>, user: nat, tier: Tier, L: nat) {
    run != [] ==>
      var before := run[..|run| - 1];
      StillOpen(before, user, tier, L) && OpenAt(After(before), run[|run| - 1], user, tier, L)
  }

  lemma {:induction false} RowsAreDated(run: seq<Event>, now: int)
    requires InOrder(run) && forall i :: 0 <= i < |run| ==> run[i].now <= now
    ensures forall i :: 0 <= i < |After(run).rows| ==> After(run).rows[i].wonAt <= now
  {
    if run != [] {
      RowsAreDated(run[..|run| - 1], now);
      RecordShape(After(run[..|run| - 1]), run[|run| - 1]);
    }
  }

  lemma {:induction false} TrailingIsClosed(rows: seq<Row>, user: nat, tier: Tier, from: int, now: int)
    requires forall i :: 0 <= i < |rows| ==> rows[i].wonAt <= now
    ensures WinsSince(rows, user, tier, from) == WinsBetween(rows, user, tier, from, now)
  {
    if rows != [] {
      TrailingIsClosed(rows[..|rows| - 1], user, tier, from, now);
    }
  }

  /** Over every run, however its calls overlap, the cap on recorded wins holds
      exactly when each insertion would still pass the count its call checked. */
  lemma {:induction false} CapSurvivesIff(run: seq<Event>, user: nat, tier: Tier, L: nat)
    requires InOrder(run) && tier != Grand
    ensures KeepsBound(After(run).rows, user, tier, L) <==> StillOpen(run, user, tier, L)
  {
    if run != [] {
      var before, e := run[..|run| - 1], run[|run| - 1];
      CapSurvivesIff(before, user, tier, L);
      RowsAreDated(before, e.now);
      BoundMovesWith(After(before), e, user, tier, L);
    }
  }

  lemma OpenKeepsBound(st: State, e: Event, user: nat, tier: Tier, L: nat, lo: int, hi: int)
    requires OpenAt(st, e, user, tier, L) && hi - lo <= WINDOW && WinsBetween(st.rows, user, tier, lo, hi) <= L
    ensures WinsBetween(Do(st, e).rows, user, tier, lo, hi) <= L
  {
    WinsMove(st, e, user, tier, lo, hi);
    if lo <= e.now <= hi {
      WinsBetweenShrinks(st.rows, user, tier, lo, hi, e.now - WINDOW);
    }
  }

  lemma ClosedBreaksBound(st: State, e: Event, user: nat, tier: Tier, L: nat)
    requires forall i :: 0 <= i < |st.rows| ==> st.rows[i].wonAt <= e.now
    requires !OpenAt(st, e, user, tier, L)
    ensures WinsBetween(Do(st, e).rows, user, tier, e.now - WINDOW, e.now) > L
  {
    TrailingIsClosed(st.rows, user, tier, e.now - WINDOW, e.now);
    WinsMove(st, e, user, tier, e.now - WINDOW, e.now);
  }

  lemma BoundMovesWith(st: State, e: Event, user: nat, tier: Tier, L: nat)
    requires forall i :: 0 <= i < |st.rows| ==> st.rows[i].wonAt <= e.now
    ensures KeepsBound(Do(st, e).rows, user, tier, L) <==>
              KeepsBound(st.rows, user, tier, L) && OpenAt(st, e, user, tier, L)
  {
    forall lo, hi ensures WinsBetween(st.rows, user, tier, lo, hi) <= WinsBetween(Do(st, e).rows, user, tier, lo, hi) {
      WinsMove(st, e, user, tier, lo, hi);
    }
    if !OpenAt(st, e, user, tier, L) {
      ClosedBreaksBound(st, e, user, tier, L);
    } else if KeepsBound(st.rows, user, tier, L) {
      forall lo, hi | hi - lo <= WINDOW ensures WinsBetween(Do(st, e).rows, user, tier, lo, hi) <= L {
        OpenKeepsBound(st, e, user, tier, L, lo, hi);
      }
    } else {
      var lo, hi :| hi - lo <= WINDOW && WinsBetween(st.rows, user, tier, lo, hi) > L;
      assert WinsBetween(Do(st, e).rows, user, tier, lo, hi) > L;
    }
  }

  // ---- Who may begin ----

  /** A call begins exactly under a new number and, if it is a selection, while
      no selection of its campaign is open; gift calls neither wait nor make
      others wait. It begins with nobody passed. */
  lemma BeginsIff(st: State, id: nat, campaign: nat, selecting: bool, now: nat)
    ensures var after := Do(st, Begin(id, campaign, selecting, now));
            && (after != st <==> id !in st.calls && (selecting ==>
                  forall c :: c in st.calls && st.calls[c].campaign == campaign ==> !(st.calls[c].selecting && st.calls[c].open)))
            && (after != st ==> after == Table(st.rows, st.owners, st.calls[id := Call(campaign, selecting, true, {}, {})]))
  {
    var begun := st.calls[id := Call(campaign, selecting, true, {}, {})];
    assert id in begun;
  }

  /** The calls but one are as they were. */
  ghost predicate OthersKept(st: State, after: State, id: nat) {
    after.calls.Keys == st.calls.Keys && forall c :: c in st.calls && c != id ==> after.calls[c] == st.calls[c]
  }

  /** A check adds the user to those its call has passed exactly when the call is
      open and the user is eligible in its campaign on the rows it sees, and
      changes nothing else. */
  lemma ChecksIff(st: State, id: nat, user: nat, tier: Tier, config: Option<Config>, now: nat)
    requires id in st.calls
    ensures var after, call := Do(st, Check(id, user, tier, config, now)), st.calls[id];
            var seen := Visible(st.rows, st.owners, st.calls, id);
            && after.rows == st.rows && after.owners == st.owners && OthersKept(st, after, id)
            && after.calls[id] == call.(passed := after.calls[id].passed)
            && var passes := call.open && CheckEligibility(seen, user, tier, InCampaign(call.campaign, config), now).eligible;
               forall w :: w in after.calls[id].passed <==> (w in call.passed || (passes && w == (user, tier)))
  {
  }

  /** A record goes through for a user its call has passed and not recorded. It
      inserts a row of its own, unless the period has one; then a gift call is
      done with the user, and a selection has recorded the user and no other. */
  lemma RecordsIff(st: State, id: nat, user: nat, tier: Tier, now: nat)
    requires id in st.calls
    ensures var after, call := Do(st, Record(id, user, tier, now)), st.calls[id];
            var goes := (user, tier) in call.passed && (user, tier) !in call.recorded;
            var free := forall r :: r in st.rows ==> !(r.user == user && r.tier == tier && r.periodStart == PeriodStart(tier, now));
            && OthersKept(st, after, id)
            && after.calls[id] == call.(passed := after.calls[id].passed, recorded := after.calls[id].recorded)
            && (forall w :: w in after.calls[id].passed <==> w in call.passed && !(goes && !call.selecting && w == (user, tier)))
            && (forall w :: w in after.calls[id].recorded <==> w in call.recorded || (goes && call.selecting && w == (user, tier)))
            && after.owners == st.owners + (if goes && free then [id] else [])
            && after.rows == st.rows + (if goes && free
                 then [Row(user, tier, Some(call.campaign), now, PeriodStart(tier, now), PeriodEnd(tier, now))] else [])
  {
    HeldByARow(st.rows, user, tier, PeriodStart(tier, now));
  }

  lemma HeldByARow(rows: seq<Row>, user: nat, tier: Tier, start: int)
    ensures Holds(rows, user, tier, start) <==> !forall r :: r in rows ==> !(r.user == user && r.tier == tier && r.periodStart == start)
  {
    if r :| r in rows && r.user == user && r.tier == tier && r.periodStart == start {
      var i :| 0 <= i < |rows| && rows[i] == r;
    }
  }

  /** The end of a call leaves it with nothing passed, and its rows to be seen. */
  lemma EndsIs(st: State, id: nat, now: nat)
    requires id in st.calls
    ensures var after := Do(st, End(id, now));
            && after.rows == st.rows && after.owners == st.owners && OthersKept(st, after, id)
            && !after.calls[id].open && after.calls[id].passed == {} == after.calls[id].recorded
            && after.calls[id].campaign == st.calls[id].campaign && after.calls[id].selecting == st.calls[id].selecting
  {
  }

  /** So the end of a selection lets the next one of its campaign begin. */
  lemma EndReleasesTheLock(st: State, id: nat, next: nat, now: nat)
    requires id in st.calls && st.calls[id].open && st.calls[id].selecting && next !in st.calls
    requires forall c :: c in st.calls && c != id && st.calls[c].selecting && st.calls[c].open
                         ==> st.calls[c].campaign != st.calls[id].campaign
    ensures var e := Begin(next, st.calls[id].campaign, true, now);
            Do(st, e) == st && Do(Do(st, End(id, now)), e) != Do(st, End(id, now))
  {
    BeginsIff(st, next, st.calls[id].campaign, true, now);
    BeginsIff(Do(st, End(id, now)), next, st.calls[id].campaign, true, now);
  }

  // ---- What the lock gives ----

  /** Selections only, of these campaigns. */
  ghost predicate OnlySelections(run: seq<Event>, campaigns: set<nat>) {
    forall i :: 0 <= i < |run| && run[i].Begin? ==> run[i].selecting && run[i].campaign in campaigns
  }

  ghost predicate OneSelectionEach(calls: map<nat, Call>, campaigns: set<nat>) {
    && (forall id :: id in calls ==> calls[id].selecting && calls[id].campaign in campaigns)
    && (forall id :: id in calls && calls[id].passed != {} ==> calls[id].open)
    && (forall id, other :: id in calls && other in calls && id != other && calls[id].open && calls[other].open
          ==> calls[id].campaign != calls[other].campaign)
  }

  lemma {:induction false} LockSerialises(run: seq<Event>, campaigns: set<nat>)
    requires OnlySelections(run, campaigns)
    ensures OneSelectionEach(After(run).calls, campaigns)
  {
    if run != [] {
      var before, e := run[..|run| - 1], run[|run| - 1];
      assert OnlySelections(before, campaigns);
      LockSerialises(before, campaigns);
      LockStep(After(before), e, campaigns);
    }
  }

  lemma LockStep(st: State, e: Event, campaigns: set<nat>)
    requires OneSelectionEach(st.calls, campaigns)
    requires e.Begin? ==> e.selecting && e.campaign in campaigns
    ensures OneSelectionEach(Do(st, e).calls, campaigns)
  {
  }

  lemma {:induction false} InjectionBound(ids: set<nat>, f: map<nat, nat>, target: set<nat>)
    requires forall id :: id in ids ==> id in f && f[id] in target
    requires forall a, b :: a in ids && b in ids && a != b ==> f[a] != f[b]
    ensures |ids| <= |target|
    decreases |ids|
  {
    if id :| id in ids {
      InjectionBound(ids - {id}, f, target - {f[id]});
    }
  }

  lemma HoldersAreSelections(calls: map<nat, Call>, campaigns: set<nat>, user: nat, tier: Tier)
    requires OneSelectionEach(calls, campaigns)
    ensures |Holders(calls, user, tier)| <= |campaigns|
  {
    InjectionBound(Holders(calls, user, tier), map id | id in calls :: calls[id].campaign, campaigns);
  }

  lemma {:induction false} SelectionsInFlight(run: seq<Event>, campaigns: set<nat>, user: nat, tier: Tier)
    requires OnlySelections(run, campaigns)
    ensures AtMostInFlight(run, user, tier, |campaigns|)
  {
    LockSerialises(run, campaigns);
    HoldersAreSelections(After(run).calls, campaigns, user, tier);
    if run != [] {
      SelectionsInFlight(run[..|run| - 1], campaigns, user, tier);
    }
  }

  /** The row lock leaves one selection per campaign in flight, so among n
      campaigns, without gift calls, thirty days hold at most L + n - 1 recorded
      wins; the selections of one campaign keep the cap. */
  lemma SelectionsBound(run: seq<Event>, campaigns: set<nat>, user: nat, tier: Tier, L: nat, lo: int, hi: int)
    requires InOrder(run) && tier != Grand && CapsUpTo(run, user, tier, L) && hi - lo <= WINDOW
    requires OnlySelections(run, campaigns) && campaigns != {}
    ensures WinsBetween(After(run).rows, user, tier, lo, hi) <= L + |campaigns| - 1
  {
    SelectionsInFlight(run, campaigns, user, tier);
    OverlapBound(run, user, tier, L, |campaigns|, lo, hi);
  }

  // ---- Two selections across midnight ----

  lemma {:induction false} AllCount(rows: seq<Row>, user: nat, tier: Tier, lo: int, hi: int)
    requires forall i :: 0 <= i < |rows| ==> rows[i].user == user && rows[i].tier == tier && lo <= rows[i].wonAt <= hi
    ensures WinsBetween(rows, user, tier, lo, hi) == |rows|
  {
    if rows != [] {
      AllCount(rows[..|rows| - 1], user, tier, lo, hi);
    }
  }

  lemma AcrossMidnight(now: nat)
    requires (now + 1) % DAY == 0
    ensures PeriodStart(Daily, now) != PeriodStart(Daily, now + 1)
  {
    KeyIffSamePeriod(Daily, now, now + 1);
    assert (now + 1) / DAY == now / DAY + 1;
  }

  function Midnight(user: nat, first: nat, second: nat, now: nat): seq<Event> {
    [Begin(0, first, true, now), Begin(1, second, true, now)] +
    [Check(0, user, Daily, None, now), Check(1, user, Daily, None, now)] +
    [Record(0, user, Daily, now), Record(1, user, Daily, now + 1)]
  }

  /** Two selections of different campaigns, both checking a user before either
      records, leave two daily wins a microsecond apart under caps of one. */
  lemma TwoCampaignsAcrossMidnight(user: nat, first: nat, second: nat, now: nat)
    requires first != second && (now + 1) % DAY == 0
    ensures var run := Midnight(user, first, second, now);
            InOrder(run) && CapsUpTo(run, user, Daily, 1) && WinsBetween(After(run).rows, user, Daily, now, now + 1) == 2
  {
    var begins := [Begin(0, first, true, now), Begin(1, second, true, now)];
    BothBegin(first, second, now);
    BothCheck(begins, user, first, second, now);
    BothRecord(begins + [Check(0, user, Daily, None, now), Check(1, user, Daily, None, now)], user, first, second, now);
    TwoRows(user, first, second, now);
    MidnightIsARun(user, first, second, now);
  }

  lemma MidnightIsARun(user: nat, first: nat, second: nat, now: nat)
    ensures InOrder(Midnight(user, first, second, now)) && CapsUpTo(Midnight(user, first, second, now), user, Daily, 1)
  {
  }

  lemma TwoRows(user: nat, first: nat, second: nat, now: nat)
    ensures WinsBetween([NewRow(user, Daily, InCampaign(first, None), now), NewRow(user, Daily, InCampaign(second, None), now + 1)],
                        user, Daily, now, now + 1) == 2
  {
    AllCount([NewRow(user, Daily, InCampaign(first, None), now), NewRow(user, Daily, InCampaign(second, None), now + 1)],
             user, Daily, now, now + 1);
  }

  lemma TwoSteps(run: seq<Event>, e: Event, f: Event)
    ensures After(run + [e, f]) == Do(Do(After(run), e), f)
  {
    var longer := run + [e];
    assert longer + [f] == run + [e, f];
    AfterNext(longer, f);
    AfterNext(run, e);
  }

  /** Both selections, before and after they have passed the user. */
  function Pair(first: nat, second: nat, passed: set<(nat, Tier)>): map<nat, Call> {
    map[0 := Call(first, true, true, passed, {}), 1 := Call(second, true, true, passed, {})]
  }

  lemma BothBegin(first: nat, second: nat, now: nat)
    requires first != second
    ensures After([Begin(0, first, true, now), Begin(1, second, true, now)]) == Table([], [], Pair(first, second, {}))
  {
    var e, f := Begin(0, first, true, now), Begin(1, second, true, now);
    TwoSteps([], e, f);
    assert [] + [e, f] == [e, f];
    var one := map[0 := Call(first, true, true, {}, {})];
    assert Do(Table([], [], map[]), e) == Table([], [], one);
    assert !Locked(one, second);
    assert one[1 := Call(second, true, true, {}, {})] == Pair(first, second, {});
  }

  /** A check on an empty table passes. */
  lemma EmptyTablePasses(calls: map<nat, Call>, id: nat, user: nat, now: nat)
    requires id in calls && calls[id].open && calls[id].passed == {}
    ensures Do(Table([], [], calls), Check(id, user, Daily, None, now))
         == Table([], [], calls[id := calls[id].(passed := {(user, Daily)})])
  {
    assert {} + {(user, Daily)} == {(user, Daily)};
  }

  lemma BothCheck(run: seq<Event>, user: nat, first: nat, second: nat, now: nat)
    requires After(run) == Table([], [], Pair(first, second, {}))
    ensures After(run + [Check(0, user, Daily, None, now), Check(1, user, Daily, None, now)])
         == Table([], [], Pair(first, second, {(user, Daily)}))
  {
    TwoSteps(run, Check(0, user, Daily, None, now), Check(1, user, Daily, None, now));
    var calls := Pair(first, second, {});
    EmptyTablePasses(calls, 0, user, now);
    EmptyTablePasses(calls[0 := Call(first, true, true, {(user, Daily)}, {})], 1, user, now);
    assert calls[0 := Call(first, true, true, {(user, Daily)}, {})][1 := Call(second, true, true, {(user, Daily)}, {})]
        == Pair(first, second, {(user, Daily)});
  }

  lemma BothRecord(run: seq<Event>, user: nat, first: nat, second: nat, now: nat)
    requires (now + 1) % DAY == 0
    requires After(run) == Table([], [], Pair(first, second, {(user, Daily)}))
    ensures After(run + [Record(0, user, Daily, now), Record(1, user, Daily, now + 1)]).rows
         == [NewRow(user, Daily, InCampaign(first, None), now), NewRow(user, Daily, InCampaign(second, None), now + 1)]
  {
    AcrossMidnight(now);
    var one, two := NewRow(user, Daily, InCampaign(first, None), now), NewRow(user, Daily, InCampaign(second, None), now + 1);
    TwoSteps(run, Record(0, user, Daily, now), Record(1, user, Daily, now + 1));
    assert !Holds([one], user, Daily, PeriodStart(Daily, now + 1));
    assert [] + [one] == [one] && [one] + [two] == [one, two];
  }
}
