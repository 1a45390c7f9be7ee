/** The login gate when its check and its count are separate steps: a login is
    let in on the counter it finds, has its password checked, and only then
    reads the counter again and writes it. */
module GateRace {
  import LoginGate
  import opened Sets

  /** One identity: the counter in the cache, the wrong passwords on their way
      from the gate to the write, what those that read it again hold, and the
      guesses let in since the counter was last dropped. */
  datatype State = State(stored: nat, inside: set<nat>, held: map<nat, nat>, guesses: nat)

  /** `Drop` is a clear by a right password, or the entry running out. */
  datatype Step = Enter(login: nat) | Read(login: nat) | Write(login: nat) | Drop

  predicate Open(stored: nat) {
    stored < LoginGate.MAX_ATTEMPTS
  }

  function Next(s: State, step: Step): State {
    match step
    case Enter(c) => if c in s.inside || !Open(s.stored) then s else s.(inside := s.inside + {c}, guesses := s.guesses + 1)
    case Read(c) => if c in s.inside && c !in s.held then s.(held := s.held[c := s.stored]) else s
    case Write(c) => if c in s.held then s.(stored := s.held[c] + 1, inside := s.inside - {c}, held := s.held - {c}) else s
    case Drop => s.(stored := 0, guesses := 0)
  }

  function Run(steps: seq<Step>): State {
    if steps == [] then State(0, {}, map[], 0) else Next(Run(steps[..|steps| - 1]), steps[|steps| - 1])
  }

  /** After every prefix, at most m wrong passwords are between the gate and
      their write. */
  ghost predicate AtMostInside(steps: seq<Step>, m: nat) {
    |Run(steps).inside| <= m && (steps != [] ==> AtMostInside(steps[..|steps| - 1], m))
  }

  /** The guesses that m logins can get in from a count on. One of them reads it
      and waits, the others spend what they can, and its write brings the count
      back to one more than it was. */
  function Most(m: nat, stored: nat): nat
    decreases m, LoginGate.MAX_ATTEMPTS - stored
  {
    if m == 0 || !Open(stored) then 0 else 1 + Most(m - 1, stored) + Most(m, stored + 1)
  }

  // ---- That many are let in ----

  lemma Extends(steps: seq<Step>, step: Step, m: nat, next: State)
    requires AtMostInside(steps, m) && next == Next(Run(steps), step) && |next.inside| <= m
    ensures Run(steps + [step]) == next && AtMostInside(steps + [step], m)
  {
    assert (steps + [step])[..|steps|] == steps;
  }

  lemma {:induction false} Unused(s: set<nat>) returns (c: nat)
    ensures forall x: nat :: x in s ==> x < c
  {
    c := 0;
    if s != {} {
      var x :| x in s;
      c := Unused(s - {x});
      c := if x < c then c else x + 1;
      forall y: nat | y in s ensures y < c {
        assert y == x || y in s - {x};
      }
    }
  }

  /** The run is in this state, and kept to m logins all along. */
  ghost predicate IsAt(steps: seq<Step>, m: nat, s: State) {
    Run(steps) == s && AtMostInside(steps, m)
  }

  /** A login enters and reads. */
  lemma EntersAndReads(steps: seq<Step>, m: nat, s: State, c: nat) returns (longer: seq<Step>)
    requires IsAt(steps, m, s) && c !in s.inside && c !in s.held && Open(s.stored) && |s.inside| < m
    ensures IsAt(longer, m, State(s.stored, s.inside + {c}, s.held[c := s.stored], s.guesses + 1))
  {
    var entered := State(s.stored, s.inside + {c}, s.held, s.guesses + 1);
    Extends(steps, Enter(c), m, entered);
    longer := steps + [Enter(c)];
    Extends(longer, Read(c), m, entered.(held := s.held[c := s.stored]));
    longer := longer + [Read(c)];
  }

  /** Its write undoes both, and leaves one more than it read. */
  lemma Writes(steps: seq<Step>, m: nat, s: State, c: nat, inside: set<nat>, held: map<nat, nat>, read: nat)
    returns (longer: seq<Step>)
    requires IsAt(steps, m, s) && c !in inside && c !in held && s.inside == inside + {c} && s.held == held[c := read]
    ensures IsAt(longer, m, State(read + 1, inside, held, s.guesses))
  {
    assert inside + {c} - {c} == inside && held[c := read] - {c} == held;
    Extends(steps, Write(c), m, State(read + 1, inside, held, s.guesses));
    longer := steps + [Write(c)];
  }

  /** A login that was not there reads and waits. */
  lemma StartsWaiting(steps: seq<Step>, m: nat, s: State) returns (longer: seq<Step>, c: nat, next: State)
    requires IsAt(steps, m, s) && |s.inside| < m && s.held.Keys <= s.inside && Open(s.stored)
    ensures IsAt(longer, m, next) && c !in s.inside && c !in s.held
    ensures next.stored == s.stored && next.inside == s.inside + {c} && next.held == s.held[c := s.stored]
    ensures next.guesses == s.guesses + 1 && |next.inside| == |s.inside| + 1 && next.held.Keys <= next.inside
  {
    c := Unused(s.inside);
    next := State(s.stored, s.inside + {c}, s.held[c := s.stored], s.guesses + 1);
    longer := EntersAndReads(steps, m, s, c);
  }

  /** One login reads and waits while the others spend what they can. */
  lemma {:induction false} WaitsWhileOthersSpend(steps: seq<Step>, m: nat, s: State, j: nat) returns (longer: seq<Step>)
    requires IsAt(steps, m, s) && |s.inside| + j <= m && s.held.Keys <= s.inside && 0 < j && Open(s.stored)
    ensures IsAt(longer, m, State(s.stored + 1, s.inside, s.held, s.guesses + 1 + Most(j - 1, s.stored)))
    decreases j, LoginGate.MAX_ATTEMPTS - s.stored, 0
  {
    var waiting, c, next := StartsWaiting(steps, m, s);
    var spent, left := Spend(waiting, m, next, j - 1);
    longer := Writes(spent, m, State(left, next.inside, next.held, next.guesses + Most(j - 1, s.stored)), c, s.inside, s.held, s.stored);
  }

  /** With j logins to spare, that many guesses are still to come, and those
      inside are left as they were. */
  lemma {:induction false} Spend(steps: seq<Step>, m: nat, s: State, j: nat) returns (longer: seq<Step>, stored: nat)
    requires IsAt(steps, m, s) && |s.inside| + j <= m && s.held.Keys <= s.inside
    ensures IsAt(longer, m, State(stored, s.inside, s.held, s.guesses + Most(j, s.stored)))
    decreases j, LoginGate.MAX_ATTEMPTS - s.stored, 1
  {
    longer, stored := steps, s.stored;
    if 0 < j && Open(s.stored) {
      var waited := WaitsWhileOthersSpend(steps, m, s, j);
      longer, stored := Spend(waited, m, State(s.stored + 1, s.inside, s.held, s.guesses + 1 + Most(j - 1, s.stored)), j);
    }
  }

  // ---- And no more ----

  /** What a count one higher costs so many logins. */
  function Cost(slots: nat, stored: nat): nat {
    if slots == 0 then 0 else 1 + Most(slots - 1, stored)
  }

  lemma {:induction false} CostIs(slots: nat, stored: nat)
    requires Open(stored)
    ensures Most(slots, stored) == Most(slots, stored + 1) + Cost(slots, stored)
    ensures Cost(slots + 1, stored) == Cost(slots, stored) + 1 + Most(slots, stored + 1)
  {
  }

  lemma {:induction false} CostGrows(slots: nat, more: nat, stored: nat)
    requires Open(stored) && slots <= more
    ensures Cost(slots, stored) <= Cost(more, stored)
    ensures slots < more ==> Cost(slots, stored) < Cost(more, stored)
    decreases more
  {
    if slots < more {
      CostGrows(slots, more - 1, stored);
      CostIs(more - 1, stored);
    }
  }

  /** The logins that hold t or more. */
  function Above(held: map<nat, nat>, t: nat): set<nat> {
    set c | c in held && t <= held[c]
  }

  /** Of m logins, those that hold t or more, or would read it now. */
  function AtLeast(s: State, m: nat, t: nat): nat
    requires |s.held.Keys| <= m
  {
    |Above(s.held, t)| + (if t <= s.stored then m - |s.held.Keys| else 0)
  }

  /** What those counts cost, from t on. */
  function Spent(s: State, m: nat, t: nat): nat
    requires |s.held.Keys| <= m && 0 < t
    decreases LoginGate.MAX_ATTEMPTS - t
  {
    if !Open(t) then 0 else Cost(AtLeast(s, m, t), t - 1) + Spent(s, m, t + 1)
  }

  /** A guess is paid for by the login that makes it while it is inside, by a
      counter that is full, or by a count that has risen for some of the logins. */
  ghost predicate PaidFor(s: State, m: nat) {
    && s.held.Keys <= s.inside && |s.held.Keys| <= |s.inside| <= m
    && s.guesses <= Spent(s, m, 1) + (if Open(s.stored) then |s.inside| else m)
  }

  lemma AboveIsHeld(held: map<nat, nat>, t: nat)
    ensures |Above(held, t)| <= |held.Keys| && |Above(held, t + 1)| <= |Above(held, t)|
  {
    SubsetIsNoLarger(Above(held, t), held.Keys);
    SubsetIsNoLarger(Above(held, t + 1), Above(held, t));
  }

  lemma {:induction false} LastCount(m: nat)
    ensures Most(m, LoginGate.MAX_ATTEMPTS - 1) == m
  {
    if m > 0 {
      LastCount(m - 1);
    }
  }

  lemma {:induction false} SpentIsBounded(s: State, m: nat, t: nat)
    requires |s.held.Keys| <= m && 0 < t <= LoginGate.MAX_ATTEMPTS
    ensures Spent(s, m, t) + m <= Most(m, t - 1)
    decreases LoginGate.MAX_ATTEMPTS - t
  {
    if Open(t) {
      SpentIsBounded(s, m, t + 1);
      AboveIsHeld(s.held, t);
      CostGrows(AtLeast(s, m, t), m, t - 1);
      CostIs(m, t - 1);
    } else {
      LastCount(m);
    }
  }

  lemma SpentFrom(s: State, m: nat, t: nat)
    requires |s.held.Keys| <= m && 0 < t && Open(t)
    ensures Spent(s, m, t) == Cost(AtLeast(s, m, t), t - 1) + Spent(s, m, t + 1)
  {
  }

  lemma NothingSpentAt(s: State, m: nat, t: nat)
    requires |s.held.Keys| <= m && 0 < t && !Open(t)
    ensures Spent(s, m, t) == 0
  {
  }

  /** A write of what login c holds. */
  predicate IsWrite(s: State, c: nat, after: State) {
    c in s.held && after.held == s.held - {c} && after.stored == s.held[c] + 1
  }

  lemma WriteMoves(s: State, c: nat, after: State, m: nat, t: nat)
    requires IsWrite(s, c, after) && |s.held.Keys| <= m
    ensures |after.held.Keys| == |s.held.Keys| - 1
    ensures AtLeast(s, m, t) == |Above(after.held, t)| + (if t <= s.held[c] then 1 else 0) + (if t <= s.stored then m - |s.held.Keys| else 0)
    ensures AtLeast(after, m, t) == |Above(after.held, t)| + (if t <= s.held[c] + 1 then m - |s.held.Keys| + 1 else 0)
  {
    assert after.held.Keys == s.held.Keys - {c};
    if t <= s.held[c] {
      assert Above(after.held, t) == Above(s.held, t) - {c};
    } else {
      assert Above(after.held, t) == Above(s.held, t);
    }
  }

  lemma GivenBackAt(before: nat, after: nat, n: nat, stored: nat)
    requires Open(stored) && before <= n
    ensures before <= after ==> Cost(before, stored) <= Cost(after, stored)
    ensures Cost(before, stored) + Most(n, stored + 1) <= Cost(after, stored) + Most(n, stored)
  {
    if before <= after {
      CostGrows(before, after, stored);
    }
    CostGrows(before, n, stored);
    CostIs(n, stored);
  }

  lemma GivenBackStep(s: State, c: nat, after: State, m: nat, t: nat, k: nat)
    requires IsWrite(s, c, after) && |s.held.Keys| <= m && s.held[c] + 1 < t && Open(t) && |Above(after.held, t)| <= k
    ensures |after.held.Keys| <= m
    ensures s.stored <= s.held[c] ==> Cost(AtLeast(s, m, t), t - 1) <= Cost(AtLeast(after, m, t), t - 1)
    ensures Cost(AtLeast(s, m, t), t - 1) + Most(k + m - |s.held.Keys|, t)
         <= Cost(AtLeast(after, m, t), t - 1) + Most(k + m - |s.held.Keys|, t - 1)
  {
    WriteMoves(s, c, after, m, t);
    GivenBackAt(AtLeast(s, m, t), AtLeast(after, m, t), k + m - |s.held.Keys|, t - 1);
  }

  /** Past the count it writes, a write gives back no more than the logins that
      now read less could still spend. */
  lemma {:induction false} GivenBack(s: State, c: nat, after: State, m: nat, t: nat, k: nat)
    requires IsWrite(s, c, after) && |s.held.Keys| <= m && s.held[c] + 1 < t <= LoginGate.MAX_ATTEMPTS
    requires |Above(after.held, t)| <= k
    ensures |after.held.Keys| <= m
    ensures s.stored <= s.held[c] ==> Spent(s, m, t) <= Spent(after, m, t)
    ensures Spent(s, m, t) + k + m - |s.held.Keys| <= Spent(after, m, t) + Most(k + m - |s.held.Keys|, t - 1)
    decreases LoginGate.MAX_ATTEMPTS - t
  {
    WriteMoves(s, c, after, m, t);
    if Open(t) {
      AboveIsHeld(after.held, t);
      GivenBack(s, c, after, m, t + 1, k);
      GivenBackStep(s, c, after, m, t, k);
      SpentFrom(s, m, t);
      SpentFrom(after, m, t);
    } else {
      LastCount(k + m - |s.held.Keys|);
      NothingSpentAt(s, m, t);
    }
  }

  lemma NothingLostAt(s: State, c: nat, after: State, m: nat, t: nat)
    requires IsWrite(s, c, after) && |s.held.Keys| <= m && |after.held.Keys| <= m && 0 < t <= s.held[c] && Open(t)
    ensures Cost(AtLeast(s, m, t), t - 1) <= Cost(AtLeast(after, m, t), t - 1)
  {
    WriteMoves(s, c, after, m, t);
    CostGrows(AtLeast(s, m, t), AtLeast(after, m, t), t - 1);
  }

  /** Up to the count it read, a write takes nothing away. */
  lemma {:induction false} NothingBelow(s: State, c: nat, after: State, m: nat, t: nat, gain: int)
    requires IsWrite(s, c, after) && |s.held.Keys| <= m && |after.held.Keys| <= m && 0 < t <= s.held[c] + 1
    requires Spent(s, m, s.held[c] + 1) + gain <= Spent(after, m, s.held[c] + 1)
    ensures Spent(s, m, t) + gain <= Spent(after, m, t)
    decreases s.held[c] + 1 - t
  {
    if t <= s.held[c] {
      NothingBelow(s, c, after, m, t + 1, gain);
      if Open(t) {
        NothingLostAt(s, c, after, m, t);
        SpentFrom(s, m, t);
        SpentFrom(after, m, t);
      } else {
        NothingSpentAt(s, m, t);
        NothingSpentAt(s, m, t + 1);
        NothingSpentAt(after, m, t + 1);
      }
    }
  }

  lemma LowCosts(s: State, c: nat, after: State, m: nat, h: nat, n: nat)
    requires IsWrite(s, c, after) && |s.held.Keys| <= m && |after.held.Keys| <= m
    requires h == s.held[c] < s.stored && Open(h + 1) && n == |Above(after.held, h + 1)| + m - |s.held.Keys|
    ensures Cost(AtLeast(after, m, h + 1), h) == Cost(AtLeast(s, m, h + 1), h) + 1 + Most(n, h + 1)
  {
    WriteMoves(s, c, after, m, h + 1);
    CostIs(n, h);
  }

  lemma GivenBackPast(s: State, c: nat, after: State, m: nat, h: nat, n: nat)
    requires IsWrite(s, c, after) && |s.held.Keys| <= m && h == s.held[c] && Open(h + 1)
    requires n == |Above(after.held, h + 1)| + m - |s.held.Keys|
    ensures |after.held.Keys| <= m && Spent(s, m, h + 2) + n <= Spent(after, m, h + 2) + Most(n, h + 1)
  {
    AboveIsHeld(after.held, h + 1);
    GivenBack(s, c, after, m, h + 2, |Above(after.held, h + 1)|);
  }

  /** At the count it writes it gains that and one more, */
  lemma LowWriteGains(s: State, c: nat, after: State, m: nat, h: nat)
    requires IsWrite(s, c, after) && |s.held.Keys| <= m && |after.held.Keys| <= m
    requires h == s.held[c] < s.stored && Open(h + 1)
    ensures Spent(s, m, h + 1) + 1 + m - |s.held.Keys| <= Spent(after, m, h + 1)
  {
    var n := |Above(after.held, h + 1)| + m - |s.held.Keys|;
    GivenBackPast(s, c, after, m, h, n);
    LowCosts(s, c, after, m, h, n);
    SpentFrom(s, m, h + 1);
    SpentFrom(after, m, h + 1);
  }

  /** or at least one, if the count was no higher than the one it read. */
  lemma HighWriteGains(s: State, c: nat, after: State, m: nat, h: nat)
    requires IsWrite(s, c, after) && |s.held.Keys| <= m && |after.held.Keys| <= m
    requires s.stored <= h == s.held[c] && Open(h + 1)
    ensures Spent(s, m, h + 1) + 1 <= Spent(after, m, h + 1)
  {
    var k := |Above(after.held, h + 1)|;
    WriteMoves(s, c, after, m, h + 1);
    AboveIsHeld(after.held, h + 1);
    GivenBack(s, c, after, m, h + 2, k);
    CostGrows(k, k + m - |s.held.Keys| + 1, h);
    SpentFrom(s, m, h + 1);
    SpentFrom(after, m, h + 1);
  }

  lemma WriteIsPaidFor(s: State, c: nat, m: nat)
    requires PaidFor(s, m) && c in s.held
    ensures PaidFor(Next(s, Write(c)), m)
  {
    var after, h := Next(s, Write(c)), s.held[c];
    WriteMoves(s, c, after, m, 1);
    SubsetIsNoLarger(after.held.Keys, after.inside);
    if Open(h + 1) {
      if h < s.stored {
        LowWriteGains(s, c, after, m, h);
        NothingBelow(s, c, after, m, 1, 1 + m - |s.held.Keys|);
      } else {
        HighWriteGains(s, c, after, m, h);
        NothingBelow(s, c, after, m, 1, 1);
      }
    } else {
      NothingBelow(s, c, after, m, 1, 0);
    }
  }

  lemma EnterIsPaidFor(s: State, c: nat, m: nat)
    requires PaidFor(s, m) && |Next(s, Enter(c)).inside| <= m
    ensures PaidFor(Next(s, Enter(c)), m)
  {
    SameSpent(s, Next(s, Enter(c)), m, 1);
  }

  lemma {:induction false} SameSpent(s: State, after: State, m: nat, t: nat)
    requires s.stored == after.stored && s.held == after.held && |s.held.Keys| <= m && 0 < t
    ensures Spent(s, m, t) == Spent(after, m, t)
    decreases LoginGate.MAX_ATTEMPTS - t
  {
    if Open(t) {
      SameSpent(s, after, m, t + 1);
    }
  }

  lemma ReadCounts(s: State, c: nat, m: nat, t: nat)
    requires c !in s.held && |s.held.Keys| < m
    ensures var after := s.(held := s.held[c := s.stored]);
            |after.held.Keys| == |s.held.Keys| + 1 && AtLeast(s, m, t) == AtLeast(after, m, t)
  {
    var after := s.(held := s.held[c := s.stored]);
    assert after.held.Keys == s.held.Keys + {c};
    if t <= s.stored {
      assert Above(after.held, t) == Above(s.held, t) + {c};
    } else {
      assert Above(after.held, t) == Above(s.held, t);
    }
  }

  /** A read holds what an idle login would have read. */
  lemma {:induction false} ReadSpends(s: State, c: nat, after: State, m: nat, t: nat)
    requires c !in s.held && |s.held.Keys| < m && 0 < t && after == s.(held := s.held[c := s.stored])
    ensures |after.held.Keys| <= m && Spent(s, m, t) == Spent(after, m, t)
    decreases LoginGate.MAX_ATTEMPTS - t
  {
    ReadCounts(s, c, m, t);
    if Open(t) {
      ReadSpends(s, c, after, m, t + 1);
    }
  }

  lemma ReadIsPaidFor(s: State, c: nat, m: nat)
    requires PaidFor(s, m)
    ensures PaidFor(Next(s, Read(c)), m)
  {
    if c in s.inside && c !in s.held {
      SubsetIsNoLarger(s.held.Keys + {c}, s.inside);
      ReadSpends(s, c, Next(s, Read(c)), m, 1);
      assert Next(s, Read(c)).held.Keys == s.held.Keys + {c};
    }
  }

  /** So with m logins at a time, every guess of every run is paid for. */
  lemma {:induction false} GuessesArePaidFor(steps: seq<Step>, m: nat)
    requires AtMostInside(steps, m)
    ensures PaidFor(Run(steps), m)
  {
    if steps != [] {
      var s, step := Run(steps[..|steps| - 1]), steps[|steps| - 1];
      GuessesArePaidFor(steps[..|steps| - 1], m);
      match step
      case Enter(c) => EnterIsPaidFor(s, c, m);
      case Read(c) => ReadIsPaidFor(s, c, m);
      case Write(c) => if c in s.held { WriteIsPaidFor(s, c, m); }
      case Drop =>
    }
  }

  /** Between two drops of the counter, m logins get in no more than that. */
  lemma OverlapBound(steps: seq<Step>, m: nat)
    requires AtMostInside(steps, m)
    ensures Run(steps).guesses <= Most(m, 0)
  {
    GuessesArePaidFor(steps, m);
    SpentIsBounded(Run(steps), m, 1);
  }

  /** Runs with at most m logins at a time keep a bound on the guesses. */
  ghost predicate OverlapsKeep(m: nat, bound: nat) {
    forall steps :: AtMostInside(steps, m) ==> Run(steps).guesses <= bound
  }

  /** And some run gets in as many, so that is exactly what m logins keep. */
  lemma OverlapBoundIsExact(m: nat, bound: nat)
    ensures OverlapsKeep(m, bound) <==> Most(m, 0) <= bound
  {
    var steps, _ := Spend([], m, State(0, {}, map[], 0), m);
    assert Run(steps).guesses == Most(m, 0);
    forall steps | AtMostInside(steps, m) ensures Run(steps).guesses <= Most(m, 0) {
      OverlapBound(steps, m);
    }
  }

  /** With no login inside, a drop starts everything over. */
  lemma DropStartsOver(steps: seq<Step>, m: nat)
    requires AtMostInside(steps, m) && Run(steps).inside == {}
    ensures Run(steps + [Drop]) == Run([]) && AtMostInside(steps + [Drop], m)
  {
    GuessesArePaidFor(steps, m);
    assert Run(steps).held.Keys == {};
    assert Run(steps).held == map[];
    Extends(steps, Drop, m, State(0, {}, map[], 0));
  }

  /** Ways to choose k of n. */
  function Choose(n: nat, k: nat): nat
    requires k <= n
  {
    if k == 0 || k == n then 1 else Choose(n - 1, k - 1) + Choose(n - 1, k)
  }

  lemma {:induction false} MostIsChoose(m: nat, stored: nat)
    requires stored <= LoginGate.MAX_ATTEMPTS
    ensures Most(m, stored) == Choose(m + (LoginGate.MAX_ATTEMPTS - stored), m) - 1
    decreases m, LoginGate.MAX_ATTEMPTS - stored
  {
    if m > 0 && Open(stored) {
      MostIsChoose(m - 1, stored);
      MostIsChoose(m, stored + 1);
    }
  }

  lemma {:induction false} MoreLoginsGetMore(m: nat)
    requires 2 <= m
    ensures LoginGate.MAX_ATTEMPTS < Most(m, 0)
    decreases m
  {
    if m > 2 {
      MoreLoginsGetMore(m - 1);
    }
  }

  /** While logins do not overlap, at most six wrong passwords are let in between
      two drops of the counter. */
  lemma SixWithoutOverlap(steps: seq<Step>)
    requires AtMostInside(steps, 1)
    ensures Run(steps).guesses <= LoginGate.MAX_ATTEMPTS
  {
    OverlapBound(steps, 1);
    OneLogin();
  }

  /** Any number of logins is let in on an empty counter before one writes. */
  lemma {:induction false} OverlappingLoginsAllPass(n: nat) returns (steps: seq<Step>)
    ensures Run(steps).stored == 0 && Run(steps).guesses == n == |Run(steps).inside|
    ensures forall c :: c in Run(steps).inside ==> c < n
  {
    if n == 0 {
      steps := [];
    } else {
      var before := OverlappingLoginsAllPass(n - 1);
      steps := before + [Enter(n - 1)];
      assert steps[..|steps| - 1] == before;
    }
  }

  lemma OneLogin()
    ensures Most(1, 0) == 6
  {
    MostIsChoose(1, 0);
  }

  /** The limit of six is kept exactly while logins do not overlap. */
  lemma LimitHoldsIff(m: nat)
    requires 0 < m
    ensures OverlapsKeep(m, LoginGate.MAX_ATTEMPTS) <==> m == 1
  {
    OverlapBoundIsExact(m, LoginGate.MAX_ATTEMPTS);
    OneLogin();
    if m >= 2 {
      MoreLoginsGetMore(m);
    }
  }
}
