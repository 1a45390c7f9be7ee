/** The login view around the failure counter: refuse while blocked, clear on a
    right password, count a wrong one. */
module LoginGate {
  import opened Options
  import opened ThrottleKeys
  import opened FailureCounter

  const MAX_ATTEMPTS: nat := 6

  const SECOND: int := 1_000_000

  /** Ten minutes, in microseconds as every instant here. */
  const LOCKOUT: int := 600 * SECOND

  /** `Incomplete` lacks a username or a password and is answered before either
      is looked at. */
  datatype Outcome = Incomplete | Right | Wrong

  /** A request of some identity, aimed at the account its username or email
      names, if there is one. */
  datatype Attempt = Attempt(who: Identity, account: Option<nat>, now: int, outcome: Outcome)

  predicate Refused(h: seq<Event>, a: Attempt) {
    Blocked(Replay(h), Login, a.who, MAX_ATTEMPTS, a.now)
  }

  function Handle(h: seq<Event>, a: Attempt): seq<Event> {
    if Refused(h, a) then h
    else
      match a.outcome
      case Incomplete => h
      case Right => h + [Clear(Login, a.who)]
      case Wrong => h + [Failure(Login, a.who, a.now, LOCKOUT)]
  }

  function History(run: seq<Attempt>): seq<Event> {
    if run == [] then [] else Handle(History(run[..|run| - 1]), run[|run| - 1])
  }

  function Counter(run: seq<Attempt>, who: Identity, t: int): int {
    Get(Replay(History(run)), FailureKey(Login, who), t)
  }

  datatype Answer = TooMany | BadRequest | SignedIn | Invalid(left: int)

  /** What the view answers, from the history before and the cache after. */
  predicate Answers(answer: Answer, h: seq<Event>, after: Cache, a: Attempt) {
    if Refused(h, a) then answer == TooMany
    else
      match a.outcome
      case Incomplete => answer == BadRequest
      case Right => answer == SignedIn
      case Wrong =>
        if Blocked(after, Login, a.who, MAX_ATTEMPTS, a.now) then answer == TooMany
        else answer == Invalid(MAX_ATTEMPTS - Get(after, FailureKey(Login, a.who), a.now))
  }

  /** A wrong password let through, from the attempts left. */
  lemma WrongIsCounted(h: seq<Event>, a: Attempt, after: Cache, left: int)
    requires !Refused(h, a) && a.outcome == Wrong && after == Counted(Replay(h), Login, a.who, a.now, LOCKOUT)
    requires left == 0 <==> Blocked(after, Login, a.who, MAX_ATTEMPTS, a.now)
    requires 0 < left ==> left + Get(after, FailureKey(Login, a.who), a.now) == MAX_ATTEMPTS
    requires 0 <= left
    ensures after == Replay(Handle(h, a)) && Answers(if left == 0 then TooMany else Invalid(left), h, after, a)
  {
    ReplayAppend(h, Failure(Login, a.who, a.now, LOCKOUT));
  }

  lemma RightIsCleared(h: seq<Event>, a: Attempt, after: Cache)
    requires !Refused(h, a) && a.outcome == Right && after == Dropped(Replay(h), Login, a.who)
    ensures after == Replay(Handle(h, a)) && Answers(SignedIn, h, after, a)
  {
    ReplayAppend(h, Clear(Login, a.who));
  }

  /** The view in terms of the counter alone. */
  lemma AnswersAre(h: seq<Event>, a: Attempt, after: Cache, answer: Answer)
    requires after == Replay(Handle(h, a)) && Answers(answer, h, after, a)
    ensures var n, m := Get(Replay(h), FailureKey(Login, a.who), a.now), Get(after, FailureKey(Login, a.who), a.now);
            && (n >= 6 ==> answer == TooMany && after == Replay(h))
            && (n < 6 && a.outcome == Incomplete ==> answer == BadRequest && after == Replay(h))
            && (n < 6 && a.outcome == Right ==> answer == SignedIn && m == 0)
            && (n < 6 && a.outcome == Wrong ==> m == n + 1 && answer == if n == 5 then TooMany else Invalid(5 - n))
  {
    match a.outcome
    case Incomplete =>
    case Right => RightMoves(h, a, a.who, a.now);
    case Wrong => WrongMoves(h, a, a.who, a.now);
  }

  /** The view itself. A run of requests keeps the cache equal to the replay of
      its history, and the sixth wrong password is already answered as a
      refusal. */
  method HandleLogin(cache: FailureCache, ghost h: seq<Event>, r: Request, now: int, outcome: Outcome, ghost a: Attempt)
    returns (answer: Answer)
    requires cache.entries == Replay(h)
    requires a.who == IdentityOf(r) && a.now == now && a.outcome == outcome
    modifies cache
    ensures cache.entries == Replay(Handle(h, a)) && Answers(answer, h, cache.entries, a)
    ensures var n := Get(old(cache.entries), FailureKey(Login, a.who), now);
            var m := Get(cache.entries, FailureKey(Login, a.who), now);
            && (n >= 6 ==> answer == TooMany && cache.entries == old(cache.entries))
            && (n < 6 && outcome == Incomplete ==> answer == BadRequest && cache.entries == old(cache.entries))
            && (n < 6 && outcome == Right ==> answer == SignedIn && m == 0)
            && (n < 6 && outcome == Wrong ==> m == n + 1 && answer == if n == 5 then TooMany else Invalid(5 - n))
  {
    var blocked := cache.IsBlocked(r, Login, MAX_ATTEMPTS, now);
    if blocked {
      AnswersAre(h, a, cache.entries, TooMany);
      return TooMany;
    }
    match outcome {
      case Incomplete =>
        answer := BadRequest;
      case Right =>
        cache.ClearFailures(r, Login);
        RightIsCleared(h, a, cache.entries);
        answer := SignedIn;
      case Wrong =>
        var left := cache.CheckAndIncrement(r, Login, MAX_ATTEMPTS, LOCKOUT, now);
        WrongIsCounted(h, a, cache.entries, left);
        answer := if left == 0 then TooMany else Invalid(left);
    }
    AnswersAre(h, a, cache.entries, answer);
  }

  /** What the gate did with an attempt: a guess is a wrong password that was
      checked, a success a right one. */
  datatype Kind = Ignored | Success | Guess

  datatype Mark = Mark(who: Identity, account: Option<nat>, now: int, kind: Kind)

  function MarkOf(h: seq<Event>, a: Attempt): Mark {
    Mark(a.who, a.account, a.now,
         if Refused(h, a) || a.outcome == Incomplete then Ignored else if a.outcome == Right then Success else Guess)
  }

  function Marks(run: seq<Attempt>): (marks: seq<Mark>)
    ensures |marks| == |run|
  {
    if run == [] then [] else Marks(run[..|run| - 1]) + [MarkOf(History(run[..|run| - 1]), run[|run| - 1])]
  }

  /** The counter as the marks tell it. */
  function Level(marks: seq<Mark>, who: Identity, t: int): int {
    if marks == [] then 0
    else
      var before, m := marks[..|marks| - 1], marks[|marks| - 1];
      if m.who != who || m.kind == Ignored then Level(before, who, t)
      else if m.kind == Success then 0
      else if t < m.now + LOCKOUT then Level(before, who, m.now) + 1
      else 0
  }

  lemma WrongMoves(h: seq<Event>, a: Attempt, who: Identity, t: int)
    ensures var after := Replay(h + [Failure(Login, a.who, a.now, LOCKOUT)]);
            Get(after, FailureKey(Login, who), t) ==
              if a.who != who then Get(Replay(h), FailureKey(Login, who), t)
              else if t < a.now + LOCKOUT then Get(Replay(h), FailureKey(Login, who), a.now) + 1
              else 0
  {
    ReplayAppend(h, Failure(Login, a.who, a.now, LOCKOUT));
    GetAfterFailure(Replay(h), Login, a.who, a.now, LOCKOUT, Login, who, t);
  }

  lemma RightMoves(h: seq<Event>, a: Attempt, who: Identity, t: int)
    ensures Get(Replay(h + [Clear(Login, a.who)]), FailureKey(Login, who), t) ==
              if a.who != who then Get(Replay(h), FailureKey(Login, who), t) else 0
  {
    ReplayAppend(h, Clear(Login, a.who));
    GetAfterClear(Replay(h), Login, a.who, Login, who, t);
  }

  lemma HandleMoves(h: seq<Event>, a: Attempt, who: Identity, t: int)
    ensures Get(Replay(Handle(h, a)), FailureKey(Login, who), t) ==
              var m := MarkOf(h, a);
              if m.who != who || m.kind == Ignored then Get(Replay(h), FailureKey(Login, who), t)
              else if m.kind == Success then 0
              else if t < m.now + LOCKOUT then Get(Replay(h), FailureKey(Login, who), m.now) + 1
              else 0
  {
    match a.outcome
    case Incomplete =>
    case Right => RightMoves(h, a, who, t);
    case Wrong => WrongMoves(h, a, who, t);
  }

  /** The counter in the cache is the one the marks tell. */
  lemma {:induction false} CounterIsLevel(run: seq<Attempt>, who: Identity, t: int)
    ensures Counter(run, who, t) == Level(Marks(run), who, t)
  {
    if run != [] {
      var before, a := run[..|run| - 1], run[|run| - 1];
      CounterIsLevel(before, who, t);
      CounterIsLevel(before, who, a.now);
      HandleMoves(History(before), a, who, t);
      assert Marks(run)[..|run| - 1] == Marks(before);
    }
  }

  /** An attempt is let through exactly below the limit. */
  ghost predicate Gated(marks: seq<Mark>) {
    marks != [] ==>
      var before, m := marks[..|marks| - 1], marks[|marks| - 1];
      Gated(before) && (m.kind != Ignored ==> Level(before, m.who, m.now) < MAX_ATTEMPTS)
  }

  lemma RefusedIff(run: seq<Attempt>, a: Attempt)
    ensures Refused(History(run), a) <==> MAX_ATTEMPTS <= Level(Marks(run), a.who, a.now)
  {
    CounterIsLevel(run, a.who, a.now);
  }

  lemma {:induction false} MarksAreGated(run: seq<Attempt>)
    ensures Gated(Marks(run))
  {
    if run != [] {
      var before, a := run[..|run| - 1], run[|run| - 1];
      MarksAreGated(before);
      RefusedIff(before, a);
      assert Marks(run)[..|run| - 1] == Marks(before);
    }
  }

  ghost predicate Chronological(run: seq<Attempt>) {
    forall i, j :: 0 <= i < j < |run| ==> run[i].now <= run[j].now
  }

  ghost predicate InOrder(marks: seq<Mark>) {
    forall i, j :: 0 <= i < j < |marks| ==> marks[i].now <= marks[j].now
  }

  ghost predicate SameTimes(marks: seq<Mark>, run: seq<Attempt>) {
    |marks| == |run| && forall i :: 0 <= i < |run| ==> marks[i].now == run[i].now
  }

  lemma OneMoreTime(marks: seq<Mark>, m: Mark, run: seq<Attempt>)
    requires run != [] && SameTimes(marks, run[..|run| - 1]) && m.now == run[|run| - 1].now
    ensures SameTimes(marks + [m], run)
  {
  }

  lemma {:induction false} MarksKeepTimes(run: seq<Attempt>)
    ensures SameTimes(Marks(run), run)
  {
    if run != [] {
      var before, a := run[..|run| - 1], run[|run| - 1];
      MarksKeepTimes(before);
      OneMoreTime(Marks(before), MarkOf(History(before), a), run);
    }
  }

  lemma SameOrder(marks: seq<Mark>, run: seq<Attempt>)
    requires SameTimes(marks, run)
    ensures Chronological(run) <==> InOrder(marks)
  {
  }

  /** The marks of a run are gated, and in order where the run is. */
  lemma MarksAreARun(run: seq<Attempt>)
    ensures Gated(Marks(run)) && SameTimes(Marks(run), run) && (Chronological(run) <==> InOrder(Marks(run)))
  {
    MarksAreGated(run);
    MarksKeepTimes(run);
    SameOrder(Marks(run), run);
  }

  predicate Within(m: Mark, lo: int, hi: int) {
    lo <= m.now <= hi
  }

  /** Wrong passwords of one identity that were checked inside a closed interval. */
  function Guesses(marks: seq<Mark>, who: Identity, lo: int, hi: int): nat {
    if marks == [] then 0
    else
      var m := marks[|marks| - 1];
      Guesses(marks[..|marks| - 1], who, lo, hi) + (if m.who == who && m.kind == Guess && Within(m, lo, hi) then 1 else 0)
  }

  /** Right passwords of the identity accepted inside a closed interval. */
  function Successes(marks: seq<Mark>, who: Identity, lo: int, hi: int): nat {
    if marks == [] then 0
    else
      var m := marks[|marks| - 1];
      Successes(marks[..|marks| - 1], who, lo, hi) + (if m.who == who && m.kind == Success && Within(m, lo, hi) then 1 else 0)
  }

  lemma {:induction false} LevelIsWithinLimit(marks: seq<Mark>, who: Identity, t: int)
    requires Gated(marks)
    ensures 0 <= Level(marks, who, t) <= MAX_ATTEMPTS
  {
    if marks != [] {
      LevelIsWithinLimit(marks[..|marks| - 1], who, t);
      LevelIsWithinLimit(marks[..|marks| - 1], who, marks[|marks| - 1].now);
    }
  }

  /** The gate never lets the counter past the limit. */
  lemma CounterStaysWithinLimit(run: seq<Attempt>, who: Identity, t: int)
    ensures 0 <= Counter(run, who, t) <= MAX_ATTEMPTS
  {
    MarksAreGated(run);
    CounterIsLevel(run, who, t);
    LevelIsWithinLimit(Marks(run), who, t);
  }

  lemma {:induction false} NoGuessesBefore(marks: seq<Mark>, who: Identity, lo: int, hi: int)
    requires forall i :: 0 <= i < |marks| ==> marks[i].now < lo
    ensures Guesses(marks, who, lo, hi) == 0
  {
    if marks != [] {
      NoGuessesBefore(marks[..|marks| - 1], who, lo, hi);
    }
  }

  /** Guesses less than a lockout apart are still counted, but for the five that
      each success can clear. */
  lemma {:induction false} GuessesAreCounted(marks: seq<Mark>, who: Identity, lo: int, hi: int, t: int)
    requires Gated(marks) && InOrder(marks) && hi - lo < LOCKOUT && t <= hi
    requires forall i :: 0 <= i < |marks| ==> marks[i].now <= t
    ensures Guesses(marks, who, lo, hi) <= 5 * Successes(marks, who, lo, hi) + Level(marks, who, t)
  {
    LevelIsWithinLimit(marks, who, t);
    if marks != [] {
      var before, m := marks[..|marks| - 1], marks[|marks| - 1];
      if m.now < lo {
        NoGuessesBefore(marks, who, lo, hi);
      } else {
        GuessesAreCounted(before, who, lo, hi, if m.who == who && m.kind != Ignored then m.now else t);
      }
    }
  }

  lemma {:induction false} GuessesPerWindowOf(marks: seq<Mark>, who: Identity, lo: int, hi: int)
    requires Gated(marks) && InOrder(marks) && hi - lo < LOCKOUT
    ensures Guesses(marks, who, lo, hi) <= MAX_ATTEMPTS + 5 * Successes(marks, who, lo, hi)
  {
    if marks != [] {
      if marks[|marks| - 1].now > hi {
        GuessesPerWindowOf(marks[..|marks| - 1], who, lo, hi);
      } else {
        GuessesAreCounted(marks, who, lo, hi, hi);
        LevelIsWithinLimit(marks, who, hi);
      }
    }
  }

  /** In any ten minutes, wherever they lie in the run, an identity gets at most
      six wrong passwords checked, and five more for every right one. */
  lemma GuessesPerWindow(run: seq<Attempt>, who: Identity, lo: int, hi: int)
    requires Chronological(run) && hi - lo < LOCKOUT
    ensures Guesses(Marks(run), who, lo, hi) <= MAX_ATTEMPTS + 5 * Successes(Marks(run), who, lo, hi)
  {
    MarksAreARun(run);
    GuessesPerWindowOf(Marks(run), who, lo, hi);
  }

  lemma {:induction false} IntervalSplit(marks: seq<Mark>, who: Identity, lo: int, mid: int, hi: int)
    requires lo <= mid <= hi
    ensures Guesses(marks, who, lo, hi) == Guesses(marks, who, lo, mid - 1) + Guesses(marks, who, mid, hi)
    ensures Successes(marks, who, lo, hi) == Successes(marks, who, lo, mid - 1) + Successes(marks, who, mid, hi)
  {
    if marks != [] {
      IntervalSplit(marks[..|marks| - 1], who, lo, mid, hi);
    }
  }

  /** What an identity may get checked in a span on its own. */
  function Allowance(S: nat): nat {
    MAX_ATTEMPTS * (S / LOCKOUT + 1)
  }

  lemma AllowanceSplit(S: nat)
    requires LOCKOUT <= S
    ensures Allowance(S) == MAX_ATTEMPTS + Allowance(S - LOCKOUT)
  {
    assert (S - LOCKOUT) / LOCKOUT == S / LOCKOUT - 1;
  }

  lemma {:induction false} LongRunOf(marks: seq<Mark>, who: Identity, lo: int, S: nat)
    requires Gated(marks) && InOrder(marks)
    ensures Guesses(marks, who, lo, lo + S) <= Allowance(S) + 5 * Successes(marks, who, lo, lo + S)
    decreases S
  {
    if S < LOCKOUT {
      GuessesPerWindowOf(marks, who, lo, lo + S);
    } else {
      IntervalSplit(marks, who, lo, lo + LOCKOUT, lo + S);
      GuessesPerWindowOf(marks, who, lo, lo + LOCKOUT - 1);
      LongRunOf(marks, who, lo + LOCKOUT, S - LOCKOUT);
      AllowanceSplit(S);
    }
  }

  /** However long a guesser keeps at it, six guesses for every ten minutes
      begun, and five for every success, is all that gets checked. */
  lemma LongRunGuesses(run: seq<Attempt>, who: Identity, lo: int, S: nat)
    requires Chronological(run)
    ensures Guesses(Marks(run), who, lo, lo + S) <= Allowance(S) + 5 * Successes(Marks(run), who, lo, lo + S)
  {
    MarksAreARun(run);
    LongRunOf(Marks(run), who, lo, S);
  }

  lemma SixOf(marks: seq<Mark>, who: Identity, lo: int, S: nat)
    requires Gated(marks) && InOrder(marks) && Successes(marks, who, lo, lo + S) == 0
    ensures S < LOCKOUT ==> Guesses(marks, who, lo, lo + S) <= MAX_ATTEMPTS
    ensures Guesses(marks, who, lo, lo + S) <= Allowance(S)
  {
    LongRunOf(marks, who, lo, S);
  }

  /** Between successes six is all, in a window and for every window begun. */
  lemma SixGuessesPerWindow(run: seq<Attempt>, who: Identity, lo: int, S: nat)
    requires Chronological(run) && Successes(Marks(run), who, lo, lo + S) == 0
    ensures S < LOCKOUT ==> Guesses(Marks(run), who, lo, lo + S) <= MAX_ATTEMPTS
    ensures Guesses(Marks(run), who, lo, lo + S) <= Allowance(S)
  {
    MarksAreARun(run);
    SixOf(Marks(run), who, lo, S);
  }

  // ---- The bound is reached ----

  /** All marks of one identity at one instant, its guesses at one account and its
      successes at another, with their numbers and the counter they leave. */
  ghost predicate Tally(marks: seq<Mark>, guess: Mark, own: Option<nat>, guesses: int, successes: int, level: int) {
    && Guesses(marks, guess.who, guess.now, guess.now) == guesses
    && Successes(marks, guess.who, guess.now, guess.now) == successes
    && Level(marks, guess.who, guess.now) == level
    && forall i :: 0 <= i < |marks| ==> marks[i] == guess || marks[i] == guess.(account := own, kind := Success)
  }

  lemma OneMore(marks: seq<Mark>, guess: Mark, own: Option<nat>, m: Mark, guesses: int, successes: int, level: int)
    requires guess.kind == Guess && (m == guess || m == guess.(account := own, kind := Success))
    requires Tally(marks, guess, own, guesses, successes, level)
    ensures if m.kind == Guess then Tally(marks + [m], guess, own, guesses + 1, successes, level + 1)
            else Tally(marks + [m], guess, own, guesses, successes + 1, 0)
  {
    assert (marks + [m])[..|marks|] == marks;
  }

  lemma NextMark(run: seq<Attempt>, a: Attempt)
    requires a.outcome != Incomplete && Level(Marks(run), a.who, a.now) < MAX_ATTEMPTS
    ensures Marks(run + [a]) == Marks(run) + [Mark(a.who, a.account, a.now, if a.outcome == Right then Success else Guess)]
  {
    assert (run + [a])[..|run|] == run;
    RefusedIff(run, a);
  }

  function GuessOf(who: Identity, target: Option<nat>, now: int): Mark {
    Mark(who, target, now, Guess)
  }

  lemma {:induction false} WrongsUpTo(start: seq<Attempt>, guess: Mark, own: Option<nat>, guesses: int, successes: int, level: int)
    returns (run: seq<Attempt>)
    requires guess.kind == Guess && Tally(Marks(start), guess, own, guesses, successes, 0) && 0 <= level <= MAX_ATTEMPTS
    ensures Tally(Marks(run), guess, own, guesses + level, successes, level)
    decreases level
  {
    if level == 0 {
      run := start;
    } else {
      var before := WrongsUpTo(start, guess, own, guesses, successes, level - 1);
      var a := Attempt(guess.who, guess.account, guess.now, Wrong);
      NextMark(before, a);
      OneMore(Marks(before), guess, own, guess, guesses + level - 1, successes, level - 1);
      run := before + [a];
    }
  }

  /** Five wrong passwords and a right one, k times over. */
  lemma {:induction false} Rounds(guess: Mark, own: Option<nat>, k: nat) returns (run: seq<Attempt>)
    requires guess.kind == Guess
    ensures Tally(Marks(run), guess, own, 5 * k, k, 0)
    decreases k
  {
    if k == 0 {
      run := [];
    } else {
      var rounds := Rounds(guess, own, k - 1);
      var before := WrongsUpTo(rounds, guess, own, 5 * (k - 1), k - 1, 5);
      var a := Attempt(guess.who, own, guess.now, Right);
      NextMark(before, a);
      OneMore(Marks(before), guess, own, guess.(account := own, kind := Success), 5 * k, k - 1, 5);
      run := before + [a];
    }
  }

  lemma AtOneInstant(run: seq<Attempt>, now: int)
    requires forall i :: 0 <= i < |run| ==> Marks(run)[i].now == now
    ensures Chronological(run)
  {
    MarksAreARun(run);
  }

  /** For every number k of successes some run gets all 6 + 5k guesses checked
      at one instant: the bound cannot be lowered. */
  lemma GuessBoundIsReached(who: Identity, now: int, k: nat) returns (run: seq<Attempt>)
    ensures Chronological(run) && Successes(Marks(run), who, now, now) == k
    ensures Guesses(Marks(run), who, now, now) == MAX_ATTEMPTS + 5 * k
  {
    var rounds := Rounds(GuessOf(who, None, now), None, k);
    run := WrongsUpTo(rounds, GuessOf(who, None, now), None, 5 * k, k, MAX_ATTEMPTS);
    AtOneInstant(run, now);
  }

  // ---- Guesses at one account ----

  /** Wrong passwords for an account that were checked, and right ones accepted. */
  function GuessesAt(marks: seq<Mark>, account: nat, lo: int, hi: int): nat {
    if marks == [] then 0
    else
      var m := marks[|marks| - 1];
      GuessesAt(marks[..|marks| - 1], account, lo, hi) + (if m.account == Some(account) && m.kind == Guess && Within(m, lo, hi) then 1 else 0)
  }

  function SuccessesAt(marks: seq<Mark>, account: nat, lo: int, hi: int): nat {
    if marks == [] then 0
    else
      var m := marks[|marks| - 1];
      SuccessesAt(marks[..|marks| - 1], account, lo, hi) + (if m.account == Some(account) && m.kind == Success && Within(m, lo, hi) then 1 else 0)
  }

  function GuessesOf(marks: seq<Mark>, ids: seq<Identity>, lo: int, hi: int): nat {
    if ids == [] then 0 else Guesses(marks, ids[0], lo, hi) + GuessesOf(marks, ids[1..], lo, hi)
  }

  function SuccessesOf(marks: seq<Mark>, ids: seq<Identity>, lo: int, hi: int): nat {
    if ids == [] then 0 else Successes(marks, ids[0], lo, hi) + SuccessesOf(marks, ids[1..], lo, hi)
  }

  /** They are sums over the identities. */
  lemma {:induction false} SumsOver(marks: seq<Mark>, ids: seq<Identity>, who: Identity, lo: int, hi: int)
    ensures GuessesOf(marks, ids + [who], lo, hi) == GuessesOf(marks, ids, lo, hi) + Guesses(marks, who, lo, hi)
    ensures SuccessesOf(marks, ids + [who], lo, hi) == SuccessesOf(marks, ids, lo, hi) + Successes(marks, who, lo, hi)
    ensures GuessesOf(marks, [], lo, hi) == SuccessesOf(marks, [], lo, hi) == 0
  {
    if ids == [] {
      assert ids + [who] == [who];
    } else {
      assert (ids + [who])[1..] == ids[1..] + [who];
      SumsOver(marks, ids[1..], who, lo, hi);
    }
  }

  /** The identities cover every guess at the account. */
  ghost predicate Cover(marks: seq<Mark>, account: nat, ids: seq<Identity>, lo: int, hi: int) {
    forall i :: 0 <= i < |marks| && marks[i].account == Some(account) && marks[i].kind == Guess && Within(marks[i], lo, hi)
      ==> marks[i].who in ids
  }

  lemma {:induction false} GuessesOfGrow(marks: seq<Mark>, ids: seq<Identity>, lo: int, hi: int)
    requires marks != []
    ensures var before, m := marks[..|marks| - 1], marks[|marks| - 1];
            GuessesOf(marks, ids, lo, hi) >= GuessesOf(before, ids, lo, hi) +
              (if m.who in ids && m.kind == Guess && Within(m, lo, hi) then 1 else 0)
  {
    if ids != [] {
      GuessesOfGrow(marks, ids[1..], lo, hi);
    }
  }

  lemma {:induction false} GuessesAtAreOf(marks: seq<Mark>, account: nat, ids: seq<Identity>, lo: int, hi: int)
    requires Cover(marks, account, ids, lo, hi)
    ensures GuessesAt(marks, account, lo, hi) <= GuessesOf(marks, ids, lo, hi)
  {
    if marks != [] {
      assert Cover(marks[..|marks| - 1], account, ids, lo, hi);
      GuessesAtAreOf(marks[..|marks| - 1], account, ids, lo, hi);
      GuessesOfGrow(marks, ids, lo, hi);
    }
  }

  lemma OneIdentityMore(n: nat, each: nat, guesses: nat, successes: nat, others: nat, othersSuccesses: nat)
    requires guesses <= each + 5 * successes && others <= n * each + 5 * othersSuccesses
    ensures guesses + others <= (n + 1) * each + 5 * (successes + othersSuccesses)
  {
    assert (n + 1) * each == n * each + each;
  }

  lemma {:induction false} GuessesOfBound(marks: seq<Mark>, ids: seq<Identity>, lo: int, S: nat)
    requires Gated(marks) && InOrder(marks)
    ensures GuessesOf(marks, ids, lo, lo + S) <= |ids| * Allowance(S) + 5 * SuccessesOf(marks, ids, lo, lo + S)
  {
    if ids != [] {
      LongRunOf(marks, ids[0], lo, S);
      GuessesOfBound(marks, ids[1..], lo, S);
      OneIdentityMore(|ids| - 1, Allowance(S), Guesses(marks, ids[0], lo, lo + S), Successes(marks, ids[0], lo, lo + S),
                      GuessesOf(marks, ids[1..], lo, lo + S), SuccessesOf(marks, ids[1..], lo, lo + S));
    }
  }

  lemma AccountBoundOf(marks: seq<Mark>, account: nat, ids: seq<Identity>, lo: int, S: nat)
    requires Gated(marks) && InOrder(marks) && Cover(marks, account, ids, lo, lo + S)
    ensures GuessesAt(marks, account, lo, lo + S) <= |ids| * Allowance(S) + 5 * SuccessesOf(marks, ids, lo, lo + S)
  {
    GuessesAtAreOf(marks, account, ids, lo, lo + S);
    GuessesOfBound(marks, ids, lo, S);
  }

  /** The counters belong to identities, not to accounts: what gets checked at an
      account is bounded by the identities used against it, each with its own
      six for every ten minutes begun and its own successes, wherever those are. */
  lemma AccountBound(run: seq<Attempt>, account: nat, ids: seq<Identity>, lo: int, S: nat)
    requires Chronological(run) && Cover(Marks(run), account, ids, lo, lo + S)
    ensures GuessesAt(Marks(run), account, lo, lo + S) <= |ids| * Allowance(S) + 5 * SuccessesOf(Marks(run), ids, lo, lo + S)
  {
    MarksAreARun(run);
    AccountBoundOf(Marks(run), account, ids, lo, S);
  }

  lemma {:induction false} AimedAtOne(marks: seq<Mark>, guess: Mark, target: nat, own: nat)
    requires target != own && guess.account == Some(target) && guess.kind == Guess
    requires forall i :: 0 <= i < |marks| ==> marks[i] == guess || marks[i] == guess.(account := Some(own), kind := Success)
    ensures GuessesAt(marks, target, guess.now, guess.now) == Guesses(marks, guess.who, guess.now, guess.now)
    ensures SuccessesAt(marks, target, guess.now, guess.now) == 0
  {
    if marks != [] {
      AimedAtOne(marks[..|marks| - 1], guess, target, own);
    }
  }

  /** A caller signed in to one account is counted under it whatever username it
      sends, so by signing in to it again it clears the counter of its guesses
      at another: any number of them pass at once, with no success there. */
  lemma SignedInGuesser(own: nat, target: nat, now: int, k: nat) returns (run: seq<Attempt>)
    requires own != target
    ensures Chronological(run) && forall i :: 0 <= i < |run| ==> Marks(run)[i].who == Account(own)
    ensures forall i :: 0 <= i < |run| && Marks(run)[i].kind == Success ==> Marks(run)[i].account == Some(own)
    ensures GuessesAt(Marks(run), target, now, now) == MAX_ATTEMPTS + 5 * k && SuccessesAt(Marks(run), target, now, now) == 0
  {
    var guess := GuessOf(Account(own), Some(target), now);
    var rounds := Rounds(guess, Some(own), k);
    run := WrongsUpTo(rounds, guess, Some(own), 5 * k, k, MAX_ATTEMPTS);
    AtOneInstant(run, now);
    AimedAtOne(Marks(run), guess, target, own);
  }
}
