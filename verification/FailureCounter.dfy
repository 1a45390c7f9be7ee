/** The failed-attempt counter: a cache entry that lives for the window its last
    failure named, refined against the history of failures and clears. */
module FailureCounter {
  import opened ThrottleKeys

  /** A value set at time a for a window w is visible on [a, a + w). */
  datatype Entry = Entry(value: int, expires: int)

  type Cache = map<string, Entry>

  function Get(cache: Cache, key: string, now: int): int {
    if key in cache && now < cache[key].expires then cache[key].value else 0
  }

  function Max(a: int, b: int): int {
    if a < b then b else a
  }

  function Counted(cache: Cache, scope: Scope, who: Identity, now: int, window: int): Cache {
    cache[FailureKey(scope, who) := Entry(Get(cache, FailureKey(scope, who), now) + 1, now + window)]
  }

  function Dropped(cache: Cache, scope: Scope, who: Identity): Cache {
    cache - {FailureKey(scope, who)}
  }

  predicate Blocked(cache: Cache, scope: Scope, who: Identity, max: int, now: int) {
    Get(cache, FailureKey(scope, who), now) >= max
  }

  lemma AttemptsLeft(cache: Cache, key: string, max: int, now: int, window: int)
    ensures var attempts := Get(cache, key, now) + 1;
            var after, left := cache[key := Entry(attempts, now + window)], Max(0, max - attempts);
            && 0 <= left
            && (0 < window ==> (left == 0 <==> Get(after, key, now) >= max))
            && (0 < window && 0 < left ==> left + Get(after, key, now) == max)
  {
  }

  lemma CountedLeft(cache: Cache, scope: Scope, who: Identity, max: int, now: int, window: int)
    ensures var after := Counted(cache, scope, who, now, window);
            var left := Max(0, max - (Get(cache, FailureKey(scope, who), now) + 1));
            && 0 <= left
            && (0 < window ==> (left == 0 <==> Blocked(after, scope, who, max, now)))
            && (0 < window && 0 < left ==> left + Get(after, FailureKey(scope, who), now) == max)
  {
    AttemptsLeft(cache, FailureKey(scope, who), max, now, window);
  }

  class FailureCache {
    var entries: Cache

    constructor ()
      ensures entries == map[]
    {
      entries := map[];
    }

    /** Counts one failure; returns the attempts left. For a window that has any
        length, it returns 0 exactly when the caller is blocked from then on. */
    method CheckAndIncrement(r: Request, scope: Scope, max: int, window: int, now: int) returns (left: int)
      modifies this
      ensures entries == Counted(old(entries), scope, IdentityOf(r), now, window)
      ensures left == Max(0, max - 1 - old(Get(entries, FailureKey(scope, IdentityOf(r)), now)))
      ensures 0 <= left
      ensures 0 < window ==> (left == 0 <==> Blocked(entries, scope, IdentityOf(r), max, now))
      ensures 0 < window && 0 < left ==> left + Get(entries, FailureKey(scope, IdentityOf(r)), now) == max
    {
      var who := IdentityOf(r);
      var key := FailureKey(scope, who);
      var attempts := Get(entries, key, now) + 1;
      entries := entries[key := Entry(attempts, now + window)];
      left := Max(0, max - attempts);
      CountedLeft(old(entries), scope, who, max, now, window);
    }

    method IsBlocked(r: Request, scope: Scope, max: int, now: int) returns (blocked: bool)
      ensures blocked == Blocked(entries, scope, IdentityOf(r), max, now)
    {
      blocked := Get(entries, FailureKey(scope, IdentityOf(r)), now) >= max;
    }

    method ClearFailures(r: Request, scope: Scope)
      modifies this
      ensures entries == Dropped(old(entries), scope, IdentityOf(r))
      ensures forall max, now :: 0 < max ==> !Blocked(entries, scope, IdentityOf(r), max, now)
    {
      entries := entries - {FailureKey(scope, IdentityOf(r))};
    }
  }

  /** Counting a failure moves the counter of its own identity and scope, and no
      other counter at any time. */
  lemma GetAfterFailure(cache: Cache, scope: Scope, who: Identity, t: int, window: int, s: Scope, w: Identity, now: int)
    ensures Get(Counted(cache, scope, who, t, window), FailureKey(s, w), now) ==
      if s != scope || w != who then Get(cache, FailureKey(s, w), now)
      else if now < t + window then Get(cache, FailureKey(s, w), t) + 1
      else 0
  {
    KeysNeverCollide(scope, who, s, w);
  }

  /** A clear empties its own counter and no other. */
  lemma GetAfterClear(cache: Cache, scope: Scope, who: Identity, s: Scope, w: Identity, now: int)
    ensures Get(Dropped(cache, scope, who), FailureKey(s, w), now) ==
      if s != scope || w != who then Get(cache, FailureKey(s, w), now) else 0
  {
    KeysNeverCollide(scope, who, s, w);
  }

  // ---- The counter against the history ----

  datatype Event =
    | Failure(scope: Scope, who: Identity, now: int, window: int)
    | Clear(scope: Scope, who: Identity)

  function Apply(cache: Cache, e: Event): Cache {
    match e
    case Failure(scope, who, now, window) => Counted(cache, scope, who, now, window)
    case Clear(scope, who) => Dropped(cache, scope, who)
  }

  function Replay(h: seq<Event>): Cache {
    if h == [] then map[] else Apply(Replay(h[..|h| - 1]), h[|h| - 1])
  }

  lemma ReplayAppend(h: seq<Event>, e: Event)
    ensures Replay(h + [e]) == Apply(Replay(h), e)
  {
    assert (h + [e])[..|h|] == h;
  }

  datatype Hit = Hit(now: int, window: int)

  /** The failures of one identity in one scope since its last clear. */
  function Mine(h: seq<Event>, scope: Scope, who: Identity): seq<Hit> {
    if h == [] then []
    else
      var before, e := Mine(h[..|h| - 1], scope, who), h[|h| - 1];
      if e.scope != scope || e.who != who then before
      else
        match e
        case Clear(_, _) => []
        case Failure(_, _, now, window) => before + [Hit(now, window)]
  }

  /** The failure at i is followed inside its window, by the next failure or, if
      it is the last, by now. */
  predicate Followed(hits: seq<Hit>, i: int, now: int)
    requires 0 <= i < |hits|
  {
    (if i == |hits| - 1 then now else hits[i + 1].now) < hits[i].now + hits[i].window
  }

  /** The last n failures form a chain that reaches now. */
  predicate Chain(hits: seq<Hit>, n: nat, now: int) {
    n <= |hits| && forall i :: |hits| - n <= i < |hits| ==> Followed(hits, i, now)
  }

  lemma ChainExtends(hits: seq<Hit>, e: Hit, n: nat, now: int)
    requires 0 < n
    ensures Chain(hits + [e], n, now) <==> now < e.now + e.window && Chain(hits, n - 1, e.now)
  {
    var all := hits + [e];
    forall i | 0 <= i < |hits| ensures Followed(all, i, now) <==> Followed(hits, i, e.now) {
      assert all[i] == hits[i];
    }
    assert Followed(all, |hits|, now) <==> now < e.now + e.window;
  }

  /** The value every counter holds is the count of some chain, so never negative. */
  lemma {:induction false} CounterIsNotNegative(h: seq<Event>, scope: Scope, who: Identity, now: int)
    ensures 0 <= Get(Replay(h), FailureKey(scope, who), now)
  {
    if h != [] {
      var before := h[..|h| - 1];
      CounterIsNotNegative(before, scope, who, now);
      match h[|h| - 1]
      case Failure(s, w, t, window) =>
        CounterIsNotNegative(before, scope, who, t);
        GetAfterFailure(Replay(before), s, w, t, window, scope, who, now);
      case Clear(s, w) =>
        GetAfterClear(Replay(before), s, w, scope, who, now);
    }
  }

  /** Whatever the history of every identity and scope, the counter of one is at
      least n exactly when its last n failures since the last clear form a
      chain: it is the length of the longest one. */
  lemma {:induction false} CounterIsLongestChain(h: seq<Event>, scope: Scope, who: Identity, now: int, n: nat)
    ensures Get(Replay(h), FailureKey(scope, who), now) >= n <==> Chain(Mine(h, scope, who), n, now)
  {
    CounterIsNotNegative(h, scope, who, now);
    if h != [] && n > 0 {
      var before := h[..|h| - 1];
      match h[|h| - 1]
      case Failure(s, w, t, window) =>
        GetAfterFailure(Replay(before), s, w, t, window, scope, who, now);
        if s != scope || w != who {
          CounterIsLongestChain(before, scope, who, now, n);
        } else {
          CounterIsLongestChain(before, scope, who, t, n - 1);
          ChainExtends(Mine(before, scope, who), Hit(t, window), n, now);
        }
      case Clear(s, w) =>
        GetAfterClear(Replay(before), s, w, scope, who, now);
        if s != scope || w != who {
          CounterIsLongestChain(before, scope, who, now, n);
        }
    }
  }

  /** A caller is blocked exactly when its last max failures since the last clear
      form a chain that reaches now; a limit of none blocks everybody. */
  lemma BlockedIffChain(h: seq<Event>, scope: Scope, who: Identity, max: int, now: int)
    ensures Blocked(Replay(h), scope, who, max, now) <==> max <= 0 || Chain(Mine(h, scope, who), max, now)
  {
    CounterIsNotNegative(h, scope, who, now);
    if max > 0 {
      CounterIsLongestChain(h, scope, who, now, max);
    }
  }
}
