/** The failure counter when its cache read and its cache write are separate
    steps of concurrent calls. */
module FailureRace {

  /** One counter: what the cache holds (0 when absent), what each call in
      flight has read, and the failures that have completed, in all and since
      the counter was last dropped. */
  datatype State = State(stored: nat, held: map<nat, nat>, failures: nat, recent: nat)

  /** `Drop` is a clear, or the entry running out. */
  datatype Step = Read(call: nat) | Write(call: nat) | Drop

  function Next(s: State, step: Step): State {
    match step
    case Read(c) => s.(held := s.held[c := s.stored])
    case Write(c) => if c in s.held then State(s.held[c] + 1, s.held - {c}, s.failures + 1, s.recent + 1) else s
    case Drop => s.(stored := 0, recent := 0)
  }

  function Run(steps: seq<Step>): State {
    if steps == [] then State(0, map[], 0, 0) else Next(Run(steps[..|steps| - 1]), steps[|steps| - 1])
  }

  lemma RunAppend(steps: seq<Step>, step: Step)
    ensures Run(steps + [step]) == Next(Run(steps), step)
  {
    assert (steps + [step])[..|steps|] == steps;
  }

  /** However calls interleave, neither the cache nor any call in flight ever
      holds more than the failures that have happened. */
  lemma {:induction false} NeverOverCounts(steps: seq<Step>)
    ensures var s := Run(steps);
            s.stored <= s.failures && forall c :: c in s.held ==> s.held[c] <= s.failures
  {
    if steps != [] {
      NeverOverCounts(steps[..|steps| - 1]);
    }
  }

  /** The cache holds the failures since the last drop. */
  predicate Exact(s: State) {
    s.stored == s.recent
  }

  /** After every prefix of the run. */
  ghost predicate CountsExactly(steps: seq<Step>) {
    Exact(Run(steps)) && (steps != [] ==> CountsExactly(steps[..|steps| - 1]))
  }

  /** A write, if this step is one, finds what its own call read. */
  predicate Fresh(s: State, step: Step) {
    step.Write? && step.call in s.held ==> s.held[step.call] == s.stored
  }

  ghost predicate AllFresh(steps: seq<Step>) {
    forall i :: 0 <= i < |steps| ==> Fresh(Run(steps[..i]), steps[i])
  }

  lemma LastFresh(steps: seq<Step>)
    requires steps != []
    ensures AllFresh(steps) <==> AllFresh(steps[..|steps| - 1]) && Fresh(Run(steps[..|steps| - 1]), steps[|steps| - 1])
  {
    var before := steps[..|steps| - 1];
    forall i | 0 <= i < |before| ensures Fresh(Run(before[..i]), before[i]) == Fresh(Run(steps[..i]), steps[i]) {
      assert before[..i] == steps[..i];
    }
  }

  lemma FreshKeepsExact(s: State, step: Step)
    requires Exact(s)
    ensures Exact(Next(s, step)) <==> Fresh(s, step)
  {
  }

  /** Whatever the interleaving, the counter is exact throughout exactly when
      every write finds in the cache the value its own call read. */
  lemma {:induction false} CountsExactlyIff(steps: seq<Step>)
    ensures CountsExactly(steps) <==> AllFresh(steps)
  {
    if steps != [] {
      var before := steps[..|steps| - 1];
      CountsExactlyIff(before);
      LastFresh(steps);
      if Exact(Run(before)) {
        FreshKeepsExact(Run(before), steps[|steps| - 1]);
      }
    }
  }

  /** Every write follows the read of its own call. */
  ghost predicate Serial(steps: seq<Step>) {
    forall i :: 0 <= i < |steps| && steps[i].Write? ==> i > 0 && steps[i - 1] == Read(steps[i].call)
  }

  /** Calls that do not overlap count exactly. */
  lemma SerialCallsCountExactly(steps: seq<Step>)
    requires Serial(steps)
    ensures CountsExactly(steps)
  {
    forall i | 0 <= i < |steps| ensures Fresh(Run(steps[..i]), steps[i]) {
      if steps[i].Write? {
        assert steps[..i] == steps[..i - 1] + [steps[i - 1]];
        RunAppend(steps[..i - 1], steps[i - 1]);
      }
    }
    CountsExactlyIff(steps);
  }

  /** n complete calls, one after the other. */
  function Calls(call: nat, n: nat): seq<Step> {
    if n == 0 then [] else Calls(call, n - 1) + [Read(call)] + [Write(call)]
  }

  lemma {:induction false} CallsAfter(start: seq<Step>, call: nat, n: nat)
    ensures var s, t := Run(start), Run(start + Calls(call, n));
            && t.stored == s.stored + n && t.failures == s.failures + n
            && forall c :: c != call ==> (c in t.held <==> c in s.held) && (c in s.held ==> t.held[c] == s.held[c])
  {
    if n == 0 {
      assert start + Calls(call, 0) == start;
    } else {
      CallsAfter(start, call, n - 1);
      var u := start + Calls(call, n - 1);
      assert start + Calls(call, n) == u + [Read(call)] + [Write(call)];
      RunAppend(u, Read(call));
      RunAppend(u + [Read(call)], Write(call));
    }
  }

  /** The loss has no bound: one slow call, overlapping n others, brings a count
      of n back to 1. */
  lemma SlowCallForgets(n: nat)
    ensures var s := Run([Read(0)] + Calls(1, n) + [Write(0)]);
            s.stored == 1 && s.failures == n + 1
  {
    RunAppend([], Read(0));
    assert [] + [Read(0)] == [Read(0)];
    CallsAfter([Read(0)], 1, n);
    RunAppend([Read(0)] + Calls(1, n), Write(0));
  }

  /** A failure that overlaps a clear undoes it: the full count comes back. */
  lemma ClearIsUndone(n: nat)
    ensures Run(Calls(1, n) + [Read(0)] + [Drop]).stored == 0
    ensures Run(Calls(1, n) + [Read(0)] + [Drop] + [Write(0)]).stored == n + 1
  {
    CallsAfter([], 1, n);
    assert [] + Calls(1, n) == Calls(1, n);
    RunAppend(Calls(1, n), Read(0));
    RunAppend(Calls(1, n) + [Read(0)], Drop);
    RunAppend(Calls(1, n) + [Read(0)] + [Drop], Write(0));
  }
}
