/** The order of a campaign's dates: only neighbours are compared, yet every
    pair is judged. */
module CampaignTimeline {
  import opened Options

  /** A named date that may not be set yet. */
  datatype Stop = Stop(stopLabel: string, at: Option<int>)

  function Filled(timeline: seq<Stop>): seq<Stop> {
    if timeline == [] then []
    else (if timeline[0].at.Some? then [timeline[0]] else []) + Filled(timeline[1..])
  }

  /** Every two dates that are set, at any distance, are in order. */
  ghost predicate InOrder(timeline: seq<Stop>) {
    forall i, j :: 0 <= i < j < |timeline| && timeline[i].at.Some? && timeline[j].at.Some?
      ==> timeline[i].at.value <= timeline[j].at.value
  }

  ghost predicate AllSet(filled: seq<Stop>) {
    forall i :: 0 <= i < |filled| ==> filled[i].at.Some?
  }

  ghost predicate NeighboursInOrder(filled: seq<Stop>)
    requires AllSet(filled)
  {
    forall i :: 0 <= i < |filled| - 1 ==> filled[i].at.value <= filled[i + 1].at.value
  }

  function Problem(earlier: Stop, later: Stop): string {
    earlier.stopLabel + " is after " + later.stopLabel + "."
  }

  /** The sentences for the neighbours that run backwards, in order. */
  function ProblemsOf(filled: seq<Stop>): seq<string>
    requires AllSet(filled)
  {
    if |filled| < 2 then []
    else
      var k := |filled| - 2;
      ProblemsOf(filled[..k + 1]) +
      (if filled[k].at.value > filled[k + 1].at.value then [Problem(filled[k], filled[k + 1])] else [])
  }

  lemma {:induction false} FilledIsSet(timeline: seq<Stop>)
    ensures AllSet(Filled(timeline))
    ensures forall s :: s in Filled(timeline) <==> s in timeline && s.at.Some?
  {
    if timeline != [] {
      FilledIsSet(timeline[1..]);
    }
  }

  method TimelineProblems(timeline: seq<Stop>) returns (problems: seq<string>)
    ensures AllSet(Filled(timeline)) && problems == ProblemsOf(Filled(timeline))
    ensures problems == [] <==> InOrder(timeline)
  {
    FilledIsSet(timeline);
    var filled := Filled(timeline);
    problems := [];
    var i := 0;
    while i + 1 < |filled|
      invariant 0 <= i <= |filled| && (i < |filled| || filled == [])
      invariant problems == ProblemsOf(filled[..if filled == [] then 0 else i + 1])
    {
      assert filled[..i + 2][..i + 1] == filled[..i + 1];
      if filled[i].at.value > filled[i + 1].at.value {
        problems := problems + [Problem(filled[i], filled[i + 1])];
      }
      i := i + 1;
    }
    assert filled[..if filled == [] then 0 else i + 1] == filled;
    NoProblemsIff(filled);
    NeighboursSuffice(timeline);
  }

  lemma {:induction false} NoProblemsIff(filled: seq<Stop>)
    requires AllSet(filled)
    ensures ProblemsOf(filled) == [] <==> NeighboursInOrder(filled)
  {
    if |filled| >= 2 {
      NoProblemsIff(filled[..|filled| - 1]);
    }
  }

  lemma {:induction false} ChainOrder(filled: seq<Stop>, i: int, j: int)
    requires AllSet(filled) && NeighboursInOrder(filled) && 0 <= i <= j < |filled|
    ensures filled[i].at.value <= filled[j].at.value
    decreases j
  {
    if i < j {
      ChainOrder(filled, i, j - 1);
    }
  }

  lemma ConsInOrder(s: Stop, rest: seq<Stop>)
    ensures InOrder([s] + rest) <==>
      InOrder(rest) && forall t :: t in rest && s.at.Some? && t.at.Some? ==> s.at.value <= t.at.value
  {
    var all := [s] + rest;
    assert forall i :: 0 <= i < |rest| ==> all[i + 1] == rest[i];
    if InOrder(all) {
      forall t | t in rest && s.at.Some? && t.at.Some? ensures s.at.value <= t.at.value {
        var k :| 0 <= k < |rest| && rest[k] == t;
        assert all[0] == s && all[k + 1] == t;
      }
    }
  }

  lemma ConsNeighbours(s: Stop, tail: seq<Stop>)
    requires s.at.Some? && AllSet(tail)
    ensures AllSet([s] + tail)
    ensures NeighboursInOrder([s] + tail) <==>
      NeighboursInOrder(tail) && forall t :: t in tail ==> s.at.value <= t.at.value
  {
    var all := [s] + tail;
    assert forall i :: 0 <= i < |tail| ==> all[i + 1] == tail[i];
    if NeighboursInOrder(all) {
      forall i | 0 <= i < |tail| - 1 ensures tail[i].at.value <= tail[i + 1].at.value {
        assert all[i + 1].at.value <= all[i + 2].at.value;
      }
      forall t | t in tail ensures s.at.value <= t.at.value {
        var k :| 0 <= k < |tail| && tail[k] == t;
        ChainOrder(all, 0, k + 1);
      }
    }
  }

  /** Comparing neighbours among the dates that are set judges every pair, with
      any blanks between them. */
  lemma {:induction false} NeighboursSuffice(timeline: seq<Stop>)
    ensures AllSet(Filled(timeline)) && (NeighboursInOrder(Filled(timeline)) <==> InOrder(timeline))
  {
    FilledIsSet(timeline);
    if timeline != [] {
      var s, rest := timeline[0], timeline[1..];
      assert timeline == [s] + rest;
      NeighboursSuffice(rest);
      FilledIsSet(rest);
      ConsInOrder(s, rest);
      if s.at.Some? {
        ConsNeighbours(s, Filled(rest));
      } else {
        assert Filled(timeline) == Filled(rest);
      }
    }
  }

  /** Unsetting any date of a clean timeline leaves it clean. */
  lemma BlankingKeepsOrder(timeline: seq<Stop>, k: nat)
    requires k < |timeline| && InOrder(timeline)
    ensures InOrder(timeline[k := timeline[k].(at := None)])
  {
  }

  /** Reading every instant in another time zone changes no verdict. */
  lemma ShiftKeepsOrder(timeline: seq<Stop>, offset: int)
    ensures InOrder(Shifted(timeline, offset)) <==> InOrder(timeline)
  {
    var s := Shifted(timeline, offset);
    if InOrder(s) {
      forall i, j | 0 <= i < j < |timeline| && timeline[i].at.Some? && timeline[j].at.Some?
        ensures timeline[i].at.value <= timeline[j].at.value
      {
        assert s[i].at.value <= s[j].at.value;
      }
    }
  }

  function Shifted(timeline: seq<Stop>, offset: int): seq<Stop> {
    seq(|timeline|, i requires 0 <= i < |timeline| =>
      if timeline[i].at.Some? then timeline[i].(at := Some(timeline[i].at.value + offset)) else timeline[i])
  }

  // ---- Which sentence names which dates ----

  /** The date at i, the next one set after it is at j, and it is the later. */
  ghost predicate RunsBack(timeline: seq<Stop>, i: int, j: int) {
    && 0 <= i < j < |timeline| && timeline[i].at.Some? && timeline[j].at.Some?
    && timeline[i].at.value > timeline[j].at.value
    && forall k :: i < k < j ==> timeline[k].at == None
  }

  ghost predicate Says(s: string, timeline: seq<Stop>, i: int, j: int) {
    RunsBack(timeline, i, j) && s == timeline[i].stopLabel + " is after " + timeline[j].stopLabel + "."
  }

  ghost predicate SaysOfSome(s: string, timeline: seq<Stop>) {
    exists i, j :: Says(s, timeline, i, j)
  }

  lemma {:induction false} FirstSet(timeline: seq<Stop>) returns (j: int)
    ensures 0 <= j <= |timeline| && forall k :: 0 <= k < j ==> timeline[k].at == None
    ensures if Filled(timeline) == [] then j == |timeline|
            else j < |timeline| && timeline[j].at.Some? && timeline[j] == Filled(timeline)[0]
  {
    j := 0;
    if timeline != [] && timeline[0].at == None {
      j := FirstSet(timeline[1..]);
      assert forall k :: 0 < k < |timeline| ==> timeline[k] == timeline[1..][k - 1];
      j := j + 1;
    }
  }

  lemma {:induction false} ProblemsCons(s: Stop, filled: seq<Stop>)
    requires s.at.Some? && AllSet(filled)
    ensures AllSet([s] + filled)
    ensures ProblemsOf([s] + filled)
         == (if filled != [] && s.at.value > filled[0].at.value then [Problem(s, filled[0])] else []) + ProblemsOf(filled)
  {
    if |filled| >= 2 {
      var k := |filled| - 1;
      assert ([s] + filled)[..k + 1] == [s] + filled[..k];
      ProblemsCons(s, filled[..k]);
    }
  }

  lemma SaysCons(t: Stop, rest: seq<Stop>, s: string, j: int)
    requires 0 <= j <= |rest| && (forall k :: 0 <= k < j ==> rest[k].at == None) && (j < |rest| ==> rest[j].at.Some?)
    ensures SaysOfSome(s, [t] + rest) <==>
      SaysOfSome(s, rest) || (j < |rest| && t.at.Some? && t.at.value > rest[j].at.value && s == Problem(t, rest[j]))
  {
    var all := [t] + rest;
    assert forall k :: 0 <= k < |rest| ==> all[k + 1] == rest[k];
    if a, b :| Says(s, all, a, b) {
      if a > 0 {
        assert Says(s, rest, a - 1, b - 1);
      } else {
        assert b == j + 1;
      }
    }
    if a, b :| Says(s, rest, a, b) {
      assert Says(s, all, a + 1, b + 1);
    }
    if j < |rest| && t.at.Some? && t.at.value > rest[j].at.value && s == Problem(t, rest[j]) {
      assert Says(s, all, 0, j + 1);
    }
  }

  /** A sentence is among the problems exactly when it names, in order, a date and
      the next one that is set, and the first of them is the later. */
  lemma {:induction false} ProblemsName(timeline: seq<Stop>, s: string)
    ensures AllSet(Filled(timeline)) && (s in ProblemsOf(Filled(timeline)) <==> SaysOfSome(s, timeline))
  {
    FilledIsSet(timeline);
    if timeline != [] {
      var t, rest := timeline[0], timeline[1..];
      assert timeline == [t] + rest;
      ProblemsName(rest, s);
      FilledIsSet(rest);
      var j := FirstSet(rest);
      SaysCons(t, rest, s, j);
      if t.at.Some? {
        ProblemsCons(t, Filled(rest));
        assert Filled(timeline) == [t] + Filled(rest);
      } else {
        assert Filled(timeline) == Filled(rest);
      }
    }
  }

  class Campaign {
    var startDate: Option<int>
    var entryDeadline: Option<int>
    var votingStart: Option<int>
    var votingEnd: Option<int>

    constructor (startDate: Option<int>, entryDeadline: Option<int>, votingStart: Option<int>, votingEnd: Option<int>)
      ensures this.startDate == startDate && this.entryDeadline == entryDeadline
      ensures this.votingStart == votingStart && this.votingEnd == votingEnd
    {
      this.startDate, this.entryDeadline, this.votingStart, this.votingEnd := startDate, entryDeadline, votingStart, votingEnd;
    }

    function Timeline(): seq<Stop>
      reads this
    {
      [Stop("Start date", startDate), Stop("Entry deadline", entryDeadline),
       Stop("Voting start", votingStart), Stop("Voting end", votingEnd)]
    }

    /** Validation: refuses exactly when one of the four dates is later than one
        that should follow it, and says so of the next one set. */
    method Clean() returns (refused: Option<seq<string>>)
      ensures refused == None <==>
        && !Later(startDate, entryDeadline) && !Later(startDate, votingStart) && !Later(startDate, votingEnd)
        && !Later(entryDeadline, votingStart) && !Later(entryDeadline, votingEnd) && !Later(votingStart, votingEnd)
      ensures refused.Some? ==> refused.value != [] && forall s :: s in refused.value <==> SaysOfSome(s, Timeline())
    {
      var problems := TimelineProblems(Timeline());
      refused := if problems == [] then None else Some(problems);
      forall s ensures s in problems <==> SaysOfSome(s, Timeline()) {
        ProblemsName(Timeline(), s);
      }
      FourInOrder(Timeline());
    }
  }

  predicate Later(a: Option<int>, b: Option<int>) {
    a.Some? && b.Some? && a.value > b.value
  }

  lemma FourInOrder(t: seq<Stop>)
    requires |t| == 4
    ensures InOrder(t) <==>
      && !Later(t[0].at, t[1].at) && !Later(t[0].at, t[2].at) && !Later(t[0].at, t[3].at)
      && !Later(t[1].at, t[2].at) && !Later(t[1].at, t[3].at) && !Later(t[2].at, t[3].at)
  {
  }

  /** For a sentence of a campaign: which two dates it names. */
  lemma CampaignSays(c: Campaign, s: string)
    ensures SaysOfSome(s, c.Timeline()) <==>
      || (Later(c.startDate, c.entryDeadline) && s == "Start date" + " is after " + "Entry deadline" + ".")
      || (c.entryDeadline == None && Later(c.startDate, c.votingStart) && s == "Start date" + " is after " + "Voting start" + ".")
      || (c.entryDeadline == c.votingStart == None && Later(c.startDate, c.votingEnd) && s == "Start date" + " is after " + "Voting end" + ".")
      || (Later(c.entryDeadline, c.votingStart) && s == "Entry deadline" + " is after " + "Voting start" + ".")
      || (c.votingStart == None && Later(c.entryDeadline, c.votingEnd) && s == "Entry deadline" + " is after " + "Voting end" + ".")
      || (Later(c.votingStart, c.votingEnd) && s == "Voting start" + " is after " + "Voting end" + ".")
  {
    var t := c.Timeline();
    FourSay(t, s);
  }

  lemma FourSay(t: seq<Stop>, s: string)
    requires |t| == 4
    ensures SaysOfSome(s, t) <==>
      || (Later(t[0].at, t[1].at) && s == t[0].stopLabel + " is after " + t[1].stopLabel + ".")
      || (t[1].at == None && Later(t[0].at, t[2].at) && s == t[0].stopLabel + " is after " + t[2].stopLabel + ".")
      || (t[1].at == t[2].at == None && Later(t[0].at, t[3].at) && s == t[0].stopLabel + " is after " + t[3].stopLabel + ".")
      || (Later(t[1].at, t[2].at) && s == t[1].stopLabel + " is after " + t[2].stopLabel + ".")
      || (t[2].at == None && Later(t[1].at, t[3].at) && s == t[1].stopLabel + " is after " + t[3].stopLabel + ".")
      || (Later(t[2].at, t[3].at) && s == t[2].stopLabel + " is after " + t[3].stopLabel + ".")
  {
    if i, j :| Says(s, t, i, j) {
      assert (i == 0 && (j == 1 || j == 2 || j == 3)) || (i == 1 && (j == 2 || j == 3)) || (i == 2 && j == 3);
    }
    assert Says(s, t, 0, 1) || Says(s, t, 0, 2) || Says(s, t, 0, 3) || Says(s, t, 1, 2) || Says(s, t, 1, 3) || Says(s, t, 2, 3)
      ==> SaysOfSome(s, t);
  }
}
