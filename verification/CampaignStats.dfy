/** A participant's campaign totals, recalculated in place from the scored
    posts. */
module CampaignStats {

  datatype Status = Pending | Approved | Rejected

  /** A scored post; scores are in hundredths. */
  datatype Post = Post(user: nat, campaign: nat, status: Status, score: int)

  /** What the campaign pays a day of streak and a day of participation. */
  datatype Rates = Rates(perStreakDay: int, perDay: int)

  predicate Counts(p: Post, user: nat, campaign: nat, status: Status) {
    p.user == user && p.campaign == campaign && p.status == status
  }

  function CountOf(posts: seq<Post>, user: nat, campaign: nat, status: Status): nat {
    if posts == [] then 0
    else
      var p := posts[|posts| - 1];
      CountOf(posts[..|posts| - 1], user, campaign, status) + (if Counts(p, user, campaign, status) then 1 else 0)
  }

  /** The approved posts' scores. */
  function ScoreOf(posts: seq<Post>, user: nat, campaign: nat): int {
    if posts == [] then 0
    else
      var p := posts[|posts| - 1];
      ScoreOf(posts[..|posts| - 1], user, campaign) + (if Counts(p, user, campaign, Approved) then p.score else 0)
  }

  function Average(sum: int, count: nat): real {
    if count > 0 then sum as real / count as real else 0.0
  }

  datatype Fields = Fields(totalPosts: int, approved: int, rejected: int, totalScore: int, average: real, streak: int, days: int)

  /** What the fields become: counts and score from the posts, the days kept. */
  function Recalculated(f: Fields, posts: seq<Post>, user: nat, campaign: nat, rates: Rates): Fields {
    var approved, rejected := CountOf(posts, user, campaign, Approved), CountOf(posts, user, campaign, Rejected);
    var sum := ScoreOf(posts, user, campaign);
    Fields(approved + rejected, approved, rejected, sum + f.streak * rates.perStreakDay + f.days * rates.perDay,
           Average(sum, approved), f.streak, f.days)
  }

  class UserCampaignStats {
    const user: nat
    const campaign: nat
    var totalPosts: int
    var approvedPosts: int
    var rejectedPosts: int
    var totalScore: int
    var averageScore: real
    var currentStreak: int
    var daysParticipated: int

    constructor (user: nat, campaign: nat)
      ensures this.user == user && this.campaign == campaign
      ensures Contents() == Fields(0, 0, 0, 0, 0.0, 0, 0)
    {
      this.user, this.campaign := user, campaign;
      totalPosts, approvedPosts, rejectedPosts, totalScore := 0, 0, 0, 0;
      averageScore, currentStreak, daysParticipated := 0.0, 0, 0;
    }

    ghost function Contents(): Fields
      reads this
    {
      Fields(totalPosts, approvedPosts, rejectedPosts, totalScore, averageScore, currentStreak, daysParticipated)
    }

    /** The total starts again from the posts before the days are added to it. */
    method UpdateStats(posts: seq<Post>, rates: Rates)
      modifies this
      ensures Contents() == Recalculated(old(Contents()), posts, user, campaign, rates)
    {
      approvedPosts, totalScore, rejectedPosts := 0, 0, 0;
      for i := 0 to |posts|
        invariant approvedPosts == CountOf(posts[..i], user, campaign, Approved)
        invariant rejectedPosts == CountOf(posts[..i], user, campaign, Rejected)
        invariant totalScore == ScoreOf(posts[..i], user, campaign)
        invariant currentStreak == old(currentStreak) && daysParticipated == old(daysParticipated)
      {
        assert posts[..i + 1][..i] == posts[..i];
        if Counts(posts[i], user, campaign, Approved) {
          approvedPosts, totalScore := approvedPosts + 1, totalScore + posts[i].score;
        }
        if Counts(posts[i], user, campaign, Rejected) {
          rejectedPosts := rejectedPosts + 1;
        }
      }
      assert posts[..|posts|] == posts;
      averageScore := if approvedPosts > 0 then totalScore as real / approvedPosts as real else 0.0;
      totalPosts := approvedPosts + rejectedPosts;
      totalScore := totalScore + currentStreak * rates.perStreakDay;
      totalScore := totalScore + daysParticipated * rates.perDay;
    }
  }

  /** Although the total is added to, nothing accumulates: only the days of the
      old fields matter, and a second recalculation changes nothing. */
  lemma NothingAccumulates(f: Fields, g: Fields, posts: seq<Post>, user: nat, campaign: nat, rates: Rates)
    requires f.streak == g.streak && f.days == g.days
    ensures Recalculated(f, posts, user, campaign, rates) == Recalculated(g, posts, user, campaign, rates)
    ensures var once := Recalculated(f, posts, user, campaign, rates);
            Recalculated(once, posts, user, campaign, rates) == once
  {
  }

  /** Without posts there is nothing but the days. */
  lemma NoPosts(f: Fields, user: nat, campaign: nat, rates: Rates)
    ensures Recalculated(f, [], user, campaign, rates)
         == Fields(0, 0, 0, f.streak * rates.perStreakDay + f.days * rates.perDay, 0.0, f.streak, f.days)
  {
  }

  /** One more post of the participant, if it is approved, counts once and adds
      its score; if it is rejected it counts once; any other changes nothing. */
  lemma OneMorePost(f: Fields, posts: seq<Post>, p: Post, user: nat, campaign: nat, rates: Rates)
    ensures var before, after := Recalculated(f, posts, user, campaign, rates), Recalculated(f, posts + [p], user, campaign, rates);
            var mine := p.user == user && p.campaign == campaign;
            && after.approved == before.approved + (if mine && p.status == Approved then 1 else 0)
            && after.rejected == before.rejected + (if mine && p.status == Rejected then 1 else 0)
            && after.totalPosts == before.totalPosts + (if mine && p.status != Pending then 1 else 0)
            && after.totalScore == before.totalScore + (if mine && p.status == Approved then p.score else 0)
            && after.streak == before.streak && after.days == before.days
  {
    assert (posts + [p])[..|posts|] == posts;
  }

  /** One more day of streak, or of participation, adds what the campaign pays
      for it and changes nothing else. */
  lemma OneMoreDay(f: Fields, posts: seq<Post>, user: nat, campaign: nat, rates: Rates)
    ensures var before := Recalculated(f, posts, user, campaign, rates);
            && Recalculated(f.(streak := f.streak + 1), posts, user, campaign, rates)
                 == before.(totalScore := before.totalScore + rates.perStreakDay, streak := f.streak + 1)
            && Recalculated(f.(days := f.days + 1), posts, user, campaign, rates)
                 == before.(totalScore := before.totalScore + rates.perDay, days := f.days + 1)
  {
    assert (f.streak + 1) * rates.perStreakDay == f.streak * rates.perStreakDay + rates.perStreakDay;
    assert (f.days + 1) * rates.perDay == f.days * rates.perDay + rates.perDay;
  }

  /** The average, times the approved posts, is the total but for the days. */
  lemma AverageIs(f: Fields, posts: seq<Post>, user: nat, campaign: nat, rates: Rates)
    ensures var after := Recalculated(f, posts, user, campaign, rates);
            after.average * after.approved as real
              == (after.totalScore - f.streak * rates.perStreakDay - f.days * rates.perDay) as real
  {
    NoScoreWithoutPosts(posts, user, campaign);
  }

  lemma {:induction false} NoScoreWithoutPosts(posts: seq<Post>, user: nat, campaign: nat)
    ensures CountOf(posts, user, campaign, Approved) == 0 ==> ScoreOf(posts, user, campaign) == 0
  {
    if posts != [] {
      NoScoreWithoutPosts(posts[..|posts| - 1], user, campaign);
    }
  }

  lemma {:induction false} AppendAdds(posts: seq<Post>, more: seq<Post>, user: nat, campaign: nat, status: Status)
    ensures CountOf(posts + more, user, campaign, status) == CountOf(posts, user, campaign, status) + CountOf(more, user, campaign, status)
    ensures ScoreOf(posts + more, user, campaign) == ScoreOf(posts, user, campaign) + ScoreOf(more, user, campaign)
  {
    if more == [] {
      assert posts + more == posts;
    } else {
      var k := |more| - 1;
      assert (posts + more)[..|posts| + k] == posts + more[..k];
      AppendAdds(posts, more[..k], user, campaign, status);
    }
  }

  lemma SplitAt(posts: seq<Post>, i: int, user: nat, campaign: nat, status: Status)
    requires 0 <= i < |posts|
    ensures var rest := posts[..i] + posts[i + 1..];
            && CountOf(posts, user, campaign, status) == CountOf(rest, user, campaign, status)
                 + (if Counts(posts[i], user, campaign, status) then 1 else 0)
            && ScoreOf(posts, user, campaign) == ScoreOf(rest, user, campaign)
                 + (if Counts(posts[i], user, campaign, Approved) then posts[i].score else 0)
  {
    assert posts == posts[..i] + ([posts[i]] + posts[i + 1..]);
    AppendAdds(posts[..i], [posts[i]] + posts[i + 1..], user, campaign, status);
    AppendAdds([posts[i]], posts[i + 1..], user, campaign, status);
    AppendAdds(posts[..i], posts[i + 1..], user, campaign, status);
    assert [posts[i]][..0] == [];
  }

  /** Nor does it matter in which order the posts are read. */
  lemma OrderDoesNotMatter(posts: seq<Post>, other: seq<Post>, f: Fields, user: nat, campaign: nat, rates: Rates)
    requires multiset(posts) == multiset(other)
    ensures Recalculated(f, posts, user, campaign, rates) == Recalculated(f, other, user, campaign, rates)
  {
    forall status ensures CountOf(posts, user, campaign, status) == CountOf(other, user, campaign, status)
                       && ScoreOf(posts, user, campaign) == ScoreOf(other, user, campaign)
    {
      SameSums(posts, other, user, campaign, status);
    }
  }

  lemma WithoutAt<T>(s: seq<T>, i: int)
    requires 0 <= i < |s|
    ensures multiset(s[..i] + s[i + 1..]) == multiset(s) - multiset{s[i]}
  {
    assert s == s[..i] + ([s[i]] + s[i + 1..]);
  }

  /** Taking the last of one and its like out of the other leaves equals. */
  lemma WithoutOne(posts: seq<Post>, other: seq<Post>) returns (i: int)
    requires multiset(posts) == multiset(other) && posts != []
    ensures 0 <= i < |other| && other[i] == posts[|posts| - 1]
    ensures multiset(posts[..|posts| - 1]) == multiset(other[..i] + other[i + 1..])
  {
    var k, p := |posts| - 1, posts[|posts| - 1];
    assert p in multiset(other);
    i :| 0 <= i < |other| && other[i] == p;
    WithoutAt(posts, k);
    assert posts[..k] + posts[k + 1..] == posts[..k];
    WithoutAt(other, i);
  }

  lemma {:induction false} SameSums(posts: seq<Post>, other: seq<Post>, user: nat, campaign: nat, status: Status)
    requires multiset(posts) == multiset(other)
    ensures CountOf(posts, user, campaign, status) == CountOf(other, user, campaign, status)
    ensures ScoreOf(posts, user, campaign) == ScoreOf(other, user, campaign)
    decreases |posts|
  {
    if posts == [] {
      assert |multiset(other)| == 0;
    } else {
      var i := WithoutOne(posts, other);
      SameSums(posts[..|posts| - 1], other[..i] + other[i + 1..], user, campaign, status);
      SplitAt(other, i, user, campaign, status);
    }
  }
}
