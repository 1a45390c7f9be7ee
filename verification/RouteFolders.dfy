/** The folder table of the collection generator, and why taking its first
    matching row takes the longest one. */
module RouteFolders {
  import opened RouteTools

  // ---- The table, each group without the prefix its rows share ----

  const ADMIN: seq<Folder> := [
    Folder("wallet/", "Admin / Wallet"),
    Folder("campaigns/", "Admin / Campaigns"),
    Folder("contest/", "Admin / Contest"),
    Folder("legal/", "Admin / Legal"),
    Folder("master-campaigns/", "Admin / Master Campaigns"),
    Folder("subscriptions/", "Admin / Subscriptions"),
    Folder("support/", "Admin / Support"),
    Folder("reports/", "Admin / Moderation")
  ]

  const OPERATIONS: seq<Folder> := [
    Folder("moderation-actions/", "Admin / Moderation"),
    Folder("settings/", "Admin / Platform Settings"),
    Folder("api-keys/", "Admin / Platform Settings"),
    Folder("logs/", "Admin / Platform Settings"),
    Folder("security/", "Admin / Platform Settings"),
    Folder("performance/", "Admin / Platform Settings"),
    Folder("database/", "Admin / Platform Settings"),
    Folder("notifications/", "Admin / Platform Settings"),
    Folder("gifts/", "Admin / Gifts")
  ]

  const CORE := Folder("", "Admin / Core")

  const AUTH := Folder("auth/", "Authentication")

  const HEALTH := Folder("health", "Health")

  const PAYMENTS: seq<Folder> := [
    Folder("wallet/", "Wallet"),
    Folder("coins/", "Coins & Contest"),
    Folder("subscriptions/", "Subscriptions"),
    Folder("subscription/", "Subscriptions"),
    Folder("timwe/", "Webhooks (TIMWE)"),
    Folder("webhooks/", "Webhooks (Telebirr)"),
    Folder("direct-debit/", "Payments / Direct Debit"),
    Folder("charging/", "Payments / Airtime Charging")
  ]

  const ENGAGEMENT: seq<Folder> := [
    Folder("campaigns/", "Campaigns"),
    Folder("boost/", "Boost"),
    Folder("gamification/", "Gamification"),
    Folder("gifts/", "Gifts"),
    Folder("gift-transactions/", "Gifts"),
    Folder("gift-stats/", "Gifts"),
    Folder("messages/", "Messaging"),
    Folder("notifications/", "Notifications")
  ]

  const FEED: seq<Folder> := [
    Folder("push/", "Notifications"),
    Folder("reels/", "Reels & Feed"),
    Folder("posts/", "Reels & Feed"),
    Folder("explorer/", "Reels & Feed"),
    Folder("comments/", "Comments"),
    Folder("comment-replies/", "Comments"),
    Folder("saved/", "Reels & Feed")
  ]

  const PROFILE := Folder("profile", "Profile & Social")

  const SOCIAL: seq<Folder> := [
    Folder("follows/", "Profile & Social"),
    Folder("blocks/", "Profile & Social"),
    Folder("user-search/", "Profile & Social"),
    Folder("search/", "Profile & Social"),
    Folder("legal/", "Legal"),
    Folder("support/", "Support"),
    Folder("reports/", "Moderation"),
    Folder("leaderboard/", "Coins & Contest"),
    Folder("scores/", "Coins & Contest"),
    Folder("eligibility/", "Coins & Contest"),
    Folder("upload/", "Coins & Contest")
  ]

  const FINALE := Folder("grand-finale", "Coins & Contest")

  const REFERENCE: seq<Folder> := [
    Folder("quests/", "Gamification"),
    Folder("competitions/", "Campaigns"),
    Folder("winners/", "Campaigns"),
    Folder("categories/", "Reference Data"),
    Folder("settings/", "Reference Data"),
    Folder("setup-admin/", "Danger Zone"),
    Folder("cleanup-reels/", "Danger Zone")
  ]

  const ROOT := Folder("", "Reference Data")

  function Under(root: string, rows: seq<Folder>): seq<Folder> {
    seq(|rows|, i requires 0 <= i < |rows| => rows[i].(prefix := root + rows[i].prefix))
  }

  function FromFinale(): seq<Folder> {
    [FINALE] + (REFERENCE + [ROOT])
  }

  function FromProfile(): seq<Folder> {
    [PROFILE] + (SOCIAL + FromFinale())
  }

  function FromHealth(): seq<Folder> {
    [HEALTH] + (PAYMENTS + (ENGAGEMENT + (FEED + FromProfile())))
  }

  /** The rows of the script, in its order. */
  function Folders(): seq<Folder> {
    Under("api/v1/", Under("admin/", ADMIN + (OPERATIONS + [CORE])) + ([AUTH] + FromHealth()))
  }

  // ---- Rows that cannot hide one another ----

  /** No row is a proper prefix of a later one. */
  ghost predicate Clear(rows: seq<Folder>) {
    forall i, j :: 0 <= i < j < |rows| ==> !(rows[i].prefix < rows[j].prefix)
  }

  /** No slash but, perhaps, a last one. */
  predicate OneSegment(s: string) {
    forall k :: 0 <= k < |s| - 1 ==> s[k] != '/'
  }

  ghost predicate HasSlash(s: string) {
    exists k :: 0 <= k < |s| && s[k] == '/'
  }

  ghost predicate OneSegmentEach(rows: seq<Folder>) {
    forall i :: 0 <= i < |rows| ==> OneSegment(rows[i].prefix)
  }

  ghost predicate Slashed(rows: seq<Folder>) {
    forall i :: 0 <= i < |rows| ==> HasSlash(rows[i].prefix)
  }

  ghost predicate NoneStarts(rows: seq<Folder>, c: char) {
    forall i :: 0 <= i < |rows| ==> rows[i].prefix == "" || rows[i].prefix[0] != c
  }

  /** What has a slash is no proper prefix of a single segment: the slash would
      lie inside it. */
  lemma SlashStops(a: string, b: string)
    requires HasSlash(a) && OneSegment(b)
    ensures !(a < b)
  {
  }

  lemma ClearAppend(rows: seq<Folder>, more: seq<Folder>)
    requires Clear(rows) && Clear(more)
    requires forall i, j :: 0 <= i < |rows| && 0 <= j < |more| ==> !(rows[i].prefix < more[j].prefix)
    ensures Clear(rows + more)
  {
  }

  /** Slashed single segments, before any single segments, are clear. */
  lemma SlashedAreClear(rows: seq<Folder>, more: seq<Folder>)
    requires Slashed(rows) && OneSegmentEach(rows) && Clear(more) && OneSegmentEach(more)
    ensures Clear(rows + more) && OneSegmentEach(rows + more)
  {
    forall i, j | 0 <= i < j < |rows| ensures !(rows[i].prefix < rows[j].prefix) {
      SlashStops(rows[i].prefix, rows[j].prefix);
    }
    forall i, j | 0 <= i < |rows| && 0 <= j < |more| ensures !(rows[i].prefix < more[j].prefix) {
      SlashStops(rows[i].prefix, more[j].prefix);
    }
    ClearAppend(rows, more);
  }

  /** A row without a slash hides nothing if nothing later starts as it does. */
  lemma OpenIsClear(row: Folder, more: seq<Folder>)
    requires row.prefix != "" && OneSegment(row.prefix)
    requires Clear(more) && OneSegmentEach(more) && NoneStarts(more, row.prefix[0])
    ensures Clear([row] + more) && OneSegmentEach([row] + more)
  {
    ClearAppend([row], more);
  }

  lemma PrefixUnder(root: string, a: string, b: string)
    ensures root + a < root + b <==> a < b
  {
    if root + a < root + b {
      assert forall k :: 0 <= k < |a| ==> a[k] == (root + a)[|root| + k] == (root + b)[|root| + k] == b[k];
    }
  }

  lemma ClearUnder(root: string, rows: seq<Folder>)
    requires Clear(rows)
    ensures Clear(Under(root, rows))
  {
    forall i, j | 0 <= i < j < |rows| ensures !(root + rows[i].prefix < root + rows[j].prefix) {
      PrefixUnder(root, rows[i].prefix, rows[j].prefix);
    }
  }

  // ---- The rows of the script ----

  predicate Word(s: string) {
    EndsWithSlash(s) && OneSegment(s)
  }

  ghost predicate WordsIn(rows: seq<Folder>, lo: int, hi: int) {
    forall i :: 0 <= lo <= i < hi <= |rows| ==> Word(rows[i].prefix)
  }

  ghost predicate Words(rows: seq<Folder>) {
    WordsIn(rows, 0, |rows|)
  }

  lemma WordsAre(rows: seq<Folder>)
    requires Words(rows)
    ensures Slashed(rows) && OneSegmentEach(rows)
  {
    forall i | 0 <= i < |rows| ensures HasSlash(rows[i].prefix) {
      var s := rows[i].prefix;
      assert s[|s| - 1] == '/';
    }
  }

  lemma AdminWords()
    ensures Words(ADMIN)
  {
    FirstAdminWords();
    NextAdminWords();
    LastAdminWords();
  }

  lemma FirstAdminWords()
    ensures WordsIn(ADMIN, 0, 2)
  {
  }

  lemma NextAdminWords()
    ensures WordsIn(ADMIN, 2, 5)
  {
  }

  lemma LastAdminWords()
    ensures WordsIn(ADMIN, 5, 8)
  {
  }

  lemma OperationsWords()
    ensures Words(OPERATIONS)
  {
    FirstOperationsWords();
    NextOperationsWords();
    LastOperationsWords();
  }

  lemma FirstOperationsWords()
    ensures WordsIn(OPERATIONS, 0, 3)
  {
  }

  lemma NextOperationsWords()
    ensures WordsIn(OPERATIONS, 3, 6)
  {
  }

  lemma LastOperationsWords()
    ensures WordsIn(OPERATIONS, 6, 9)
  {
  }

  lemma PaymentsWords()
    ensures Words(PAYMENTS)
  {
    FirstPaymentsWords();
    NextPaymentsWords();
    LastPaymentsWords();
  }

  lemma FirstPaymentsWords()
    ensures WordsIn(PAYMENTS, 0, 2)
  {
  }

  lemma NextPaymentsWords()
    ensures WordsIn(PAYMENTS, 2, 5)
  {
  }

  lemma LastPaymentsWords()
    ensures WordsIn(PAYMENTS, 5, 8)
  {
  }

  lemma EngagementWords()
    ensures Words(ENGAGEMENT)
  {
    FirstEngagementWords();
    NextEngagementWords();
    LastEngagementWords();
  }

  lemma FirstEngagementWords()
    ensures WordsIn(ENGAGEMENT, 0, 2)
  {
  }

  lemma NextEngagementWords()
    ensures WordsIn(ENGAGEMENT, 2, 5)
  {
  }

  lemma LastEngagementWords()
    ensures WordsIn(ENGAGEMENT, 5, 8)
  {
  }

  lemma FeedWords()
    ensures Words(FEED)
  {
    FirstFeedWords();
    NextFeedWords();
    LastFeedWords();
  }

  lemma FirstFeedWords()
    ensures WordsIn(FEED, 0, 2)
  {
  }

  lemma NextFeedWords()
    ensures WordsIn(FEED, 2, 4)
  {
  }

  lemma LastFeedWords()
    ensures WordsIn(FEED, 4, 7)
  {
  }

  lemma SocialWords()
    ensures Words(SOCIAL)
  {
    FirstSocialWords();
    NextSocialWords();
    LastSocialWords();
  }

  lemma FirstSocialWords()
    ensures WordsIn(SOCIAL, 0, 4)
  {
  }

  lemma NextSocialWords()
    ensures WordsIn(SOCIAL, 4, 8)
  {
  }

  lemma LastSocialWords()
    ensures WordsIn(SOCIAL, 8, 11)
  {
  }

  lemma ReferenceWords()
    ensures Words(REFERENCE)
  {
    FirstReferenceWords();
    NextReferenceWords();
    LastReferenceWords();
  }

  lemma FirstReferenceWords()
    ensures WordsIn(REFERENCE, 0, 2)
  {
  }

  lemma NextReferenceWords()
    ensures WordsIn(REFERENCE, 2, 4)
  {
  }

  lemma LastReferenceWords()
    ensures WordsIn(REFERENCE, 4, 7)
  {
  }

  lemma NoLaterHealth()
    ensures NoneStarts(PAYMENTS, 'h') && NoneStarts(ENGAGEMENT, 'h') && NoneStarts(FEED, 'h') && NoneStarts(SOCIAL, 'h')
  {
  }

  lemma NoLaterProfile()
    ensures NoneStarts(SOCIAL, 'p')
  {
  }

  lemma ReferenceStarts()
    ensures NoneStarts(REFERENCE, 'h') && NoneStarts(REFERENCE, 'p') && NoneStarts(REFERENCE, 'g')
  {
  }

  ghost predicate Good(rows: seq<Folder>) {
    Clear(rows) && OneSegmentEach(rows)
  }

  lemma FinaleOn()
    ensures Good(FromFinale()) && NoneStarts(FromFinale(), 'h') && NoneStarts(FromFinale(), 'p')
  {
    ReferenceWords();
    ReferenceStarts();
    WordsAre(REFERENCE);
    SlashedAreClear(REFERENCE, [ROOT]);
    OpenIsClear(FINALE, REFERENCE + [ROOT]);
  }

  lemma ProfileOn()
    ensures Good(FromProfile()) && NoneStarts(FromProfile(), 'h')
  {
    FinaleOn();
    SocialWords();
    NoLaterProfile();
    NoLaterHealth();
    WordsAre(SOCIAL);
    SlashedAreClear(SOCIAL, FromFinale());
    OpenIsClear(PROFILE, SOCIAL + FromFinale());
  }

  lemma HealthOn()
    ensures Good(FromHealth())
  {
    ProfileOn();
    NoLaterHealth();
    FeedWords();
    WordsAre(FEED);
    SlashedAreClear(FEED, FromProfile());
    EngagementWords();
    WordsAre(ENGAGEMENT);
    SlashedAreClear(ENGAGEMENT, FEED + FromProfile());
    PaymentsWords();
    WordsAre(PAYMENTS);
    SlashedAreClear(PAYMENTS, ENGAGEMENT + (FEED + FromProfile()));
    OpenIsClear(HEALTH, PAYMENTS + (ENGAGEMENT + (FEED + FromProfile())));
  }

  lemma AdminRows()
    ensures Clear(ADMIN + (OPERATIONS + [CORE]))
  {
    OperationsWords();
    WordsAre(OPERATIONS);
    SlashedAreClear(OPERATIONS, [CORE]);
    AdminWords();
    WordsAre(ADMIN);
    SlashedAreClear(ADMIN, OPERATIONS + [CORE]);
  }

  /** No row of the script hides a later one. */
  lemma FoldersAreClear()
    ensures Clear(Folders())
  {
    AdminRows();
    ClearUnder("admin/", ADMIN + (OPERATIONS + [CORE]));
    HealthOn();
    assert Word(AUTH.prefix) && Words([AUTH]);
    WordsAre([AUTH]);
    SlashedAreClear([AUTH], FromHealth());
    AdminBeforeTheRest(ADMIN + (OPERATIONS + [CORE]), [AUTH] + FromHealth());
    ClearUnder("api/v1/", Under("admin/", ADMIN + (OPERATIONS + [CORE])) + ([AUTH] + FromHealth()));
  }

  lemma AdminBeforeTheRest(admin: seq<Folder>, rest: seq<Folder>)
    requires Clear(Under("admin/", admin)) && Good(rest)
    ensures Clear(Under("admin/", admin) + rest)
  {
    forall i, j | 0 <= i < |admin| && 0 <= j < |rest| ensures !("admin/" + admin[i].prefix < rest[j].prefix) {
      assert ("admin/" + admin[i].prefix)[5] == '/';
      SlashStops("admin/" + admin[i].prefix, rest[j].prefix);
    }
    ClearAppend(Under("admin/", admin), rest);
  }

  /** So for every route the first matching row of the script is the longest. */
  lemma LongestPrefixWins()
    ensures forall route :: LongestFor(Folders(), route)
  {
    FoldersAreClear();
    FirstIsLongestIff(Folders());
  }

  // ---- What the folders separate ----

  const ADMIN_MARK := "Admin / "

  predicate Marked(name: string) {
    ADMIN_MARK <= name
  }

  ghost predicate AllMarked(rows: seq<Folder>) {
    forall i :: 0 <= i < |rows| ==> Marked(rows[i].name)
  }

  ghost predicate NoneMarked(rows: seq<Folder>) {
    forall i :: 0 <= i < |rows| ==> !Marked(rows[i].name)
  }

  ghost predicate MarkedIn(rows: seq<Folder>, lo: int, hi: int) {
    forall i :: 0 <= lo <= i < hi <= |rows| ==> Marked(rows[i].name)
  }

  lemma FirstAdminNames()
    ensures MarkedIn(ADMIN, 0, 4)
  {
  }

  lemma LastAdminNames()
    ensures MarkedIn(ADMIN, 4, 8)
  {
  }

  lemma FirstOperationsNames()
    ensures MarkedIn(OPERATIONS, 0, 3)
  {
  }

  lemma NextOperationsNames()
    ensures MarkedIn(OPERATIONS, 3, 6)
  {
  }

  lemma LastOperationsNames()
    ensures MarkedIn(OPERATIONS, 6, 9)
  {
  }

  lemma CoreName()
    ensures Marked(CORE.name)
  {
  }

  lemma AdminNames()
    ensures AllMarked(ADMIN) && AllMarked(OPERATIONS)
  {
    FirstAdminNames();
    LastAdminNames();
    FirstOperationsNames();
    NextOperationsNames();
    LastOperationsNames();
  }

  lemma MarkedStarts(name: string)
    requires Marked(name)
    ensures |name| >= 2 && name[0] == 'A' && name[1] == 'd'
  {
    assert ADMIN_MARK[0] == 'A' && ADMIN_MARK[1] == 'd' && |ADMIN_MARK| == 8;
    assert name[0] == ADMIN_MARK[0] && name[1] == ADMIN_MARK[1];
  }

  lemma NotMarked(name: string)
    requires |name| < 2 || name[0] != 'A' || name[1] != 'd'
    ensures !Marked(name)
  {
    if Marked(name) {
      MarkedStarts(name);
      assert false;
    }
  }

  lemma OtherNames()
    ensures !Marked("Other") && !Marked(AUTH.name) && !Marked(HEALTH.name)
    ensures !Marked(PROFILE.name) && !Marked(FINALE.name) && !Marked(ROOT.name)
  {
    NotMarked("Other");
    NotMarked(AUTH.name);
    NotMarked(HEALTH.name);
    NotMarked(PROFILE.name);
    NotMarked(FINALE.name);
    NotMarked(ROOT.name);
  }

  lemma PaymentsNames()
    ensures NoneMarked(PAYMENTS)
  {
    forall i | 0 <= i < |PAYMENTS| ensures !Marked(PAYMENTS[i].name) {
      NotMarked(PAYMENTS[i].name);
    }
  }

  lemma EngagementNames()
    ensures NoneMarked(ENGAGEMENT)
  {
    forall i | 0 <= i < |ENGAGEMENT| ensures !Marked(ENGAGEMENT[i].name) {
      NotMarked(ENGAGEMENT[i].name);
    }
  }

  lemma FeedNames()
    ensures NoneMarked(FEED)
  {
    forall i | 0 <= i < |FEED| ensures !Marked(FEED[i].name) {
      NotMarked(FEED[i].name);
    }
  }

  lemma SocialNames()
    ensures NoneMarked(SOCIAL)
  {
    forall i | 0 <= i < |SOCIAL| ensures !Marked(SOCIAL[i].name) {
      NotMarked(SOCIAL[i].name);
    }
  }

  lemma ReferenceNames()
    ensures NoneMarked(REFERENCE)
  {
    forall i | 0 <= i < |REFERENCE| ensures !Marked(REFERENCE[i].name) {
      NotMarked(REFERENCE[i].name);
    }
  }

  lemma RestIsNotMarked()
    ensures NoneMarked([AUTH] + FromHealth())
  {
    OtherNames();
    PaymentsNames();
    EngagementNames();
    FeedNames();
    SocialNames();
    ReferenceNames();
    assert NoneMarked(FromFinale());
    assert NoneMarked(FromProfile());
    assert NoneMarked(FromHealth());
  }

  lemma AdminIsMarked()
    ensures AllMarked(ADMIN + (OPERATIONS + [CORE]))
  {
    AdminNames();
    CoreName();
  }

  lemma RowsAre(inner: seq<Folder>, last: Folder, rest: seq<Folder>, table: seq<Folder>, root: string)
    requires table == Under("api/v1/", Under("admin/", inner + [last]) + rest) && root == "api/v1/" + "admin/" && last.prefix == ""
    ensures |table| == |inner| + 1 + |rest| && table[|inner|].prefix == root
    ensures forall i :: 0 <= i <= |inner| ==> table[i].name == (inner + [last])[i].name && root <= table[i].prefix
    ensures forall i :: |inner| < i < |table| ==> table[i].name == rest[i - |inner| - 1].name
  {
    assert table[|inner|].prefix == "api/v1/" + ("admin/" + "") == root;
    forall i | 0 <= i <= |inner| ensures root <= table[i].prefix {
      assert table[i].prefix == root + (inner + [last])[i].prefix;
    }
  }

  /** Rows under a root with a mark, the root itself the last of them, and then
      rows without: exactly the routes under the root get a marked name. */
  lemma MarkedIff(table: seq<Folder>, n: nat, root: string, route: string)
    requires n < |table| && table[n].prefix == root && !Marked("Other")
    requires forall i :: 0 <= i <= n ==> Marked(table[i].name) && root <= table[i].prefix
    requires forall i :: n < i < |table| ==> !Marked(table[i].name)
    ensures Marked(NameFor(table, route)) <==> root <= route
  {
    if root <= route {
      assert Matches(table[n].prefix, route);
    }
  }

  /** A route gets an "Admin / ..." folder exactly when it lies under
      api/v1/admin/. */
  lemma AdminFolders(route: string)
    ensures Marked(NameFor(Folders(), route)) <==> "api/v1/" + "admin/" <= route
  {
    OtherNames();
    RestIsNotMarked();
    AdminIsMarked();
    assert ADMIN + (OPERATIONS + [CORE]) == (ADMIN + OPERATIONS) + [CORE];
    RowsAre(ADMIN + OPERATIONS, CORE, [AUTH] + FromHealth(), Folders(), "api/v1/" + "admin/");
    MarkedIff(Folders(), |ADMIN + OPERATIONS|, "api/v1/" + "admin/", route);
  }
}
