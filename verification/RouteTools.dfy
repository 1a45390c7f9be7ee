/** The route walker of the collection generator: flattening a resolver tree,
    choosing a folder, and cutting a path into segments. */
module RouteTools {
  import opened Strings

  // ---- Flattening ----

  datatype Node = Pattern(fragment: string, name: string) | Resolver(fragment: string, children: seq<Node>)

  datatype Route = Route(path: string, name: string)

  function Normalise(fragment: string): string {
    TrimRight(TrimLeft(fragment, '^'), '$')
  }

  /** The leaves of a forest, depth first, each under the fragments above it. */
  function Leaves(nodes: seq<Node>, prefix: string): seq<Route>
    decreases nodes, 1
  {
    if nodes == [] then [] else LeavesOf(nodes[0], prefix) + Leaves(nodes[1..], prefix)
  }

  function LeavesOf(node: Node, prefix: string): seq<Route>
    decreases node, 0
  {
    match node
    case Pattern(fragment, name) => [Route(prefix + Normalise(fragment), name)]
    case Resolver(fragment, children) => Leaves(children, prefix + Normalise(fragment))
  }

  class RouteList {
    var items: seq<Route>

    constructor ()
      ensures items == []
    {
      items := [];
    }
  }

  /** Appends the leaves to a list shared by all levels of the walk. */
  method Collect(nodes: seq<Node>, prefix: string, out: RouteList)
    modifies out
    ensures out.items == old(out.items) + Leaves(nodes, prefix)
    decreases nodes
  {
    for i := 0 to |nodes|
      invariant out.items + Leaves(nodes[i..], prefix) == old(out.items) + Leaves(nodes, prefix)
    {
      ghost var before, leaves, rest := out.items, LeavesOf(nodes[i], prefix), Leaves(nodes[i + 1..], prefix);
      assert nodes[i..][1..] == nodes[i + 1..];
      assert (before + leaves) + rest == before + (leaves + rest);
      match nodes[i]
      case Pattern(fragment, name) =>
        out.items := out.items + [Route(prefix + Normalise(fragment), name)];
      case Resolver(fragment, children) =>
        Collect(children, prefix + Normalise(fragment), out);
    }
  }

  /** The walk from the root fills a list of its own. */
  method CollectAll(nodes: seq<Node>) returns (out: RouteList)
    ensures fresh(out) && out.items == Leaves(nodes, "")
  {
    out := new RouteList();
    Collect(nodes, "", out);
  }

  function Mounted(routes: seq<Route>, prefix: string): seq<Route> {
    seq(|routes|, i requires 0 <= i < |routes| => routes[i].(path := prefix + routes[i].path))
  }

  /** Where a tree is mounted changes nothing but the start of its paths. */
  lemma {:induction false} MountingPrepends(nodes: seq<Node>, mount: string, prefix: string)
    ensures Leaves(nodes, mount + prefix) == Mounted(Leaves(nodes, prefix), mount)
    decreases nodes
  {
    if nodes != [] {
      MountingPrepends(nodes[1..], mount, prefix);
      var f := Normalise(nodes[0].fragment);
      assert (mount + prefix) + f == mount + (prefix + f);
      if nodes[0].Resolver? {
        MountingPrepends(nodes[0].children, mount, prefix + f);
      }
    }
  }

  // ---- What normalising and flattening keep ----

  predicate AllAre(s: string, c: char) {
    forall i :: 0 <= i < |s| ==> s[i] == c
  }

  /** A fragment is a text with carets before it and dollars after it, and the
      text neither starts with the one nor ends with the other. */
  ghost predicate Anchored(fragment: string, text: string) {
    && (exists carets, dollars :: AllAre(carets, '^') && AllAre(dollars, '$') && fragment == carets + text + dollars)
    && (text == "" || (text[0] != '^' && text[|text| - 1] != '$'))
  }

  lemma {:induction false} TrimLeftCuts(s: string, c: char) returns (left: string)
    ensures AllAre(left, c) && s == left + TrimLeft(s, c) && (TrimLeft(s, c) == "" || TrimLeft(s, c)[0] != c)
  {
    if s != "" && s[0] == c {
      left := TrimLeftCuts(s[1..], c);
      assert s == [s[0]] + s[1..] && s == [c] + left + TrimLeft(s, c);
      left := [c] + left;
    } else {
      left := "";
    }
  }

  lemma {:induction false} TrimRightCuts(s: string, c: char) returns (right: string)
    ensures AllAre(right, c) && s == TrimRight(s, c) + right
    ensures TrimRight(s, c) == "" || TrimRight(s, c)[|TrimRight(s, c)| - 1] != c
  {
    if s != "" && s[|s| - 1] == c {
      right := TrimRightCuts(s[..|s| - 1], c);
      assert s == s[..|s| - 1] + [c] && s == TrimRight(s, c) + (right + [c]);
      right := right + [c];
    } else {
      right := "";
    }
  }

  lemma {:induction false} TrimLeftDrops(left: string, s: string, c: char)
    requires AllAre(left, c) && (s == "" || s[0] != c)
    ensures TrimLeft(left + s, c) == s
  {
    if left == "" {
      assert left + s == s;
    } else {
      assert (left + s)[1..] == left[1..] + s;
      TrimLeftDrops(left[1..], s, c);
    }
  }

  lemma {:induction false} TrimRightDrops(s: string, right: string, c: char)
    requires AllAre(right, c) && (s == "" || s[|s| - 1] != c)
    ensures TrimRight(s + right, c) == s
  {
    if right == "" {
      assert s + right == s;
    } else {
      assert (s + right)[..|s + right| - 1] == s + right[..|right| - 1];
      TrimRightDrops(s, right[..|right| - 1], c);
    }
  }

  lemma AnchoredIsNormalised(carets: string, text: string, dollars: string)
    requires AllAre(carets, '^') && AllAre(dollars, '$')
    requires text == "" || (text[0] != '^' && text[|text| - 1] != '$')
    ensures Normalise(carets + text + dollars) == text
  {
    assert carets + text + dollars == carets + (text + dollars);
    assert dollars != "" ==> dollars[0] == '$';
    TrimLeftDrops(carets, text + dollars, '^');
    TrimRightDrops(text, dollars, '$');
  }

  /** Normalising a fragment takes its anchors off and nothing else. */
  lemma NormaliseIs(fragment: string, text: string)
    ensures text == Normalise(fragment) <==> Anchored(fragment, text)
  {
    var left := TrimLeftCuts(fragment, '^');
    var right := TrimRightCuts(TrimLeft(fragment, '^'), '$');
    var n := Normalise(fragment);
    assert fragment == left + n + right;
    assert n != "" ==> n[0] == TrimLeft(fragment, '^')[0];
    if Anchored(fragment, text) {
      var carets, dollars :| AllAre(carets, '^') && AllAre(dollars, '$') && fragment == carets + text + dollars;
      AnchoredIsNormalised(carets, text, dollars);
    }
  }

  /** The leaves of trees side by side are the leaves of each in turn. */
  lemma {:induction false} LeavesAppend(a: seq<Node>, b: seq<Node>, prefix: string)
    ensures Leaves(a + b, prefix) == Leaves(a, prefix) + Leaves(b, prefix)
  {
    if a == [] {
      assert a + b == b;
    } else {
      assert (a + b)[1..] == a[1..] + b;
      LeavesAppend(a[1..], b, prefix);
    }
  }

  /** Following an address, a child number at each level, leads to the route of a
      leaf: the fragments on the way, and its name. */
  predicate LeadsTo(nodes: seq<Node>, prefix: string, address: seq<nat>, r: Route)
    decreases nodes
  {
    address != [] && address[0] < |nodes| &&
    match nodes[address[0]]
    case Pattern(fragment, name) => |address| == 1 && r == Route(prefix + Normalise(fragment), name)
    case Resolver(fragment, children) => LeadsTo(children, prefix + Normalise(fragment), address[1..], r)
  }

  lemma LaterChild(nodes: seq<Node>, prefix: string, address: seq<nat>, r: Route)
    requires nodes != [] && address != []
    ensures LeadsTo(nodes, prefix, [address[0] + 1] + address[1..], r) <==> LeadsTo(nodes[1..], prefix, address, r)
  {
    assert ([address[0] + 1] + address[1..])[1..] == address[1..];
  }

  lemma FirstChild(nodes: seq<Node>, prefix: string, inner: seq<nat>, r: Route)
    requires nodes != [] && nodes[0].Resolver?
    ensures LeadsTo(nodes, prefix, [0] + inner, r) <==> LeadsTo(nodes[0].children, prefix + Normalise(nodes[0].fragment), inner, r)
  {
    assert ([0] + inner)[1..] == inner;
  }

  ghost predicate SomewhereIn(nodes: seq<Node>, prefix: string, r: Route) {
    exists address :: LeadsTo(nodes, prefix, address, r)
  }

  /** A route is among the leaves exactly when some address leads to it. */
  lemma {:induction false} LeavesAreSomewhere(nodes: seq<Node>, prefix: string, r: Route)
    ensures r in Leaves(nodes, prefix) <==> SomewhereIn(nodes, prefix, r)
    decreases nodes
  {
    if nodes != [] {
      LeavesAreSomewhere(nodes[1..], prefix, r);
      SomewhereStarts(nodes, prefix, r);
      if nodes[0].Resolver? {
        LeavesAreSomewhere(nodes[0].children, prefix + Normalise(nodes[0].fragment), r);
      }
    }
  }

  ghost predicate StartsWith(node: Node, prefix: string, r: Route) {
    match node
    case Pattern(fragment, name) => r == Route(prefix + Normalise(fragment), name)
    case Resolver(fragment, children) => SomewhereIn(children, prefix + Normalise(fragment), r)
  }

  lemma SomewhereStarts(nodes: seq<Node>, prefix: string, r: Route)
    requires nodes != []
    ensures SomewhereIn(nodes, prefix, r) <==> SomewhereIn(nodes[1..], prefix, r) || StartsWith(nodes[0], prefix, r)
  {
    if address :| LeadsTo(nodes, prefix, address, r) {
      if address[0] > 0 {
        var less := [address[0] - 1] + address[1..];
        assert [less[0] + 1] + less[1..] == address;
        LaterChild(nodes, prefix, less, r);
      } else if nodes[0].Resolver? {
        assert [0] + address[1..] == address;
        FirstChild(nodes, prefix, address[1..], r);
      }
    }
    if address :| LeadsTo(nodes[1..], prefix, address, r) {
      LaterChild(nodes, prefix, address, r);
    }
    match nodes[0] {
      case Pattern(fragment, name) =>
        if r == Route(prefix + Normalise(fragment), name) {
          assert LeadsTo(nodes, prefix, [0], r);
        }
      case Resolver(fragment, children) =>
        if inner :| LeadsTo(children, prefix + Normalise(fragment), inner, r) {
          FirstChild(nodes, prefix, inner, r);
        }
    }
  }

  // ---- Folders ----

  predicate Matches(prefix: string, route: string) {
    prefix <= route
  }

  datatype Folder = Folder(prefix: string, name: string)

  /** The first row whose prefix the route starts with. */
  method FolderFor(table: seq<Folder>, route: string) returns (name: string)
    ensures name == NameFor(table, route)
    ensures (exists k :: 0 <= k < |table| && table[k].prefix <= route && table[k].name == name
                         && forall j :: 0 <= j < k ==> !(table[j].prefix <= route))
         || (name == "Other" && forall j :: 0 <= j < |table| ==> !(table[j].prefix <= route))
  {
    for i := 0 to |table|
      invariant forall j :: 0 <= j < i ==> !Matches(table[j].prefix, route)
      invariant FirstMatch(table, route) == i + FirstMatch(table[i..], route)
    {
      if Matches(table[i].prefix, route) {
        return table[i].name;
      }
      assert table[i..][1..] == table[i + 1..];
    }
    return "Other";
  }

  function FirstMatch(table: seq<Folder>, route: string): (k: nat)
    ensures k <= |table| && (k < |table| ==> Matches(table[k].prefix, route))
    ensures forall j :: 0 <= j < k ==> !Matches(table[j].prefix, route)
  {
    if table == [] || Matches(table[0].prefix, route) then 0 else 1 + FirstMatch(table[1..], route)
  }

  /** The name of the first matching row, or Other. */
  function NameFor(table: seq<Folder>, route: string): string {
    var k := FirstMatch(table, route);
    if k < |table| then table[k].name else "Other"
  }

  ghost predicate LongestFor(table: seq<Folder>, route: string) {
    var k := FirstMatch(table, route);
    forall j :: 0 <= j < |table| && Matches(table[j].prefix, route) ==> k < |table| && |table[j].prefix| <= |table[k].prefix|
  }

  /** Row i hides the longer row j. */
  ghost predicate Hides(table: seq<Folder>, i: int, j: int)
    requires 0 <= i < j < |table|
  {
    table[i].prefix < table[j].prefix && forall m :: 0 <= m < i ==> table[m].prefix != table[j].prefix
  }

  /** The first match is the longest one for every route exactly when no row
      hides a longer one below it. */
  lemma FirstIsLongestIff(table: seq<Folder>)
    ensures (forall route :: LongestFor(table, route)) <==> forall i, j :: 0 <= i < j < |table| ==> !Hides(table, i, j)
  {
    if forall i, j :: 0 <= i < j < |table| ==> !Hides(table, i, j) {
      forall route ensures LongestFor(table, route) {
        forall j | 0 <= j < |table| && Matches(table[j].prefix, route)
          ensures FirstMatch(table, route) < |table| && |table[j].prefix| <= |table[FirstMatch(table, route)].prefix|
        {
          NoHidingNoLoss(table, route, j);
        }
      }
    } else {
      var i, j :| 0 <= i < j < |table| && Hides(table, i, j);
      HidingLoses(table, i, j);
    }
  }

  lemma NoHidingNoLoss(table: seq<Folder>, route: string, j: int)
    requires forall i, j :: 0 <= i < j < |table| ==> !Hides(table, i, j)
    requires 0 <= j < |table| && Matches(table[j].prefix, route)
    ensures FirstMatch(table, route) < |table| && |table[j].prefix| <= |table[FirstMatch(table, route)].prefix|
  {
    var k := FirstMatch(table, route);
    assert k <= j;
    var p, q := table[k].prefix, table[j].prefix;
    assert |p| < |q| ==> p < q;
    assert k < j ==> !Hides(table, k, j);
  }

  lemma HidingLoses(table: seq<Folder>, i: int, j: int)
    requires 0 <= i < j < |table| && Hides(table, i, j)
    ensures !LongestFor(table, table[j].prefix)
  {
    var route := table[j].prefix;
    var k := FirstMatch(table, route);
    assert Matches(table[i].prefix, route) && Matches(table[j].prefix, route);
    assert k <= i && table[k].prefix <= route;
    assert k < i ==> table[k].prefix != route;
  }

  // ---- Path segments ----

  /** str.split('/'): the pieces between slashes, empty ones included. */
  function Split(s: string, piece: string): seq<string> {
    if s == "" then [piece]
    else if s[0] == '/' then [piece] + Split(s[1..], "")
    else Split(s[1..], piece + [s[0]])
  }

  function NonEmpty(pieces: seq<string>): seq<string> {
    if pieces == [] then []
    else (if pieces[0] != "" then [pieces[0]] else []) + NonEmpty(pieces[1..])
  }

  predicate EndsWithSlash(path: string) {
    path != "" && path[|path| - 1] == '/'
  }

  function Ending(path: string): seq<string> {
    if EndsWithSlash(path) then [""] else []
  }

  /** The request's path segments; a trailing slash survives as an empty one. */
  function Segments(path: string): seq<string> {
    NonEmpty(Split(path, "")) + Ending(path)
  }

  /** No leading slash and no doubled one. */
  predicate Tidy(path: string) {
    (path == "" || path[0] != '/') && forall i :: 0 <= i < |path| - 1 ==> !(path[i] == '/' && path[i + 1] == '/')
  }

  predicate Plain(s: string) {
    forall i :: 0 <= i < |s| ==> s[i] != '/'
  }

  lemma AfterTheSlash(piece: string, rest: string)
    requires Plain(piece) && Tidy(piece + ("/" + rest))
    ensures piece != "" && Tidy(rest)
    ensures EndsWithSlash(piece + ("/" + rest)) <==> rest == "" || EndsWithSlash(rest)
  {
    var all := piece + ("/" + rest);
    assert all[|piece|] == '/';
    assert forall i :: 0 <= i < |rest| ==> rest[i] == all[|piece| + 1 + i];
    assert rest != "" ==> rest[0] == all[|piece| + 1];
  }

  ghost predicate IsRebuilt(s: string, piece: string) {
    && Join(NonEmpty(Split(s, piece)) + Ending(piece + s), "/") == piece + s
    && (piece + s != "" ==> NonEmpty(Split(s, piece)) != [])
  }

  lemma SplitAtSlash(piece: string, rest: string)
    requires piece != ""
    ensures NonEmpty(Split("/" + rest, piece)) == [piece] + NonEmpty(Split(rest, ""))
  {
    assert ("/" + rest)[1..] == rest;
    assert ([piece] + Split(rest, ""))[1..] == Split(rest, "");
  }

  /** The segments after a slash follow the piece before it. */
  lemma SegmentsAfterSlash(piece: string, rest: string)
    requires Plain(piece) && Tidy(piece + ("/" + rest))
    requires rest != "" ==> NonEmpty(Split(rest, "")) != []
    ensures var segments := NonEmpty(Split(rest, "")) + (if rest == "" then [""] else Ending(rest));
            segments != [] && NonEmpty(Split("/" + rest, piece)) + Ending(piece + ("/" + rest)) == [piece] + segments
  {
    AfterTheSlash(piece, rest);
    SplitAtSlash(piece, rest);
    var tail, ending := NonEmpty(Split(rest, "")), Ending(piece + ("/" + rest));
    assert ending == (if rest == "" then [""] else Ending(rest));
    assert ([piece] + tail) + ending == [piece] + (tail + ending);
  }

  lemma RebuiltAfterSlash(piece: string, rest: string)
    requires Plain(piece) && Tidy(piece + ("/" + rest))
    requires Join(NonEmpty(Split(rest, "")) + Ending(rest), "/") == rest && (rest != "" ==> NonEmpty(Split(rest, "")) != [])
    ensures IsRebuilt("/" + rest, piece)
  {
    AfterTheSlash(piece, rest);
    SplitAtSlash(piece, rest);
    SegmentsAfterSlash(piece, rest);
    var segments := NonEmpty(Split(rest, "")) + (if rest == "" then [""] else Ending(rest));
    JoinCons(piece, segments, "/");
    if rest == "" {
      assert segments == [""];
    }
  }

  /** A tidy path, read from inside a piece, is rebuilt. */
  lemma {:induction false} Rebuilt(s: string, piece: string)
    requires Plain(piece) && Tidy(piece + s)
    ensures IsRebuilt(s, piece)
  {
    if s == "" {
      assert piece + s == piece;
    } else {
      assert s == [s[0]] + s[1..];
      if s[0] == '/' {
        AfterTheSlash(piece, s[1..]);
        assert "" + s[1..] == s[1..];
        Rebuilt(s[1..], "");
        RebuiltAfterSlash(piece, s[1..]);
      } else {
        assert (piece + [s[0]]) + s[1..] == piece + s;
        Rebuilt(s[1..], piece + [s[0]]);
      }
    }
  }

  /** Every segment but a last empty one is a plain, nonempty word. */
  ghost predicate Wordy(segments: seq<string>) {
    forall i :: 0 <= i < |segments| ==> Plain(segments[i]) && (segments[i] == "" ==> i == |segments| - 1)
  }

  lemma {:induction false} PiecesAreWordy(s: string, piece: string)
    requires Plain(piece)
    ensures forall w :: w in NonEmpty(Split(s, piece)) ==> Plain(w) && w != ""
  {
    if s != "" {
      if s[0] == '/' {
        PiecesAreWordy(s[1..], "");
      } else {
        PiecesAreWordy(s[1..], piece + [s[0]]);
      }
    }
  }

  lemma {:induction false} JoinedIsTidy(segments: seq<string>)
    requires Wordy(segments)
    ensures Tidy(Join(segments, "/")) && (segments != [] && segments[0] != "" ==> Join(segments, "/") != "")
  {
    if |segments| > 1 {
      var rest := segments[1..];
      assert forall i :: 0 <= i < |rest| ==> rest[i] == segments[i + 1];
      JoinedIsTidy(rest);
      var w, t := segments[0], Join(rest, "/");
      assert w != "";
      var all := w + ("/" + t);
      forall i | 0 <= i < |all| - 1 ensures !(all[i] == '/' && all[i + 1] == '/') {
        if i > |w| {
          assert all[i] == t[i - |w| - 1] && all[i + 1] == t[i - |w|];
        }
      }
    }
  }

  lemma SegmentsAreWordy(path: string)
    ensures Wordy(Segments(path))
  {
    PiecesAreWordy(path, "");
    var words := NonEmpty(Split(path, ""));
    assert forall i :: 0 <= i < |words| ==> words[i] in words;
  }

  /** Joining the segments of a path gives the path back exactly when it has no
      leading and no doubled slash; a trailing slash is kept. */
  lemma SegmentsRoundTripIff(path: string)
    ensures Join(Segments(path), "/") == path <==> Tidy(path)
  {
    assert "" + path == path;
    if Tidy(path) {
      Rebuilt(path, "");
    }
    SegmentsAreWordy(path);
    JoinedIsTidy(Segments(path));
  }

  // ---- Segments of any path ----

  /** The words of a path: its segments but for a last empty one. */
  function WordsOf(path: string): seq<string> {
    NonEmpty(Split(path, ""))
  }

  lemma {:induction false} SplitOfPlain(s: string, piece: string)
    requires Plain(s)
    ensures Split(s, piece) == [piece + s]
  {
    if s == "" {
      assert piece + s == piece;
    } else {
      SplitOfPlain(s[1..], piece + [s[0]]);
      assert piece + [s[0]] + s[1..] == piece + s;
    }
  }

  lemma {:induction false} SplitAtAnySlash(a: string, b: string, piece: string)
    ensures Split(a + "/" + b, piece) == Split(a, piece) + Split(b, "")
  {
    var s := a + "/" + b;
    if a == "" {
      assert s[1..] == b;
    } else {
      assert s[0] == a[0] && s[1..] == a[1..] + "/" + b;
      SplitAtAnySlash(a[1..], b, if a[0] == '/' then "" else piece + [a[0]]);
    }
  }

  lemma {:induction false} NonEmptyAppend(a: seq<string>, b: seq<string>)
    ensures NonEmpty(a + b) == NonEmpty(a) + NonEmpty(b)
  {
    if a == [] {
      assert a + b == b;
    } else {
      assert (a + b)[1..] == a[1..] + b;
      NonEmptyAppend(a[1..], b);
    }
  }

  /** Every slash parts the words before it from those after it, what has no
      slash is one word, and a slash at the end adds an empty segment. */
  lemma SegmentsAre(a: string, b: string)
    ensures WordsOf(a + "/" + b) == WordsOf(a) + WordsOf(b)
    ensures Plain(a) ==> WordsOf(a) == if a == "" then [] else [a]
    ensures Segments(a) == WordsOf(a) + (if a != "" && a[|a| - 1] == '/' then [""] else [])
  {
    SplitAtAnySlash(a, b, "");
    NonEmptyAppend(Split(a, ""), Split(b, ""));
    if Plain(a) {
      SplitOfPlain(a, "");
      assert "" + a == a;
    }
  }
}
