/** Unique organization codes: the slug of a name, and the numbered suffixes
    that settle collisions. */
module CodeAllocator {
  import opened Decimal
  import opened Options
  import opened Sets
  import opened Strings

  // ---- The slug ----

  predicate IsAlnum(c: char) {
    'a' <= c <= 'z' || 'A' <= c <= 'Z' || '0' <= c <= '9'
  }

  function Upper(c: char): char {
    if 'a' <= c <= 'z' then c - 'a' + 'A' else c
  }

  function UpperAll(s: string): string {
    if s == "" then "" else [Upper(s[0])] + UpperAll(s[1..])
  }

  /** Replaces every maximal run of other characters by one hyphen. */
  function Hyphenate(s: string, inRun: bool): string {
    if s == "" then ""
    else if IsAlnum(s[0]) then [s[0]] + Hyphenate(s[1..], false)
    else if inRun then Hyphenate(s[1..], true)
    else "-" + Hyphenate(s[1..], true)
  }

  function Take(s: string, n: nat): string {
    if |s| <= n then s else s[..n]
  }

  function Slug(name: Option<string>): string {
    var text := if name.Some? then name.value else "";
    var cleaned := UpperAll(TrimRight(TrimLeft(Hyphenate(text, false), '-'), '-'));
    Take(if cleaned == "" then "ORG" else cleaned, 40)
  }

  // ---- Allocation ----

  /** The code tried with a suffix. */
  function Candidate(base: string, suffix: nat): string {
    Take(base, 44) + "-" + Print(suffix)
  }

  /** The code an organization gets when `taken` are in use: its base if free,
      else the base with the least free suffix. */
  ghost predicate IsCodeFor(code: string, base: string, taken: set<string>) {
    code !in taken &&
    (code == base ||
     (base in taken && exists k: nat :: 2 <= k && code == Candidate(base, k) && AllTaken(base, 2, k, taken)))
  }

  ghost predicate AllTaken(base: string, from: nat, to: nat, taken: set<string>) {
    forall j: nat :: from <= j < to ==> Candidate(base, j) in taken
  }

  lemma CandidateInjective(base: string, j: nat, k: nat)
    requires Candidate(base, j) == Candidate(base, k)
    ensures j == k
  {
    var p := Take(base, 44) + "-";
    assert Candidate(base, j)[|p|..] == Print(j) && Candidate(base, k)[|p|..] == Print(k);
    PrintInjective(j, k);
  }

  /** Codes are determined: no two codes are right for the same base. */
  lemma CodeIsDetermined(a: string, b: string, base: string, taken: set<string>)
    requires IsCodeFor(a, base, taken) && IsCodeFor(b, base, taken)
    ensures a == b
  {
    if base in taken {
      var j: nat :| 2 <= j && a == Candidate(base, j) && AllTaken(base, 2, j, taken);
      var k: nat :| 2 <= k && b == Candidate(base, k) && AllTaken(base, 2, k, taken);
      assert j == k;
    }
  }

  /** The candidates tried below a suffix. */
  ghost function Tried(base: string, suffix: nat): set<string> {
    if suffix <= 2 then {} else Tried(base, suffix - 1) + {Candidate(base, suffix - 1)}
  }

  lemma {:induction false} TriedAreDistinct(base: string, suffix: nat)
    requires 2 <= suffix
    ensures |Tried(base, suffix)| == suffix - 2
    ensures forall c :: c in Tried(base, suffix) ==> exists j: nat :: 2 <= j < suffix && c == Candidate(base, j)
  {
    if suffix > 2 {
      TriedAreDistinct(base, suffix - 1);
      if Candidate(base, suffix - 1) in Tried(base, suffix - 1) {
        var j: nat :| 2 <= j < suffix - 1 && Candidate(base, suffix - 1) == Candidate(base, j);
        CandidateInjective(base, suffix - 1, j);
      }
    }
  }

  /** Pigeonhole: a base and all its candidates below a suffix cannot be taken
      by fewer codes than there are of them. */
  lemma TakenBoundsSuffix(base: string, suffix: nat, taken: set<string>)
    requires |base| <= 44 && 2 <= suffix
    requires base in taken && AllTaken(base, 2, suffix, taken)
    ensures suffix - 1 <= |taken|
  {
    TriedAreDistinct(base, suffix);
    forall j: nat ensures Candidate(base, j) != base {
      assert |Candidate(base, j)| > |base|;
    }
    assert base !in Tried(base, suffix);
    SubsetIsNoLarger(Tried(base, suffix) + {base}, taken);
  }

  /** The inner search: terminates, and finds the code. */
  method FindFree(base: string, taken: set<string>) returns (code: string)
    requires |base| <= 40
    ensures IsCodeFor(code, base, taken)
    ensures |code| <= |base| || exists k: nat :: 2 <= k <= |taken| + 1 && code == Candidate(base, k)
  {
    code := base;
    var suffix: nat := 2;
    while code in taken
      invariant 2 <= suffix
      invariant if suffix == 2 then code == base else base in taken && code == Candidate(base, suffix - 1)
      invariant suffix > 2 ==> AllTaken(base, 2, suffix - 1, taken)
      decreases |taken| + 2 - suffix
    {
      assert AllTaken(base, 2, suffix, taken);
      TakenBoundsSuffix(base, suffix, taken);
      code := Take(base, 44) + "-" + Print(suffix);
      suffix := suffix + 1;
    }
    if suffix > 2 {
      TakenBoundsSuffix(base, suffix - 1, taken);
    }
  }

  class Organization {
    const name: Option<string>
    var code: Option<string>

    constructor (name: Option<string>)
      ensures this.name == name && code == None
    {
      this.name := name;
      code := None;
    }
  }

  ghost predicate AllDistinct(orgs: seq<Organization>) {
    forall i, j :: 0 <= i < j < |orgs| ==> orgs[i] != orgs[j]
  }

  ghost function Bases(orgs: seq<Organization>): seq<string> {
    seq(|orgs|, i requires 0 <= i < |orgs| => Slug(orgs[i].name))
  }

  ghost function Elements(codes: seq<string>): set<string> {
    set c | c in codes
  }

  /** Each code is right for its base given the codes before it. */
  ghost predicate RightCodes(bases: seq<string>, codes: seq<string>) {
    |codes| == |bases| && forall i :: 0 <= i < |codes| ==> IsCodeFor(codes[i], bases[i], Elements(codes[..i]))
  }

  lemma RightCodesExtend(bases: seq<string>, codes: seq<string>, base: string, code: string)
    requires RightCodes(bases, codes) && IsCodeFor(code, base, Elements(codes))
    ensures RightCodes(bases + [base], codes + [code])
  {
    var all := codes + [code];
    forall i | 0 <= i < |all| ensures IsCodeFor(all[i], (bases + [base])[i], Elements(all[..i])) {
      assert all[..i] == codes[..i];
    }
  }

  /** Right codes are pairwise distinct, even where a slug reads like another
      organization's numbered code. */
  lemma RightCodesAreDistinct(bases: seq<string>, codes: seq<string>, i: int, j: int)
    requires RightCodes(bases, codes) && 0 <= i < j < |codes|
    ensures codes[i] != codes[j]
  {
    assert codes[..j][i] == codes[i];
    assert codes[i] in Elements(codes[..j]);
  }

  lemma {:induction false} FewElements(codes: seq<string>)
    ensures |Elements(codes)| <= |codes|
  {
    if codes != [] {
      var k := |codes| - 1;
      FewElements(codes[..k]);
      assert Elements(codes) == Elements(codes[..k]) + {codes[k]};
    }
  }

  const ORGANIZATIONS_WITHIN_LENGTH: nat := 1_000_000_000

  lemma SlugLength(name: Option<string>)
    ensures 1 <= |Slug(name)| <= 40
  {
  }

  /** A suffix below a billion keeps a code within the column's 50 characters. */
  lemma CodeLength(base: string, k: nat)
    requires |base| <= 40 && k < ORGANIZATIONS_WITHIN_LENGTH
    ensures |Candidate(base, k)| <= 50
  {
    PrintLength(k, 9);
    assert Pow10(3) == 1000;
    assert Pow10(6) == 1000 * Pow10(3);
    assert Pow10(9) == 1000 * Pow10(6);
  }

  lemma CodesFit(bases: seq<string>, codes: seq<string>, i: int)
    requires RightCodes(bases, codes) && 0 <= i < |codes| < ORGANIZATIONS_WITHIN_LENGTH
    requires 1 <= |bases[i]| <= 40
    ensures 1 <= |codes[i]| <= 50
  {
    if codes[i] != bases[i] {
      var taken := Elements(codes[..i]);
      var k: nat :| 2 <= k && codes[i] == Candidate(bases[i], k) && AllTaken(bases[i], 2, k, taken);
      TakenBoundsSuffix(bases[i], k, taken);
      FewElements(codes[..i]);
      CodeLength(bases[i], k);
    }
  }

  ghost predicate Coded(orgs: seq<Organization>, codes: seq<string>)
    reads orgs
  {
    |codes| <= |orgs| && forall i :: 0 <= i < |codes| ==> orgs[i].code == Some(codes[i])
  }

  lemma BackfillStep(orgs: seq<Organization>, n: nat, codes: seq<string>, code: string)
    requires n < |orgs| && RightCodes(Bases(orgs[..n]), codes) && IsCodeFor(code, Slug(orgs[n].name), Elements(codes))
    ensures RightCodes(Bases(orgs[..n + 1]), codes + [code])
    ensures Elements(codes + [code]) == Elements(codes) + {code}
  {
    RightCodesExtend(Bases(orgs[..n]), codes, Slug(orgs[n].name), code);
    assert Bases(orgs[..n + 1]) == Bases(orgs[..n]) + [Slug(orgs[n].name)];
  }

  /** Gives every organization its code, in order. */
  method BackfillCodes(orgs: seq<Organization>) returns (ghost codes: seq<string>)
    requires AllDistinct(orgs)
    modifies orgs
    ensures Coded(orgs, codes) && RightCodes(Bases(orgs), codes)
    ensures forall i, j :: 0 <= i < j < |orgs| ==> orgs[i].code != orgs[j].code
  {
    var taken: set<string> := {};
    codes := [];
    for n := 0 to |orgs|
      invariant |codes| == n && Coded(orgs, codes)
      invariant taken == Elements(codes) && RightCodes(Bases(orgs[..n]), codes)
    {
      SlugLength(orgs[n].name);
      var code := FindFree(Slug(orgs[n].name), taken);
      BackfillStep(orgs, n, codes, code);
      taken := taken + {code};
      orgs[n].code := Some(code);
      codes := codes + [code];
    }
    assert orgs[..|orgs|] == orgs;
    forall i, j | 0 <= i < j < |orgs| ensures orgs[i].code != orgs[j].code {
      RightCodesAreDistinct(Bases(orgs), codes, i, j);
    }
  }

  /** So for fewer than a billion organizations every code fits its column. */
  lemma BackfilledCodesFit(orgs: seq<Organization>, codes: seq<string>)
    requires RightCodes(Bases(orgs), codes) && |orgs| < ORGANIZATIONS_WITHIN_LENGTH
    ensures forall i :: 0 <= i < |codes| ==> 1 <= |codes[i]| <= 50
  {
    forall i | 0 <= i < |codes| ensures 1 <= |codes[i]| <= 50 {
      SlugLength(orgs[i].name);
      CodesFit(Bases(orgs), codes, i);
    }
  }

  // ---- The slug against its description ----

  /** The maximal runs of letters and digits of a text; `current` is the run
      being read. */
  function Words(s: string, current: string): seq<string> {
    var closed := if current == "" then [] else [current];
    if s == "" then closed
    else if IsAlnum(s[0]) then Words(s[1..], current + [s[0]])
    else closed + Words(s[1..], "")
  }

  predicate AllAlnum(s: string) {
    forall i :: 0 <= i < |s| ==> IsAlnum(s[i])
  }

  lemma {:induction false} TrimRightConcat(a: string, s: string)
    requires TrimRight(s, '-') != ""
    ensures TrimRight(a + s, '-') == a + TrimRight(s, '-')
  {
    if s[|s| - 1] == '-' {
      TrimRightConcat(a, s[..|s| - 1]);
      assert (a + s)[..|a + s| - 1] == a + s[..|s| - 1];
    }
  }

  lemma HyphenateInRunStart(s: string)
    ensures Hyphenate(s, true) == "" || IsAlnum(Hyphenate(s, true)[0])
  {
  }

  /** Without its leading hyphen a text reads as from inside a run. */
  lemma TrimmedLeft(s: string)
    ensures TrimLeft(Hyphenate(s, false), '-') == Hyphenate(s, true)
  {
    HyphenateInRunStart(s);
    if s != "" && !IsAlnum(s[0]) {
      HyphenateInRunStart(s[1..]);
      assert ("-" + Hyphenate(s[1..], true))[1..] == Hyphenate(s[1..], true);
    }
  }

  lemma {:induction false} StartsWithAlnum(s: string)
    requires s != "" && IsAlnum(s[0])
    ensures TrimRight(s, '-') != ""
    decreases |s|
  {
    if s[|s| - 1] == '-' {
      StartsWithAlnum(s[..|s| - 1]);
    }
  }

  lemma {:induction false} WordsAreNotEmpty(s: string, current: string)
    ensures forall w :: w in Words(s, current) ==> w != ""
    ensures current != "" ==> Words(s, current) != []
  {
    if s != "" {
      WordsAreNotEmpty(s[1..], current + [s[0]]);
      WordsAreNotEmpty(s[1..], "");
    }
  }

  lemma {:induction false} RunsAreWords(s: string)
    ensures TrimRight(Hyphenate(s, true), '-') == Join(Words(s, ""), "-")
    ensures Hyphenate(s, true) == "" <==> Words(s, "") == []
    decreases |s|, 0
  {
    if s != "" {
      if IsAlnum(s[0]) {
        WordIsRead(s[1..], [s[0]]);
        WordsAreNotEmpty(s[1..], [s[0]]);
        assert "" + [s[0]] == [s[0]];
      } else {
        RunsAreWords(s[1..]);
        assert Words(s, "") == Words(s[1..], "");
      }
    }
  }

  lemma WordThenRest(current: string, rest: string)
    requires current != "" && AllAlnum(current) && (rest == "" || IsAlnum(rest[0]))
    ensures TrimRight(current + ("-" + rest), '-') == if rest == "" then current else current + ("-" + TrimRight(rest, '-'))
  {
    assert current + ("-" + rest) == (current + "-") + rest;
    if rest == "" {
      assert (current + "-") + rest == current + "-";
      assert (current + "-")[..|current|] == current;
    } else {
      StartsWithAlnum(rest);
      TrimRightConcat(current + "-", rest);
    }
  }

  lemma {:induction false} WordIsRead(s: string, current: string)
    requires current != "" && AllAlnum(current)
    ensures TrimRight(current + Hyphenate(s, false), '-') == Join(Words(s, current), "-")
    decreases |s|, 1
  {
    if s == "" {
      assert current + "" == current;
    } else if IsAlnum(s[0]) {
      assert current + ([s[0]] + Hyphenate(s[1..], false)) == (current + [s[0]]) + Hyphenate(s[1..], false);
      WordIsRead(s[1..], current + [s[0]]);
    } else {
      RunsAreWords(s[1..]);
      HyphenateInRunStart(s[1..]);
      WordThenRest(current, Hyphenate(s[1..], true));
      if Words(s[1..], "") != [] {
        JoinCons(current, Words(s[1..], ""), "-");
      }
    }
  }

  /** A slug is the words of the name, upper-cased and joined by single hyphens,
      or ORG when there are none, cut to 40 characters. */
  lemma SlugIsJoinedWords(name: Option<string>)
    ensures var words := Words(if name.Some? then name.value else "", "");
            var whole := if words == [] then "ORG" else UpperAll(Join(words, "-"));
            Slug(name) == if |whole| <= 40 then whole else whole[..40]
  {
    var text := if name.Some? then name.value else "";
    TrimmedLeft(text);
    RunsAreWords(text);
    WordsAreNotEmpty(text, "");
    var words := Words(text, "");
    if words != [] {
      assert words[0] in words;
      assert Join(words, "-") != "" && UpperAll(Join(words, "-")) != "";
    }
  }

  // ---- What words and upper case are ----

  /** Letters and digits, by their ASCII codes. */
  predicate LetterOrDigit(c: char) {
    48 <= c as int <= 57 || 65 <= c as int <= 90 || 97 <= c as int <= 122
  }

  lemma {:induction false} OneWord(w: string, current: string)
    requires current + w != "" && forall i :: 0 <= i < |w| ==> LetterOrDigit(w[i])
    ensures Words(w, current) == [current + w]
  {
    if w == "" {
      assert current + "" == current;
    } else {
      OneWord(w[1..], current + [w[0]]);
      assert current + [w[0]] + w[1..] == current + w;
    }
  }

  lemma {:induction false} WordsStopAt(a: string, c: char, b: string, current: string)
    requires !LetterOrDigit(c)
    ensures Words(a + [c] + b, current) == Words(a, current) + Words(b, "")
  {
    var s := a + [c] + b;
    if a == "" {
      assert s[1..] == b;
    } else {
      assert s[0] == a[0] && s[1..] == a[1..] + [c] + b;
      WordsStopAt(a[1..], c, b, if IsAlnum(a[0]) then current + [a[0]] else "");
    }
  }

  /** A name without other characters is one word, one of nothing is none, and
      any other character parts the words before it from those after it. */
  lemma WordsAreRuns(w: string, a: string, c: char, b: string)
    ensures Words("", "") == []
    ensures w != "" && (forall i :: 0 <= i < |w| ==> LetterOrDigit(w[i])) ==> Words(w, "") == [w]
    ensures !LetterOrDigit(c) ==> Words(a + [c] + b, "") == Words(a, "") + Words(b, "")
  {
    if w != "" && forall i :: 0 <= i < |w| ==> LetterOrDigit(w[i]) {
      OneWord(w, "");
      assert "" + w == w;
    }
    if !LetterOrDigit(c) {
      WordsStopAt(a, c, b, "");
    }
  }

  /** Upper case moves the small letters 32 codes down, and nothing else. */
  lemma {:induction false} UpperIs(s: string)
    ensures |UpperAll(s)| == |s|
    ensures forall i :: 0 <= i < |s| ==>
      UpperAll(s)[i] as int == s[i] as int - (if 97 <= s[i] as int <= 122 then 32 else 0)
  {
    if s != "" {
      UpperIs(s[1..]);
    }
  }

  predicate IsWord(w: string) {
    w != "" && AllAlnum(w)
  }

  lemma {:induction false} WordsAreAlnum(s: string, current: string)
    requires AllAlnum(current)
    ensures forall i :: 0 <= i < |Words(s, current)| ==> IsWord(Words(s, current)[i])
  {
    if s != "" {
      if IsAlnum(s[0]) {
        WordsAreAlnum(s[1..], current + [s[0]]);
      } else {
        WordsAreAlnum(s[1..], "");
      }
    }
  }

  /** Words, and single hyphens between them. */
  ghost predicate Hyphenated(s: string) {
    && s != "" && s[0] != '-' && s[|s| - 1] != '-'
    && (forall i :: 0 <= i < |s| ==> s[i] == '-' || LetterOrDigit(s[i]))
    && (forall i :: 0 <= i < |s| - 1 ==> !(s[i] == '-' && s[i + 1] == '-'))
  }

  lemma {:induction false} JoinedShape(words: seq<string>)
    requires words != [] && forall i :: 0 <= i < |words| ==> IsWord(words[i])
    ensures Hyphenated(Join(words, "-"))
  {
    var w := words[0];
    assert IsWord(w);
    if |words| > 1 {
      var rest := words[1..];
      assert forall i :: 0 <= i < |rest| ==> rest[i] == words[i + 1];
      JoinedShape(rest);
      WordAndRest(w, Join(rest, "-"));
    }
  }

  lemma WordAndRest(w: string, t: string)
    requires IsWord(w) && Hyphenated(t)
    ensures Hyphenated(w + ("-" + t))
  {
    var s := w + ("-" + t);
    assert forall i :: 0 <= i < |s| ==> s[i] == if i < |w| then w[i] else if i == |w| then '-' else t[i - |w| - 1];
  }

  /** Capitals, digits and single hyphens, the first of them no hyphen. */
  ghost predicate Shaped(s: string) {
    && s != "" && s[0] != '-'
    && (forall i :: 0 <= i < |s| ==> s[i] == '-' || 48 <= s[i] as int <= 57 || 65 <= s[i] as int <= 90)
    && (forall i :: 0 <= i < |s| - 1 ==> !(s[i] == '-' && s[i + 1] == '-'))
  }

  lemma UpperShape(s: string)
    requires Hyphenated(s)
    ensures Shaped(UpperAll(s)) && UpperAll(s)[|UpperAll(s)| - 1] != '-'
  {
    UpperIs(s);
  }

  lemma CutShape(whole: string)
    requires Shaped(whole) && 40 < |whole|
    ensures Shaped(whole[..40])
  {
  }

  /** A slug holds capitals, digits and hyphens, neither first nor doubled, and
      last only where the cut falls on one. */
  lemma SlugShape(name: Option<string>)
    ensures Shaped(Slug(name)) && |Slug(name)| <= 40 && (|Slug(name)| < 40 ==> Slug(name)[|Slug(name)| - 1] != '-')
  {
    var words := Words(if name.Some? then name.value else "", "");
    SlugIsJoinedWords(name);
    if words != [] {
      WordsAreAlnum(if name.Some? then name.value else "", "");
      JoinedShape(words);
      UpperShape(Join(words, "-"));
      var whole := UpperAll(Join(words, "-"));
      if 40 < |whole| {
        CutShape(whole);
      }
    }
  }

  /** A numbered code reads back: the base, a hyphen, and the number. */
  lemma CandidateReadsBack(base: string, k: nat)
    requires |base| <= 44
    ensures var code := Candidate(base, k);
            && |base| < |code| && code[..|base|] == base && code[|base|] == '-'
            && AllDigits(code[|base| + 1..]) && Value(code[|base| + 1..]) == k
  {
    var code := Candidate(base, k);
    assert code == base + "-" + Print(k);
    assert code[|base| + 1..] == Print(k);
  }
}
