/** The throttle rate grammar: `3/m`, `5/30s`, `3/10min`. */
module RateParser {
  import opened Decimal
  import opened Options
  import opened Strings

  datatype Class = Space | Digit | Letter

  predicate In(c: char, k: Class) {
    match k
    case Space => IsBlank(c)
    case Digit => IsDigit(c)
    case Letter => 'a' <= c <= 'z' || 'A' <= c <= 'Z'
  }

  predicate All(s: string, k: Class) {
    forall i :: 0 <= i < |s| ==> In(s[i], k)
  }

  predicate IsUnit(c: char) {
    c == 's' || c == 'm' || c == 'h' || c == 'd' || c == 'S' || c == 'M' || c == 'H' || c == 'D'
  }

  function UnitSeconds(c: char): nat
    requires IsUnit(c)
  {
    if c == 's' || c == 'S' then 1 else if c == 'm' || c == 'M' then 60 else if c == 'h' || c == 'H' then 3600 else 86400
  }

  // ---- The pattern, read as a grammar ----

  /** The text before the slash and the text after it, group by group. */
  datatype Count = Count(before: string, num: string, after: string)
  datatype Period = Period(before: string, mult: string, between: string, unit: char, letters: string, after: string)

  predicate ValidCount(c: Count) {
    All(c.before, Space) && AllDigits(c.num) && c.num != "" && All(c.after, Space)
  }

  predicate ValidPeriod(p: Period) {
    && All(p.before, Space) && AllDigits(p.mult) && All(p.between, Space)
    && IsUnit(p.unit) && All(p.letters, Letter) && All(p.after, Space)
  }

  function CountText(c: Count): string {
    c.before + (c.num + c.after)
  }

  function PeriodText(p: Period): string {
    p.before + (p.mult + (p.between + ([p.unit] + (p.letters + p.after))))
  }

  /** What the pattern means, with no reference to how it is searched. */
  ghost predicate Reads(s: string, c: Count, p: Period) {
    ValidCount(c) && ValidPeriod(p) && s == CountText(c) + (['/'] + PeriodText(p))
  }

  datatype Rate = NoRate | Rate(requests: nat, seconds: nat) | Delegated

  function RateOf(c: Count, p: Period): Rate
    requires ValidCount(c) && ValidPeriod(p)
  {
    Rate(Value(c.num), UnitSeconds(p.unit) * (if p.mult == "" then 1 else Value(p.mult)))
  }

  // ---- The parser: a left-to-right scan that never backs up ----

  function Span(s: string, k: Class): (n: nat)
    ensures n <= |s| && All(s[..n], k)
    ensures n < |s| ==> !In(s[n], k)
  {
    if s == "" || !In(s[0], k) then 0
    else
      var n := 1 + Span(s[1..], k);
      assert s[..n] == [s[0]] + s[1..][..n - 1];
      n
  }

  /** Splits off the longest prefix inside a class. */
  function Cut(s: string, k: Class): (r: (string, string))
    ensures s == r.0 + r.1 && All(r.0, k)
    ensures r.1 == "" || !In(r.1[0], k)
  {
    var n := Span(s, k);
    (s[..n], s[n..])
  }

  /** Blanks, digits, blanks, and what is left. */
  function ScanNumber(s: string): (string, string, string, string) {
    var (before, s1) := Cut(s, Space);
    var (digits, s2) := Cut(s1, Digit);
    var (after, s3) := Cut(s2, Space);
    (before, digits, after, s3)
  }

  function ScanCount(s: string): Option<(Count, string)> {
    var (before, num, after, rest) := ScanNumber(s);
    if num == "" || rest == "" || rest[0] != '/' then None else Some((Count(before, num, after), rest[1..]))
  }

  function ScanUnit(s: string): Option<(char, string, string)> {
    if s == "" || !IsUnit(s[0]) then None
    else
      var (letters, s1) := Cut(s[1..], Letter);
      var (after, s2) := Cut(s1, Space);
      if s2 != "" then None else Some((s[0], letters, after))
  }

  function ScanPeriod(s: string): Option<Period> {
    var (before, mult, between, rest) := ScanNumber(s);
    match ScanUnit(rest)
    case None => None
    case Some((unit, letters, after)) => Some(Period(before, mult, between, unit, letters, after))
  }

  function Scan(s: string): Option<(Count, Period)> {
    match ScanCount(s)
    case None => None
    case Some((c, rest)) =>
      match ScanPeriod(rest)
      case None => None
      case Some(p) => Some((c, p))
  }

  /** `Delegated` stands for the framework's own parser, called on anything the
      pattern does not match. */
  function ParseRate(rate: Option<string>): Rate {
    match rate
    case None => NoRate
    case Some(s) =>
      ScanReads(s);
      match Scan(s)
      case None => Delegated
      case Some((c, p)) => RateOf(c, p)
  }

  // ---- The parser against the grammar ----

  lemma ScannedNumberReads(s: string)
    ensures var (before, digits, after, rest) := ScanNumber(s);
            All(before, Space) && AllDigits(digits) && All(after, Space) && s == before + (digits + (after + rest))
  {
    var digits := ScanNumber(s).1;
    assert All(digits, Digit);
    assert forall i :: 0 <= i < |digits| ==> In(digits[i], Digit);
  }

  lemma SlashRegrouped(before: string, num: string, after: string, rest: string)
    requires rest != "" && rest[0] == '/'
    ensures before + (num + (after + rest)) == CountText(Count(before, num, after)) + (['/'] + rest[1..])
  {
    assert rest == ['/'] + rest[1..];
    assert before + (num + (after + rest)) == (before + (num + after)) + rest;
  }

  lemma ScannedCountReads(s: string)
    ensures ScanCount(s).Some? ==>
      var (c, rest) := ScanCount(s).value; ValidCount(c) && s == CountText(c) + (['/'] + rest)
  {
    if ScanCount(s).Some? {
      ScannedNumberReads(s);
      var (before, num, after, rest) := ScanNumber(s);
      SlashRegrouped(before, num, after, rest);
    }
  }

  lemma ScannedUnitReads(s: string)
    ensures ScanUnit(s).Some? ==>
      var (unit, letters, after) := ScanUnit(s).value;
      IsUnit(unit) && All(letters, Letter) && All(after, Space) && s == [unit] + (letters + after)
  {
    if ScanUnit(s).Some? {
      var (_, s1) := Cut(s[1..], Letter);
      assert s == [s[0]] + s[1..] && s1 == ScanUnit(s).value.2;
    }
  }

  lemma ScannedPeriodReads(s: string)
    ensures ScanPeriod(s).Some? ==> ValidPeriod(ScanPeriod(s).value) && s == PeriodText(ScanPeriod(s).value)
  {
    ScannedNumberReads(s);
    ScannedUnitReads(ScanNumber(s).3);
  }

  lemma ScanReads(s: string)
    ensures Scan(s).Some? ==> Reads(s, Scan(s).value.0, Scan(s).value.1)
  {
    if Scan(s).Some? {
      ScannedCountReads(s);
      ScannedPeriodReads(ScanCount(s).value.1);
    }
  }

  /** A class is cut off where it stops. */
  lemma {:induction false} CutStops(a: string, b: string, k: Class)
    requires All(a, k) && (b == "" || !In(b[0], k))
    ensures Cut(a + b, k) == (a, b)
  {
    if a == "" {
      assert a + b == b;
    } else {
      CutStops(a[1..], b, k);
      assert (a + b)[1..] == a[1..] + b;
      assert Span(a + b, k) == 1 + Span(a[1..] + b, k);
      assert Cut(a[1..] + b, k).0 == a[1..];
    }
    assert Span(a + b, k) == |a|;
    assert (a + b)[..|a|] == a && (a + b)[|a|..] == b;
  }

  /** Blanks around an absent multiplier can be split in several ways; the scan
      gives them all to the first group. */
  function Settled(p: Period): Period {
    if p.mult == "" then p.(before := p.before + p.between, between := "") else p
  }

  lemma BlanksMove(a: string, b: string, t: string)
    ensures a + ("" + (b + t)) == (a + b) + ("" + ("" + t))
  {
    assert "" + (b + t) == b + t && "" + ("" + t) == t;
  }

  lemma SettledReadsTheSame(p: Period)
    requires ValidPeriod(p)
    ensures ValidPeriod(Settled(p)) && PeriodText(Settled(p)) == PeriodText(p)
  {
    BlanksMove(p.before, p.between, [p.unit] + (p.letters + p.after));
  }

  lemma UnitIsScanned(unit: char, letters: string, after: string)
    requires IsUnit(unit) && All(letters, Letter) && All(after, Space)
    ensures ScanUnit([unit] + (letters + after)) == Some((unit, letters, after))
  {
    var s := [unit] + (letters + after);
    assert s[1..] == letters + after;
    CutStops(letters, after, Letter);
    CutStops(after, "", Space);
    assert after + "" == after;
  }

  lemma NumberIsScanned(before: string, digits: string, after: string, rest: string)
    requires All(before, Space) && AllDigits(digits) && All(after, Space) && (digits == "" ==> after == "")
    requires rest != "" && (IsUnit(rest[0]) || rest[0] == '/')
    ensures ScanNumber(before + (digits + (after + rest))) == (before, digits, after, rest)
  {
    CutStops(before, digits + (after + rest), Space);
    CutStops(digits, after + rest, Digit);
    CutStops(after, rest, Space);
  }

  lemma CountIsScanned(c: Count, rest: string)
    requires ValidCount(c)
    ensures ScanCount(CountText(c) + (['/'] + rest)) == Some((c, rest))
  {
    assert CountText(c) + (['/'] + rest) == c.before + (c.num + (c.after + (['/'] + rest)));
    NumberIsScanned(c.before, c.num, c.after, ['/'] + rest);
  }

  lemma PeriodIsScanned(p: Period)
    requires ValidPeriod(p)
    ensures ScanPeriod(PeriodText(p)) == Some(Settled(p))
  {
    var q := Settled(p);
    SettledReadsTheSame(p);
    NumberIsScanned(q.before, q.mult, q.between, [q.unit] + (q.letters + q.after));
    UnitIsScanned(q.unit, q.letters, q.after);
  }

  lemma ReadingIsScanned(s: string, c: Count, p: Period)
    requires Reads(s, c, p)
    ensures Scan(s) == Some((c, Settled(p)))
  {
    CountIsScanned(c, PeriodText(p));
    PeriodIsScanned(p);
  }

  lemma ReadingIsParsed(s: string, c: Count, p: Period)
    requires Reads(s, c, p)
    ensures ParseRate(Some(s)) == RateOf(c, p)
  {
    ReadingIsScanned(s, c, p);
    SettledReadsTheSame(p);
  }

  /** The parser returns a rate exactly for the texts the grammar reads, and
      returns what they mean; so all readings of a text mean the same. */
  lemma ParsesTheGrammar(s: string, r: Rate)
    requires r.Rate?
    ensures ParseRate(Some(s)) == r <==> exists c, p :: Reads(s, c, p) && RateOf(c, p) == r
  {
    if ParseRate(Some(s)) == r {
      ScanReads(s);
      assert Reads(s, Scan(s).value.0, Scan(s).value.1);
    } else if c, p :| Reads(s, c, p) && RateOf(c, p) == r {
      ReadingIsParsed(s, c, p);
    }
  }

  lemma DelegatesTheRest(s: string)
    ensures ParseRate(Some(s)) == Delegated <==> !exists c, p :: Reads(s, c, p)
  {
    if c, p :| Reads(s, c, p) {
      ReadingIsParsed(s, c, p);
    } else if ParseRate(Some(s)) != Delegated {
      ParsesTheGrammar(s, ParseRate(Some(s)));
    }
  }

  // ---- The parser against a printer ----

  function PrintRate(n: nat, k: Option<nat>, c: Count, p: Period): string {
    CountText(c.(num := Print(n))) + (['/'] + PeriodText(p.(mult := if k.Some? then Print(k.value) else "")))
  }

  /** Printing a rate in any spacing, unit letter and suffix, and parsing it
      again, gives the rate back. */
  lemma PrintedRateParses(n: nat, k: Option<nat>, c: Count, p: Period)
    requires ValidCount(c) && ValidPeriod(p)
    ensures ParseRate(Some(PrintRate(n, k, c, p))) == Rate(n, UnitSeconds(p.unit) * (if k.Some? then k.value else 1))
  {
    ReadingIsParsed(PrintRate(n, k, c, p), c.(num := Print(n)), p.(mult := if k.Some? then Print(k.value) else ""));
  }

  lemma PlainText(num: string, mult: string, period: string)
    requires period != ""
    ensures CountText(Count("", num, "")) + (['/'] + PeriodText(Period("", mult, "", period[0], period[1..], "")))
         == num + "/" + mult + period
  {
    assert CountText(Count("", num, "")) == num;
    assert [period[0]] + (period[1..] + "") == period;
    assert PeriodText(Period("", mult, "", period[0], period[1..], "")) == mult + period;
    assert num + (['/'] + (mult + period)) == num + "/" + mult + period;
  }

  /** Without a multiplier the reading is the framework's: the number before the
      slash and the first letter of the period after it. */
  lemma SingleUnitReading(num: string, period: string)
    requires AllDigits(num) && num != "" && period != "" && IsUnit(period[0]) && All(period, Letter)
    ensures ParseRate(Some(num + "/" + period)) == Rate(Value(num), UnitSeconds(period[0]))
  {
    var c, p := Count("", num, ""), Period("", "", "", period[0], period[1..], "");
    PlainText(num, "", period);
    assert num + "/" + "" + period == num + "/" + period;
    ReadingIsParsed(num + "/" + period, c, p);
  }

  // ---- Units, classes and case ----

  /** A minute is sixty seconds, an hour sixty minutes and a day twenty-four
      hours, in either case. */
  lemma UnitsAre()
    ensures UnitSeconds('s') == UnitSeconds('S') == 1
    ensures UnitSeconds('m') == UnitSeconds('M') == 60 * UnitSeconds('s')
    ensures UnitSeconds('h') == UnitSeconds('H') == 60 * UnitSeconds('m')
    ensures UnitSeconds('d') == UnitSeconds('D') == 24 * UnitSeconds('h')
  {
  }

  function LowerCase(c: char): char {
    if 65 <= c as int <= 90 then (c as int + 32) as char else c
  }

  function Lowered(s: string): string {
    seq(|s|, i requires 0 <= i < |s| => LowerCase(s[i]))
  }

  /** The classes by their ASCII codes, letters and units in either case. */
  lemma ClassesAre(c: char)
    ensures In(c, Digit) <==> 48 <= c as int <= 57
    ensures In(c, Space) <==> 9 <= c as int <= 13 || 28 <= c as int <= 32
    ensures In(c, Letter) <==> 97 <= LowerCase(c) as int <= 122
    ensures IsUnit(c) <==> LowerCase(c) in "smhd"
  {
  }

  lemma CaseKeepsClasses(c: char)
    ensures In(LowerCase(c), Digit) == In(c, Digit) && In(LowerCase(c), Space) == In(c, Space)
    ensures In(LowerCase(c), Letter) == In(c, Letter) && IsUnit(LowerCase(c)) == IsUnit(c)
    ensures IsUnit(c) ==> UnitSeconds(LowerCase(c)) == UnitSeconds(c)
    ensures LowerCase(c) == '/' <==> c == '/'
    ensures In(c, Digit) ==> LowerCase(c) == c
  {
  }

  lemma {:induction false} SpanIgnoresCase(s: string, k: Class)
    ensures Span(Lowered(s), k) == Span(s, k)
  {
    if s != "" {
      CaseKeepsClasses(s[0]);
      assert Lowered(s)[1..] == Lowered(s[1..]);
      SpanIgnoresCase(s[1..], k);
    }
  }

  lemma CutIgnoresCase(s: string, k: Class)
    ensures Cut(Lowered(s), k) == (Lowered(Cut(s, k).0), Lowered(Cut(s, k).1))
  {
    SpanIgnoresCase(s, k);
    var n := Span(s, k);
    assert Lowered(s)[..n] == Lowered(s[..n]) && Lowered(s)[n..] == Lowered(s[n..]);
  }

  lemma DigitsHaveNoCase(s: string)
    requires All(s, Digit)
    ensures Lowered(s) == s
  {
    forall i | 0 <= i < |s| ensures LowerCase(s[i]) == s[i] {
      CaseKeepsClasses(s[i]);
    }
  }

  lemma NumberIgnoresCase(s: string)
    ensures var (before, digits, after, rest) := ScanNumber(s);
            ScanNumber(Lowered(s)) == (Lowered(before), digits, Lowered(after), Lowered(rest))
  {
    CutIgnoresCase(s, Space);
    CutIgnoresCase(Cut(s, Space).1, Digit);
    DigitsHaveNoCase(Cut(Cut(s, Space).1, Digit).0);
    CutIgnoresCase(Cut(Cut(s, Space).1, Digit).1, Space);
  }

  lemma SlashIgnoresCase(rest: string)
    ensures (Lowered(rest) != "" && Lowered(rest)[0] == '/') <==> (rest != "" && rest[0] == '/')
    ensures rest != "" ==> Lowered(rest)[1..] == Lowered(rest[1..])
  {
    if rest != "" {
      CaseKeepsClasses(rest[0]);
    }
  }

  lemma CountIgnoresCase(s: string)
    ensures ScanCount(Lowered(s)).Some? <==> ScanCount(s).Some?
    ensures ScanCount(s).Some? ==>
      && ScanCount(Lowered(s)).value.0.num == ScanCount(s).value.0.num
      && ScanCount(Lowered(s)).value.1 == Lowered(ScanCount(s).value.1)
  {
    NumberIgnoresCase(s);
    SlashIgnoresCase(ScanNumber(s).3);
  }

  lemma UnitIgnoresCase(s: string)
    ensures ScanUnit(Lowered(s)).Some? <==> ScanUnit(s).Some?
    ensures ScanUnit(s).Some? ==> ScanUnit(Lowered(s)).value.0 == LowerCase(ScanUnit(s).value.0)
  {
    if s != "" {
      CaseKeepsClasses(s[0]);
      assert Lowered(s)[1..] == Lowered(s[1..]);
      CutIgnoresCase(s[1..], Letter);
      CutIgnoresCase(Cut(s[1..], Letter).1, Space);
    }
  }

  lemma PeriodIgnoresCase(s: string)
    ensures ScanPeriod(Lowered(s)).Some? <==> ScanPeriod(s).Some?
    ensures ScanPeriod(s).Some? ==>
      && ScanPeriod(Lowered(s)).value.mult == ScanPeriod(s).value.mult
      && ScanPeriod(Lowered(s)).value.unit == LowerCase(ScanPeriod(s).value.unit)
  {
    NumberIgnoresCase(s);
    UnitIgnoresCase(ScanNumber(s).3);
  }

  lemma ScanIs(s: string, c: Count, rest: string)
    requires ScanCount(s) == Some((c, rest))
    ensures Scan(s) == if ScanPeriod(rest).Some? then Some((c, ScanPeriod(rest).value)) else None
  {
  }

  lemma NoScan(s: string)
    requires ScanCount(s) == None
    ensures Scan(s) == None
  {
  }

  lemma ScanIgnoresCase(s: string)
    ensures Scan(Lowered(s)).Some? <==> Scan(s).Some?
    ensures Scan(s).Some? ==>
      && Scan(Lowered(s)).value.0.num == Scan(s).value.0.num
      && Scan(Lowered(s)).value.1.mult == Scan(s).value.1.mult
      && Scan(Lowered(s)).value.1.unit == LowerCase(Scan(s).value.1.unit)
  {
    CountIgnoresCase(s);
    if ScanCount(s).Some? {
      var (c, rest) := ScanCount(s).value;
      var (d, _) := ScanCount(Lowered(s)).value;
      PeriodIgnoresCase(rest);
      ScanIs(s, c, rest);
      ScanIs(Lowered(s), d, Lowered(rest));
    } else {
      NoScan(s);
      NoScan(Lowered(s));
    }
  }

  lemma RateIgnoresCase(c: Count, p: Period, d: Count, q: Period)
    requires ValidCount(c) && ValidPeriod(p) && ValidCount(d) && ValidPeriod(q)
    requires d.num == c.num && q.mult == p.mult && q.unit == LowerCase(p.unit)
    ensures RateOf(d, q) == RateOf(c, p)
  {
    CaseKeepsClasses(p.unit);
  }

  lemma ScannedIsParsed(s: string, c: Count, p: Period)
    requires Scan(s) == Some((c, p))
    ensures ValidCount(c) && ValidPeriod(p) && ParseRate(Some(s)) == RateOf(c, p)
  {
    ScanReads(s);
  }

  /** The case of a rate's letters does not matter. */
  lemma CaseIsIgnored(s: string)
    ensures ParseRate(Some(Lowered(s))) == ParseRate(Some(s))
  {
    ScanIgnoresCase(s);
    if Scan(s).Some? {
      var (c, p) := Scan(s).value;
      var (d, q) := Scan(Lowered(s)).value;
      ScannedIsParsed(s, c, p);
      ScannedIsParsed(Lowered(s), d, q);
      RateIgnoresCase(c, p, d, q);
    }
  }
}
