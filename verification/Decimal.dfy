/** Natural numbers as ASCII decimal strings, as Python's `str` and `int` write
    and read them. */
module Decimal {

  predicate IsDigit(c: char) {
    '0' <= c <= '9'
  }

  predicate AllDigits(s: string) {
    forall i :: 0 <= i < |s| ==> IsDigit(s[i])
  }

  function Print(n: nat): (s: string)
    ensures s != "" && AllDigits(s)
    ensures Value(s) == n
  {
    var c := '0' + (n % 10) as char;
    if n < 10 then [c]
    else
      assert (Print(n / 10) + [c])[..|Print(n / 10)|] == Print(n / 10);
      Print(n / 10) + [c]
  }

  function Value(s: string): nat
    requires AllDigits(s)
  {
    if s == "" then 0 else Value(s[..|s| - 1]) * 10 + (s[|s| - 1] - '0') as int
  }

  lemma PrintInjective(m: nat, n: nat)
    requires Print(m) == Print(n)
    ensures m == n
  {
    assert Value(Print(m)) == Value(Print(n));
  }

  function Pow10(k: nat): nat {
    if k == 0 then 1 else 10 * Pow10(k - 1)
  }

  /** A number has at most k digits exactly when it is below 10^k. */
  lemma {:induction false} PrintLength(n: nat, k: nat)
    requires 1 <= k
    ensures |Print(n)| <= k <==> n < Pow10(k)
  {
    if n >= 10 {
      if k > 1 {
        PrintLength(n / 10, k - 1);
      }
      assert |Print(n)| == |Print(n / 10)| + 1;
    } else {
      Pow10AtLeast10(k);
    }
  }

  lemma Pow10AtLeast10(k: nat)
    requires 1 <= k
    ensures 10 <= Pow10(k)
  {
  }

  /** Decimal texts are positional: what stands before others counts as many
      tens as they have digits, and one digit counts from '0' on. */
  lemma {:induction false} ValueIsPositional(s: string, t: string)
    requires AllDigits(s) && AllDigits(t)
    ensures AllDigits(s + t) && Value(s + t) == Value(s) * Pow10(|t|) + Value(t)
    ensures |t| == 1 ==> Value(t) == t[0] as int - '0' as int
  {
    if t == "" {
      assert s + t == s;
    } else {
      var k := |t| - 1;
      ValueIsPositional(s, t[..k]);
      assert (s + t)[..|s + t| - 1] == s + t[..k];
      Tenfold(Value(s), Pow10(k));
    }
  }

  lemma Tenfold(v: int, p: int)
    ensures v * p * 10 == v * (10 * p)
  {
  }
}
