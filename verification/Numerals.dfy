/** Decimal numerals: printing numbers and telling numerals apart. */
module Numerals {
  import opened Decimal

  /** `0`, or digits that do not start with `0`. */
  predicate IsNumeral(s: string) {
    IsDigits(s) && s != "" && (s == "0" || s[0] != '0')
  }

  function DigitRun(s: string): (n: nat)
    ensures n <= |s| && IsDigits(s[..n])
    ensures n < |s| ==> !IsDigit(s[n])
  {
    if s != "" && IsDigit(s[0]) then
      var n := DigitRun(s[1..]);
      assert s[..n + 1] == [s[0]] + s[1..][..n];
      n + 1
    else 0
  }

  predicate LeadsNonzero(s: string) { s != "" ==> s[0] != '0' }

  lemma {:induction false} NonzeroValue(s: Digits)
    requires LeadsNonzero(s) && s != ""
    ensures Value(s) > 0
  {
    if |s| > 1 {
      NonzeroValue(s[..|s| - 1]);
    } else {
      assert s[..0] == "";
    }
  }

  lemma {:induction false} ValueTellsApart(a: Digits, b: Digits)
    requires LeadsNonzero(a) && LeadsNonzero(b) && Value(a) == Value(b)
    ensures a == b
    decreases |a|
  {
    if a == "" || b == "" {
      if a != "" { NonzeroValue(a); }
      if b != "" { NonzeroValue(b); }
    } else {
      var x, y := a[|a| - 1], b[|b| - 1];
      assert Value(a) == 10 * Value(a[..|a| - 1]) + DigitValue(x);
      assert Value(b) == 10 * Value(b[..|b| - 1]) + DigitValue(y);
      assert DigitValue(x) == DigitValue(y) && Value(a[..|a| - 1]) == Value(b[..|b| - 1]);
      ValueTellsApart(a[..|a| - 1], b[..|b| - 1]);
      assert a == a[..|a| - 1] + [x] && b == b[..|b| - 1] + [y];
    }
  }

  lemma NumeralTellsApart(a: string, b: string)
    requires IsNumeral(a) && IsNumeral(b) && Value(a) == Value(b)
    ensures a == b
  {
    assert Value("0") == 0 by { assert "0"[..0] == ""; }
    if a == "0" {
      if b != "0" { NonzeroValue(b); }
    } else if b == "0" {
      NonzeroValue(a);
    } else {
      ValueTellsApart(a, b);
    }
  }

  lemma {:induction false} RunStops(a: string, rest: string)
    requires IsDigits(a) && (rest == "" || !IsDigit(rest[0]))
    ensures DigitRun(a + rest) == |a|
  {
    if a != "" {
      assert (a + rest)[1..] == a[1..] + rest;
      RunStops(a[1..], rest);
    }
  }

  /** The numeral of a number. */
  function Print(n: nat): (s: string)
    ensures IsNumeral(s) && Value(s) == n
  {
    if n < 10 then
      assert [DigitChar(n)][..0] == "";
      [DigitChar(n)]
    else
      var front := Print(n / 10);
      var s := front + [DigitChar(n % 10)];
      assert s[..|s| - 1] == front && s[0] == front[0] && "0"[..0] == "" && Value("0") == 0;
      s
  }

  function DigitChar(d: nat): (c: char)
    requires d < 10
    ensures IsDigit(c) && DigitValue(c) == d
    ensures c == '0' <==> d == 0
  {
    "0123456789"[d]
  }
}
