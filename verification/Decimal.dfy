/** Decimal digit strings and the numbers they denote. */
module Decimal {
  type Digits = s: string | IsDigits(s)

  predicate IsDigit(c: char) { '0' <= c <= '9' }

  predicate IsDigits(s: string) { forall i :: 0 <= i < |s| ==> IsDigit(s[i]) }

  function DigitValue(c: char): int
    requires IsDigit(c)
  {
    c as int - '0' as int
  }

  /** The number a digit string denotes, most significant digit first. */
  function Value(ds: Digits): nat {
    if ds == "" then 0 else 10 * Value(ds[..|ds| - 1]) + DigitValue(ds[|ds| - 1])
  }

  function Pow10(n: nat): nat
    ensures Pow10(n) >= 1
  {
    if n == 0 then 1 else 10 * Pow10(n - 1)
  }

  function Zeros(n: nat): (ds: Digits)
    ensures |ds| == n && forall i :: 0 <= i < n ==> ds[i] == '0'
  {
    seq(n, _ => '0')
  }

  lemma {:induction false} Pow10Sum(a: nat, b: nat)
    ensures Pow10(a + b) == Pow10(a) * Pow10(b)
  {
    if a > 0 {
      Pow10Sum(a - 1, b);
      assert Pow10(a + b) == 10 * (Pow10(a - 1) * Pow10(b));
    }
  }

  lemma Pow10Grows(a: nat, b: nat)
    requires a <= b
    ensures Pow10(a) <= Pow10(b)
  {
    Pow10Sum(a, b - a);
    MulAtLeast(Pow10(a), Pow10(b - a));
  }

  lemma MulAtLeast(x: nat, y: nat)
    requires y >= 1
    ensures x <= x * y
  {
  }

  lemma TenTimes(x: nat, y: nat)
    ensures x * (10 * y) == 10 * (x * y)
  {
  }

  lemma {:induction false} ValueSplits(a: Digits, b: Digits)
    ensures IsDigits(a + b) && Value(a + b) == Value(a) * Pow10(|b|) + Value(b)
    decreases |b|
  {
    if b == "" {
      assert a + b == a;
    } else {
      var front := b[..|b| - 1];
      ValueSplits(a, front);
      assert (a + b)[..|a + b| - 1] == a + front;
      assert Value(a + b) == 10 * Value(a + front) + DigitValue(b[|b| - 1]);
      TenTimes(Value(a), Pow10(|front|));
    }
  }

  lemma {:induction false} ValueBound(ds: Digits)
    ensures Value(ds) < Pow10(|ds|)
  {
    if ds != "" {
      ValueBound(ds[..|ds| - 1]);
    }
  }

  lemma {:induction false} ZerosValue(n: nat)
    ensures Value(Zeros(n)) == 0
  {
    if n > 0 {
      assert Zeros(n)[..n - 1] == Zeros(n - 1);
      ZerosValue(n - 1);
    }
  }

  /** Without a leading zero the length fixes the order of magnitude. */
  lemma ValueMagnitude(ds: Digits)
    requires ds != "" && ds[0] != '0'
    ensures Pow10(|ds| - 1) <= Value(ds) < Pow10(|ds|)
  {
    ValueBound(ds);
    var head, tail: Digits := ds[..1], ds[1..];
    assert ds == head + tail;
    ValueSplits(head, tail);
    assert head[..0] == "" && Value(head) == DigitValue(ds[0]) >= 1;
    MulAtLeast(Pow10(|tail|), Value(head));
  }

  /** Lexicographic order on digit strings, as byte slices compare. */
  predicate AtMost(a: Digits, b: Digits)
    requires |a| == |b|
  {
    a == "" || a[0] < b[0] || (a[0] == b[0] && AtMost(a[1..], b[1..]))
  }

  lemma HeadTail(ds: Digits)
    requires ds != ""
    ensures Value(ds) == DigitValue(ds[0]) * Pow10(|ds| - 1) + Value(ds[1..])
  {
    var head: Digits := ds[..1];
    assert ds == head + ds[1..];
    ValueSplits(head, ds[1..]);
    assert head[..0] == "" && Value(head) == DigitValue(ds[0]);
  }

  /** On equal lengths the byte order is the numeric order. */
  lemma {:induction false} AtMostIsNumeric(a: Digits, b: Digits)
    requires |a| == |b|
    ensures AtMost(a, b) <==> Value(a) <= Value(b)
    decreases |a|
  {
    if a != "" {
      HeadTail(a);
      HeadTail(b);
      ValueBound(a[1..]);
      ValueBound(b[1..]);
      AtMostIsNumeric(a[1..], b[1..]);
      LeadingDecides(DigitValue(a[0]), DigitValue(b[0]), Pow10(|a| - 1), Value(a[1..]), Value(b[1..]));
    }
  }

  lemma NextMultiple(x: int, y: int, p: nat)
    requires x < y
    ensures x * p + p <= y * p
  {
    var d: nat := y - x;
    assert (x + d) * p == x * p + d * p;
    MulAtLeast(p, d);
  }

  lemma LeadingDecides(x: int, y: int, p: nat, u: nat, v: nat)
    requires u < p && v < p
    ensures x * p + u <= y * p + v <==> x < y || (x == y && u <= v)
  {
    if x < y {
      NextMultiple(x, y, p);
    } else if y < x {
      NextMultiple(y, x, p);
    }
  }
}
