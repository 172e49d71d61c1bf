/** The UTF-8 form of a text (RFC 3629). */
module Utf8 {
  /** The bytes of a character. */
  function CharBytes(c: char): seq<int> {
    var n := c as int;
    if n < 0x80 then [n]
    else if n < 0x800 then [0xC0 + n / 0x40, 0x80 + n % 0x40]
    else if n < 0x10000 then [0xE0 + n / 0x1000, 0x80 + n / 0x40 % 0x40, 0x80 + n % 0x40]
    else [0xF0 + n / 0x40000, 0x80 + n / 0x1000 % 0x40, 0x80 + n / 0x40 % 0x40, 0x80 + n % 0x40]
  }

  function TextBytes(s: string): seq<int> {
    if s == "" then [] else CharBytes(s[0]) + TextBytes(s[1..])
  }

  /** How many bytes the text has. */
  function Utf8Length(s: string): nat {
    if s == "" then 0
    else
      var c := s[|s| - 1] as int;
      Utf8Length(s[..|s| - 1]) + if c < 0x80 then 1 else if c < 0x800 then 2 else if c < 0x10000 then 3 else 4
  }

  /** The code points bytes stand for: a lead byte says how many six-bit groups follow. */
  function CodePointsOf(bs: seq<int>): seq<int> {
    if bs == [] then []
    else if bs[0] < 0x80 then [bs[0]] + CodePointsOf(bs[1..])
    else if bs[0] < 0xE0 && |bs| >= 2 then [(bs[0] - 0xC0) * 0x40 + (bs[1] - 0x80)] + CodePointsOf(bs[2..])
    else if bs[0] < 0xF0 && |bs| >= 3 then
      [(bs[0] - 0xE0) * 0x1000 + (bs[1] - 0x80) * 0x40 + (bs[2] - 0x80)] + CodePointsOf(bs[3..])
    else if |bs| >= 4 then
      [(bs[0] - 0xF0) * 0x40000 + (bs[1] - 0x80) * 0x1000 + (bs[2] - 0x80) * 0x40 + (bs[3] - 0x80)] + CodePointsOf(bs[4..])
    else []
  }

  lemma CharDecodes(c: char, rest: seq<int>)
    ensures CodePointsOf(CharBytes(c) + rest) == [c as int] + CodePointsOf(rest)
    ensures forall i :: 0 <= i < |CharBytes(c)| ==> 0 <= CharBytes(c)[i] < 0x100
  {
    var n, bs := c as int, CharBytes(c) + rest;
    assert bs[|CharBytes(c)|..] == rest;
    assert forall i :: 0 <= i < |CharBytes(c)| ==> bs[i] == CharBytes(c)[i];
    Groups(n);
  }

  lemma Groups(n: nat)
    ensures n == n / 0x40 * 0x40 + n % 0x40
    ensures n / 0x40 == n / 0x1000 * 0x40 + n / 0x40 % 0x40
    ensures n / 0x1000 == n / 0x40000 * 0x40 + n / 0x1000 % 0x40
    ensures n < 0x800 ==> n / 0x40 < 0x20
    ensures n < 0x10000 ==> n / 0x1000 < 0x10
    ensures n < 0x110000 ==> n / 0x40000 < 8
  {
  }

  /** The bytes are bytes, and they decode to the characters. */
  lemma {:induction false} TextDecodes(s: string)
    ensures CodePointsOf(TextBytes(s)) == seq(|s|, i requires 0 <= i < |s| => s[i] as int)
    ensures forall i :: 0 <= i < |TextBytes(s)| ==> 0 <= TextBytes(s)[i] < 0x100
  {
    hide CharBytes;
    if s != "" {
      CharDecodes(s[0], TextBytes(s[1..]));
      TextDecodes(s[1..]);
      hide CodePointsOf;
      assert seq(|s|, i requires 0 <= i < |s| => s[i] as int)
        == [s[0] as int] + seq(|s| - 1, i requires 0 <= i < |s| - 1 => s[1..][i] as int);
    }
  }

  lemma {:induction false} BytesAppend(s: string, t: string)
    ensures TextBytes(s + t) == TextBytes(s) + TextBytes(t)
  {
    hide CharBytes;
    if s == "" {
      assert s + t == t;
    } else {
      assert (s + t)[1..] == s[1..] + t;
      BytesAppend(s[1..], t);
    }
  }

  /** The length is the number of the bytes. */
  lemma {:induction false} LengthCounts(s: string)
    ensures Utf8Length(s) == |TextBytes(s)|
  {
    if s != "" {
      var front, c := s[..|s| - 1], s[|s| - 1];
      assert s == front + [c];
      LengthCounts(front);
      BytesAppend(front, [c]);
      assert TextBytes([c]) == CharBytes(c) + [];
    }
  }

  lemma LengthAppends(s: string, t: string)
    ensures Utf8Length(s + t) == Utf8Length(s) + Utf8Length(t)
  {
    LengthCounts(s);
    LengthCounts(t);
    LengthCounts(s + t);
    BytesAppend(s, t);
  }

  lemma {:induction false} AsciiLength(s: string)
    requires forall c :: c in s ==> c as int < 0x80
    ensures Utf8Length(s) == |s|
  {
    if s != "" {
      var front := s[..|s| - 1];
      assert s[|s| - 1] in s && forall c :: c in front ==> c in s;
      AsciiLength(front);
    }
  }
}
