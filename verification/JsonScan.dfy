/** The scanner that finds number lexemes in JSON text without parsing it
    (crates/cymule-core/src/canonical.rs, validate_json_number_lexemes). Text is a
    sequence of bytes written as characters. */
module JsonScan {
  import opened Decimal
  import opened NumberLexeme
  import opened Numerals

  // ----- what one pass over the text meets

  /** Bytes from just after an opening quote up to and including its closing quote;
      an escape skips two, and may step past the end. */
  function StringEnd(s: string): nat
    ensures StringEnd(s) <= |s| + 1
  {
    if s == "" then 0
    else if s[0] == '\\' then if |s| == 1 then 2 else 2 + StringEnd(s[2..])
    else if s[0] == '"' then 1
    else 1 + StringEnd(s[1..])
  }

  function IntegerEnd(s: string): nat
    ensures IntegerEnd(s) <= |s|
  {
    if s != "" && s[0] == '0' then 1 else DigitRun(s)
  }

  function FractionEnd(s: string): nat
    ensures FractionEnd(s) <= |s|
  {
    if s != "" && s[0] == '.' then 1 + DigitRun(s[1..]) else 0
  }

  function ExponentEnd(s: string): nat
    ensures ExponentEnd(s) <= |s|
  {
    if s == "" || s[0] !in {'e', 'E'} then 0
    else if |s| > 1 && s[1] in {'+', '-'} then 2 + DigitRun(s[2..])
    else 1 + DigitRun(s[1..])
  }

  /** Length of the lexeme that starts with a digit. */
  function UnsignedEnd(s: string): nat
    ensures UnsignedEnd(s) <= |s|
  {
    var i := IntegerEnd(s);
    var f := i + FractionEnd(s[i..]);
    f + ExponentEnd(s[f..])
  }

  /** Length of the number lexeme the text starts with, or zero. */
  function NumberEnd(s: string): nat
    ensures NumberEnd(s) <= |s|
  {
    if s == "" then 0
    else if IsDigit(s[0]) then UnsignedEnd(s)
    else if s[0] == '-' && |s| > 1 && IsDigit(s[1]) then 1 + UnsignedEnd(s[1..])
    else 0
  }

  /** The number lexemes of a text, in order. */
  function Lexemes(s: string): seq<string>
    decreases |s|
  {
    if s == "" then []
    else if s[0] == '"' then
      var end := 1 + StringEnd(s[1..]);
      if end >= |s| then [] else Lexemes(s[end..])
    else if NumberEnd(s) == 0 then Lexemes(s[1..])
    else [s[..NumberEnd(s)]] + Lexemes(s[NumberEnd(s)..])
  }

  /** The first verdict against a lexeme, if any. */
  function FirstRefusal(lexemes: seq<string>, f64: string -> F64): Verdict {
    if lexemes == [] then Admitted
    else
      var verdict := VerdictOf(CodeClass(lexemes[0]), f64(lexemes[0]));
      if verdict != Admitted then verdict else FirstRefusal(lexemes[1..], f64)
  }

  // ----- the scanner

  /** Whatever is left from `index` on; an escape may step one past the end. */
  function From(bytes: string, index: nat): string {
    if index <= |bytes| then bytes[index..] else ""
  }

  method SkipDigits(bytes: string, start: nat) returns (index: nat)
    requires start <= |bytes|
    ensures index == start + DigitRun(bytes[start..]) <= |bytes|
  {
    index := start;
    while index < |bytes| && IsDigit(bytes[index])
      invariant start <= index <= |bytes|
      invariant index + DigitRun(bytes[index..]) == start + DigitRun(bytes[start..])
    {
      assert bytes[index..][1..] == bytes[index + 1..];
      index := index + 1;
    }
  }

  lemma StringEndAt(bytes: string, i: nat)
    requires i < |bytes|
    ensures StringEnd(bytes[i..]) ==
      if bytes[i] == '\\' then 2 + StringEnd(From(bytes, i + 2))
      else if bytes[i] == '"' then 1
      else 1 + StringEnd(From(bytes, i + 1))
  {
    assert bytes[i..][1..] == bytes[i + 1..];
    if i + 2 <= |bytes| { SliceOfSlice(bytes, i, 2); }
  }

  lemma NothingToSkip()
    ensures StringEnd("") == 0
  {
  }

  method SkipString(bytes: string, start: nat) returns (index: nat)
    requires start <= |bytes|
    ensures index == start + StringEnd(bytes[start..])
  {
    hide StringEnd;
    NothingToSkip();
    index := start;
    while index < |bytes|
      invariant start <= index <= |bytes| + 1
      invariant index + StringEnd(From(bytes, index)) == start + StringEnd(bytes[start..])
      decreases |bytes| + 1 - index
    {
      StringEndAt(bytes, index);
      if bytes[index] == '\\' {
        index := index + 2;
      } else if bytes[index] == '"' {
        index := index + 1;
        return;
      } else {
        index := index + 1;
      }
    }
  }

  method SkipInteger(bytes: string, start: nat) returns (index: nat)
    requires start < |bytes|
    ensures index == start + IntegerEnd(bytes[start..]) <= |bytes|
  {
    if bytes[start] == '0' {
      index := start + 1;
    } else {
      index := SkipDigits(bytes, start);
    }
  }

  method SkipFraction(bytes: string, start: nat) returns (index: nat)
    requires start <= |bytes|
    ensures index == start + FractionEnd(bytes[start..]) <= |bytes|
  {
    index := start;
    if index < |bytes| && bytes[index] == '.' {
      assert bytes[index..][1..] == bytes[index + 1..];
      index := SkipDigits(bytes, index + 1);
    }
  }

  method SkipExponent(bytes: string, start: nat) returns (index: nat)
    requires start <= |bytes|
    ensures index == start + ExponentEnd(bytes[start..]) <= |bytes|
  {
    index := start;
    if index < |bytes| && bytes[index] in {'e', 'E'} {
      assert bytes[start..][1..] == bytes[start + 1..];
      index := index + 1;
      if index < |bytes| && bytes[index] in {'+', '-'} {
        assert bytes[start..][2..] == bytes[start + 2..];
        index := index + 1;
      }
      index := SkipDigits(bytes, index);
    }
  }

  /** End of the lexeme whose first digit stands at `start`. */
  method SkipUnsigned(bytes: string, start: nat) returns (index: nat)
    requires start < |bytes|
    ensures index == start + UnsignedEnd(bytes[start..]) <= |bytes|
  {
    hide IntegerEnd;
    hide FractionEnd;
    hide ExponentEnd;
    index := SkipInteger(bytes, start);
    assert bytes[start..][index - start..] == bytes[index..];
    index := SkipFraction(bytes, index);
    assert bytes[start..][index - start..] == bytes[index..];
    index := SkipExponent(bytes, index);
  }

  lemma QuoteUnfolds(s: string)
    requires s != "" && s[0] == '"'
    ensures var end := 1 + StringEnd(s[1..]); Lexemes(s) == if end >= |s| then [] else Lexemes(s[end..])
  {
  }

  lemma StringStep(bytes: string, i: nat)
    requires i < |bytes| && bytes[i] == '"'
    ensures Lexemes(From(bytes, i)) == Lexemes(From(bytes, i + 1 + StringEnd(bytes[i + 1..])))
  {
    hide StringEnd;
    hide Lexemes;
    var s, tail := bytes[i..], bytes[i + 1..];
    assert s[1..] == tail;
    QuoteUnfolds(s);
    NothingToScan();
    var end := 1 + StringEnd(tail);
    if end < |s| {
      SliceOfSlice(bytes, i, end);
    } else {
      assert From(bytes, i + end) == "";
    }
  }

  lemma SliceOfSlice(bytes: string, i: nat, j: nat)
    requires i + j <= |bytes|
    ensures bytes[i..][j..] == bytes[i + j..]
  {
  }

  lemma NothingToScan()
    ensures Lexemes("") == []
  {
  }

  lemma PlainStep(bytes: string, i: nat)
    requires i < |bytes| && bytes[i] != '"' && NumberEnd(bytes[i..]) == 0
    ensures Lexemes(From(bytes, i)) == Lexemes(From(bytes, i + 1))
  {
    assert bytes[i..][1..] == bytes[i + 1..];
  }

  lemma NumberStep(bytes: string, i: nat, end: nat, f64: string -> F64)
    requires i < |bytes| && NumberEnd(bytes[i..]) > 0 && end == i + NumberEnd(bytes[i..])
    ensures end <= |bytes|
    ensures var verdict := VerdictOf(CodeClass(bytes[i..end]), f64(bytes[i..end]));
      FirstRefusal(Lexemes(From(bytes, i)), f64) ==
        if verdict != Admitted then verdict else FirstRefusal(Lexemes(From(bytes, end)), f64)
  {
    hide CodeClass;
    hide VerdictOf;
    hide NumberEnd;
    NumberIsNoQuote(bytes[i..]);
    var s := bytes[i..];
    var lexeme, rest := s[..NumberEnd(s)], s[NumberEnd(s)..];
    assert lexeme == bytes[i..end] && rest == bytes[end..];
    assert ([lexeme] + Lexemes(rest))[1..] == Lexemes(rest);
  }

  lemma NumberIsNoQuote(s: string)
    requires NumberEnd(s) > 0
    ensures s != "" && s[0] != '"'
  {
  }

  lemma NumberEndAt(bytes: string, i: nat)
    requires i < |bytes|
    ensures var s := bytes[i..];
      && (bytes[i] == '-' && i + 1 < |bytes| && IsDigit(bytes[i + 1]) ==> NumberEnd(s) == 1 + UnsignedEnd(bytes[i + 1..]))
      && (IsDigit(bytes[i]) ==> NumberEnd(s) == UnsignedEnd(s) > 0)
      && (bytes[i] != '-' && !IsDigit(bytes[i]) ==> NumberEnd(s) == 0)
      && (bytes[i] == '-' && !(i + 1 < |bytes| && IsDigit(bytes[i + 1])) ==> NumberEnd(s) == 0)
  {
    assert bytes[i..][1..] == bytes[i + 1..];
  }

  /** Validates every number lexeme outside strings and stops at the first refused. */
  method ValidateNumberLexemes(bytes: string, f64: string -> F64) returns (verdict: Verdict)
    requires |bytes| <= ISIZE_MAX
    ensures verdict == FirstRefusal(Lexemes(bytes), f64)
  {
    hide UnsignedEnd;
    hide StringEnd;
    hide CodeClass;
    hide VerdictOf;
    hide NumberEnd;
    hide Lexemes;
    hide FirstRefusal;
    var index := 0;
    assert bytes[0..] == bytes;
    while index < |bytes|
      invariant index <= |bytes| + 1
      invariant FirstRefusal(Lexemes(bytes), f64) == FirstRefusal(Lexemes(From(bytes, index)), f64)
      decreases |bytes| + 1 - index
    {
      if bytes[index] == '"' {
        StringStep(bytes, index);
        index := SkipString(bytes, index + 1);
        continue;
      }
      NumberEndAt(bytes, index);
      if bytes[index] != '-' && !IsDigit(bytes[index]) {
        PlainStep(bytes, index);
        index := index + 1;
        continue;
      }
      var start := index;
      if bytes[index] == '-' {
        index := index + 1;
        if index == |bytes| || !IsDigit(bytes[index]) {
          PlainStep(bytes, start);
          continue;
        }
      }
      index := SkipUnsigned(bytes, index);
      NumberStep(bytes, start, index, f64);
      verdict := ValidateNumberLexeme(bytes[start..index], f64);
      if verdict != Admitted { return; }
    }
    NothingLeft(f64);
    assert From(bytes, index) == "";
    verdict := Admitted;
  }

  lemma NothingLeft(f64: string -> F64)
    ensures FirstRefusal(Lexemes(""), f64) == Admitted
  {
  }
}
