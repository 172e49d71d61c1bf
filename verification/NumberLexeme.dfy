/** Exact admission of JSON number lexemes by digit counting
    (crates/cymule-core/src/canonical.rs, validate_json_number_lexeme and the
    functions it calls). */
module NumberLexeme {
  import opened Decimal

  const MAX_DIGITS: Digits := "9007199254740991"
  const EXPONENT_CLAMP: nat := 1_000_000_000
  const USIZE_MAX: nat := 0xFFFF_FFFF_FFFF_FFFF
  const ISIZE_MAX: nat := 0x7FFF_FFFF_FFFF_FFFF

  /** What the double-precision parser, outside this model, makes of a lexeme. */
  datatype F64 = Unparsable | NotFinite | Integral | Fractional

  datatype Verdict = Admitted | UnsafeInteger | NotRepresentable | Infinite | Indistinguishable

  datatype Class = SafeInteger | TooLarge | Fraction

  // ----- the code's measurements of a lexeme

  function SatSub(a: nat, b: nat): nat { if a < b then 0 else a - b }
  function SatAdd(a: nat, b: nat): nat { if a + b > USIZE_MAX then USIZE_MAX else a + b }
  function ToUsize(x: int): nat { if 0 <= x <= USIZE_MAX then x else USIZE_MAX }
  function Least(a: int, b: int): int { if a < b then a else b }

  /** Position of the first character in `set`, or the length. */
  function FindAny(s: string, chars: set<char>): nat
    ensures FindAny(s, chars) <= |s|
  {
    if s == "" || s[0] in chars then 0 else 1 + FindAny(s[1..], chars)
  }

  function DigitsOf(s: string): Digits {
    if s == "" then ""
    else DigitsOf(s[..|s| - 1]) + if IsDigit(s[|s| - 1]) then [s[|s| - 1]] else ""
  }

  function LeadingZeros(ds: Digits): nat
    ensures LeadingZeros(ds) <= |ds|
  {
    if ds == "" || ds[0] != '0' then 0 else 1 + LeadingZeros(ds[1..])
  }

  function TrailingZeros(ds: Digits): nat
    ensures TrailingZeros(ds) <= |ds|
  {
    if ds == "" || ds[|ds| - 1] != '0' then 0 else 1 + TrailingZeros(ds[..|ds| - 1])
  }

  function Unsigned(lexeme: string): string {
    if lexeme != "" && lexeme[0] == '-' then lexeme[1..] else lexeme
  }

  function Mantissa(lexeme: string): string {
    Unsigned(lexeme)[..FindAny(Unsigned(lexeme), {'e', 'E'})]
  }

  /** The digits folded into a magnitude that stops growing at the clamp. */
  function FoldMagnitude(ds: string): int {
    if ds == "" then 0
    else
      var c := ds[|ds| - 1];
      Least(FoldMagnitude(ds[..|ds| - 1]) * 10 + SatSub(c as nat, '0' as nat), EXPONENT_CLAMP)
  }

  function ParseExponent(text: string): int {
    var negative := text != "" && text[0] == '-';
    var digits := if negative then text[1..] else text;
    var digits' := if digits != "" && digits[0] == '+' then digits[1..] else digits;
    if negative then -FoldMagnitude(digits') else FoldMagnitude(digits')
  }

  function ExponentOf(lexeme: string): int {
    var unsigned := Unsigned(lexeme);
    var start := FindAny(unsigned, {'e', 'E'});
    if start == |unsigned| then 0 else ParseExponent(unsigned[start + 1..])
  }

  function FractionLength(mantissa: string): nat {
    var dot := FindAny(mantissa, {'.'});
    if dot == |mantissa| then 0 else SatSub(|mantissa|, dot + 1)
  }

  function Scale(lexeme: string): int {
    ExponentOf(lexeme) - FractionLength(Mantissa(lexeme))
  }

  function Removed(scale: int): nat { if scale < 0 then ToUsize(-scale) else 0 }
  function Appended(scale: int): int { if scale < 0 then 0 else scale }

  predicate IntegerByDigits(ds: Digits, scale: int) {
    LeadingZeros(ds) == |ds| || scale >= 0 || TrailingZeros(ds) >= Removed(scale)
  }

  /** The digits left once leading and removed trailing zeros are cut off. */
  function Kept(ds: Digits, leading: nat, removed: nat): Digits {
    if leading + removed <= |ds| then ds[leading..|ds| - removed] else ""
  }

  predicate SafeByDigits(ds: Digits, leading: nat, removed: nat, appended: int) {
    var kept := Kept(ds, leading, removed);
    var length := |kept| + ToUsize(appended);
    if length != 16 then length < 16 else AtMost(kept + Zeros(16 - |kept|), MAX_DIGITS)
  }

  function ClassByDigits(ds: Digits, scale: int): Class {
    if !IntegerByDigits(ds, scale) then Fraction
    else if LeadingZeros(ds) == |ds| || SafeByDigits(ds, LeadingZeros(ds), Removed(scale), Appended(scale)) then SafeInteger
    else TooLarge
  }

  /** What the code makes of a lexeme. */
  function CodeClass(lexeme: string): Class {
    ClassByDigits(DigitsOf(Mantissa(lexeme)), Scale(lexeme))
  }

  function VerdictOf(found: Class, f64: F64): Verdict {
    match found
    case SafeInteger => Admitted
    case TooLarge => UnsafeInteger
    case Fraction =>
      match f64
      case Unparsable => NotRepresentable
      case NotFinite => Infinite
      case Integral => Indistinguishable
      case Fractional => Admitted
  }

  // ----- the code

  lemma {:induction false} DigitsOfSplits(s: string, t: string)
    ensures DigitsOf(s + t) == DigitsOf(s) + DigitsOf(t)
    decreases |t|
  {
    if t == "" {
      assert s + t == s;
    } else {
      assert (s + t)[..|s + t| - 1] == s + t[..|t| - 1];
      DigitsOfSplits(s, t[..|t| - 1]);
    }
  }

  lemma {:induction false} DigitsOfBound(s: string)
    ensures |DigitsOf(s)| <= |s|
  {
    if s != "" { DigitsOfBound(s[..|s| - 1]); }
  }

  /** Compares without a big integer: by length, and at sixteen digits by filling a
      buffer with the digits kept and comparing bytes. The write never leaves the
      buffer. */
  method DecimalIntegerIsSafe(mantissa: string, leadingZeros: nat, removedTrailing: nat, appendedZeros: int)
    returns (safe: bool)
    requires |mantissa| <= ISIZE_MAX
    ensures safe <==> SafeByDigits(DigitsOf(mantissa), leadingZeros, removedTrailing, appendedZeros)
  {
    ghost var digits := DigitsOf(mantissa);
    ghost var kept := Kept(digits, leadingZeros, removedTrailing);
    DigitsOfBound(mantissa);
    var coefficientDigits := CountDigits(mantissa);
    var retained := SatSub(SatSub(coefficientDigits, leadingZeros), removedTrailing);
    assert retained == |kept|;
    var normalizedLength := SatAdd(retained, ToUsize(appendedZeros));
    if normalizedLength != 16 {
      return normalizedLength < 16;
    }
    var normalized := new char[16](_ => '0');
    var outputPosition, sourcePosition := 0, 0;
    var retainedEnd := SatSub(coefficientDigits, removedTrailing);
    for i := 0 to |mantissa|
      invariant sourcePosition == |DigitsOf(mantissa[..i])| <= coefficientDigits
      invariant outputPosition == Least(|kept|, SatSub(sourcePosition, leadingZeros))
      invariant forall k :: 0 <= k < outputPosition ==> normalized[k] == kept[k]
      invariant forall k :: outputPosition <= k < 16 ==> normalized[k] == '0'
    {
      DigitsUpTo(mantissa, i);
      var digit := mantissa[i];
      if IsDigit(digit) {
        if leadingZeros <= sourcePosition < retainedEnd {
          assert kept[outputPosition] == digits[sourcePosition];
          normalized[outputPosition] := digit;
          outputPosition := outputPosition + 1;
        }
        sourcePosition := sourcePosition + 1;
      }
    }
    assert mantissa[..|mantissa|] == mantissa;
    assert normalized[..] == kept + Zeros(16 - |kept|);
    safe := AtMost(normalized[..], MAX_DIGITS);
  }

  lemma DigitsUpTo(s: string, i: nat)
    requires i < |s|
    ensures var n := |DigitsOf(s[..i])|;
      && n <= |DigitsOf(s)|
      && |DigitsOf(s[..i + 1])| == n + (if IsDigit(s[i]) then 1 else 0) <= |DigitsOf(s)|
      && (IsDigit(s[i]) ==> DigitsOf(s)[n] == s[i])
  {
    assert s[..i + 1][..i] == s[..i];
    assert s == s[..i + 1] + s[i + 1..];
    DigitsOfSplits(s[..i + 1], s[i + 1..]);
  }

  method CountDigits(s: string) returns (n: nat)
    ensures n == |DigitsOf(s)|
  {
    n := 0;
    for i := 0 to |s|
      invariant n == |DigitsOf(s[..i])|
    {
      assert s[..i + 1][..i] == s[..i];
      if IsDigit(s[i]) { n := n + 1; }
    }
    assert s[..|s|] == s;
  }

  /** The decision on one lexeme. */
  method ValidateNumberLexeme(lexeme: string, f64: string -> F64) returns (verdict: Verdict)
    requires |lexeme| <= ISIZE_MAX
    ensures verdict == VerdictOf(CodeClass(lexeme), f64(lexeme))
  {
    var mantissa := Mantissa(lexeme);
    var digits := DigitsOf(mantissa);
    var scale := Scale(lexeme);
    var isZero := LeadingZeros(digits) == |digits|;
    var removed := Removed(scale);
    var isInteger := isZero || scale >= 0 || TrailingZeros(digits) >= removed;
    if isInteger {
      if !isZero {
        var safe := DecimalIntegerIsSafe(mantissa, LeadingZeros(digits), removed, Appended(scale));
        if !safe { return UnsafeInteger; }
      }
      return Admitted;
    }
    match f64(lexeme)
    case Unparsable => verdict := NotRepresentable;
    case NotFinite => verdict := Infinite;
    case Integral => verdict := Indistinguishable;
    case Fractional => verdict := Admitted;
  }
}
