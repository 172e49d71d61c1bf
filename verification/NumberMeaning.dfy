/** What a JSON number denotes (section 6 of RFC 8259), and exactly when digit
    counting decides it as section 2.2 of RFC 7493 asks. */
module NumberMeaning {
  import opened Wrappers
  import opened Decimal
  import opened NumberLexeme

  // ----- the rational D * 10^scale

  ghost predicate DenotesInteger(d: nat, scale: int) {
    scale >= 0 || MultipleOfPower(d, -scale)
  }

  ghost predicate MultipleOfPower(d: nat, n: nat) {
    exists q: nat :: Scaled(q, n) == d
  }

  /** `v` followed by `n` zeros. */
  function Scaled(v: nat, n: nat): nat { v * Pow10(n) }

  /** Its absolute value is at most the greatest exact integer. */
  ghost predicate DenotesSafe(d: nat, scale: int) {
    if scale >= 0 then Scaled(d, scale) <= MAX_EXACT_INTEGER
    else d <= Scaled(MAX_EXACT_INTEGER, -scale)
  }

  ghost function TrueClass(d: nat, scale: int): Class {
    if !DenotesInteger(d, scale) then Fraction
    else if DenotesSafe(d, scale) then SafeInteger
    else TooLarge
  }

  // ----- zeros at either end

  lemma {:induction false} LeadingZerosMean(ds: Digits)
    ensures forall i :: 0 <= i < LeadingZeros(ds) ==> ds[i] == '0'
    ensures LeadingZeros(ds) < |ds| ==> ds[LeadingZeros(ds)] != '0'
  {
    if ds != "" && ds[0] == '0' {
      LeadingZerosMean(ds[1..]);
      assert forall i :: 0 < i < |ds| ==> ds[i] == ds[1..][i - 1];
    }
  }

  lemma {:induction false} TrailingZerosMean(ds: Digits)
    ensures forall i :: |ds| - TrailingZeros(ds) <= i < |ds| ==> ds[i] == '0'
    ensures TrailingZeros(ds) < |ds| ==> ds[|ds| - 1 - TrailingZeros(ds)] != '0'
  {
    if ds != "" && ds[|ds| - 1] == '0' {
      TrailingZerosMean(ds[..|ds| - 1]);
    }
  }

  /** A digit string that is not all zeros keeps a digit between its zeros. */
  lemma ZerosMeet(ds: Digits)
    requires LeadingZeros(ds) < |ds|
    ensures LeadingZeros(ds) + TrailingZeros(ds) < |ds|
  {
    LeadingZerosMean(ds);
    TrailingZerosMean(ds);
  }

  /** Leading zeros change nothing; each trailing zero is a factor of ten. */
  lemma TrimValue(ds: Digits, l: nat, z: nat)
    requires l + z <= |ds|
    requires forall i :: 0 <= i < l || |ds| - z <= i < |ds| ==> ds[i] == '0'
    ensures Value(ds) == Scaled(Value(ds[l..|ds| - z]), z)
  {
    hide Value;
    var core: Digits := ds[l..|ds| - z];
    ZerosAround(ds, l, z);
    hide Zeros;
    ValueSplits(Zeros(l), core + Zeros(z));
    ValueSplits(core, Zeros(z));
    ZerosValue(l);
    ZerosValue(z);
  }

  lemma ZerosAround(ds: Digits, l: nat, z: nat)
    requires l + z <= |ds|
    requires forall i :: 0 <= i < l || |ds| - z <= i < |ds| ==> ds[i] == '0'
    ensures ds == Zeros(l) + (ds[l..|ds| - z] + Zeros(z))
  {
  }

  lemma ScaleDivides(v: nat, z: nat, k: nat)
    requires k <= z
    ensures Scaled(Scaled(v, z - k), k) == Scaled(v, z)
  {
    Pow10Sum(z - k, k);
    MulAssociates(v, Pow10(z - k), Pow10(k));
  }

  lemma MulAssociates(x: nat, y: nat, z: nat)
    ensures (x * y) * z == x * (y * z)
  {
  }

  lemma ScaledCompares(x: nat, y: nat, n: nat)
    ensures Scaled(x, n) == Scaled(y, n) <==> x == y
    ensures Scaled(x, n) <= Scaled(y, n) <==> x <= y
    ensures Scaled(x, 0) == x
  {
    if x < y {
      NextMultiple(x, y, Pow10(n));
    } else if y < x {
      NextMultiple(y, x, Pow10(n));
    }
  }

  lemma DividesDown(v: nat, z: nat, k: nat, q: nat)
    requires z < k && Scaled(q, k) == Scaled(v, z)
    ensures v == 10 * Scaled(q, k - z - 1)
  {
    ScaleDivides(q, k, z);
    ScaledCompares(Scaled(q, k - z), v, z);
    TenTimes(q, Pow10(k - z - 1));
  }

  lemma LastDigit(ds: Digits)
    requires ds != ""
    ensures Value(ds) == 10 * Value(ds[..|ds| - 1]) + DigitValue(ds[|ds| - 1])
  {
  }

  /** A number not ending in zero times 10^z is a multiple of 10^k only for k up to z. */
  lemma NotDivisible(core: Digits, z: nat, k: nat, q: nat)
    requires core != "" && core[|core| - 1] != '0' && z < k
    ensures Scaled(q, k) != Scaled(Value(core), z)
  {
    hide Scaled;
    LastDigit(core);
    hide Value;
    if Scaled(q, k) == Scaled(Value(core), z) {
      DividesDown(Value(core), z, k, q);
    }
  }

  /** Being an integer is a matter of trailing zeros. */
  lemma IntegerExactly(ds: Digits, scale: int)
    requires LeadingZeros(ds) < |ds|
    ensures DenotesInteger(Value(ds), scale) <==> TrailingZeros(ds) + scale >= 0
  {
    hide Scaled;
    hide Value;
    hide TrailingZeros;
    hide LeadingZeros;
    var z := TrailingZeros(ds);
    TrailingZerosMean(ds);
    ZerosMeet(ds);
    if scale < 0 {
      var k: nat := -scale;
      var core: Digits := ds[0..|ds| - z];
      TrimValue(ds, 0, z);
      if z >= k {
        ScaleDivides(Value(core), z, k);
      } else {
        forall q: nat ensures Scaled(q, k) != Value(ds) {
          NotDivisible(core, z, k, q);
        }
      }
    }
  }

  // ----- size

  lemma PowFour()
    ensures Pow10(4) == 10_000
  {
  }

  /** Four more digits shift by ten thousand. */
  lemma FourMore(ds: Digits, four: Digits)
    requires |four| == 4
    ensures Value(ds + four) == 10_000 * Value(ds) + 1000 * DigitValue(four[0]) + 100 * DigitValue(four[1]) + 10 * DigitValue(four[2]) + DigitValue(four[3])
  {
    hide Value;
    hide Pow10;
    PowFour();
    FourDigits(four);
    ValueSplits(ds, four);
  }

  lemma MaxDigitsValue()
    ensures Value(MAX_DIGITS) == MAX_EXACT_INTEGER
  {
    hide Value;
    FourDigits("9007");
    FourMore("9007", "1992");
    FourMore("9007" + "1992", "5474");
    FourMore("9007" + "1992" + "5474", "0991");
    assert MAX_DIGITS == "9007" + "1992" + "5474" + "0991";
  }

  lemma FourDigits(ds: Digits)
    requires |ds| == 4
    ensures Value(ds) == 1000 * DigitValue(ds[0]) + 100 * DigitValue(ds[1]) + 10 * DigitValue(ds[2]) + DigitValue(ds[3])
  {
    assert Value(ds) == 10 * Value(ds[..3]) + DigitValue(ds[3]);
    assert ds[..3][..2] == ds[..2] && ds[..2][..1] == ds[..1] && ds[..1][..0] == "";
    assert Value(ds[..1]) == DigitValue(ds[0]);
    assert Value(ds[..2]) == 10 * Value(ds[..1]) + DigitValue(ds[1]);
    assert Value(ds[..3]) == 10 * Value(ds[..2]) + DigitValue(ds[2]);
  }

  lemma PowersAround()
    ensures Pow10(15) == 1_000_000_000_000_000
    ensures Pow10(16) == 10_000_000_000_000_000
  {
    assert Pow10(5) == 100_000;
    Pow10Sum(5, 5);
    Pow10Sum(10, 5);
    assert Pow10(16) == 10 * Pow10(15);
  }

  predicate SmallByLength(w: Digits) {
    |w| < 16 || (|w| == 16 && AtMost(w, MAX_DIGITS))
  }

  /** Without a leading zero, length and then byte order decide the size. */
  lemma SizeExactly(w: Digits)
    requires w != "" && w[0] != '0'
    ensures SmallByLength(w) <==> Value(w) <= MAX_EXACT_INTEGER
  {
    hide Value;
    hide Pow10;
    MaxDigitsValue();
    PowersAround();
    ValueMagnitude(w);
    if |w| < 16 {
      Pow10Grows(|w|, 15);
    } else if |w| == 16 {
      AtMostIsNumeric(w, MAX_DIGITS);
    } else {
      Pow10Grows(16, |w| - 1);
    }
  }

  /** The integer written out without leading zeros. */
  function Written(ds: Digits, scale: int): Digits
    requires LeadingZeros(ds) < |ds| && TrailingZeros(ds) + scale >= 0
  {
    ZerosMeet(ds);
    var l := LeadingZeros(ds);
    if scale >= 0 then ds[l..] + Zeros(scale) else ds[l..|ds| + scale]
  }

  lemma WrittenShape(ds: Digits, scale: int)
    requires LeadingZeros(ds) < |ds| && TrailingZeros(ds) + scale >= 0
    ensures |Written(ds, scale)| == |ds| - LeadingZeros(ds) + scale > 0
    ensures Written(ds, scale)[0] != '0'
  {
    hide TrailingZeros;
    hide LeadingZeros;
    LeadingZerosMean(ds);
    ZerosMeet(ds);
  }

  lemma AppendZeros(ds: Digits, n: nat)
    ensures Value(ds + Zeros(n)) == Scaled(Value(ds), n)
  {
    ValueSplits(ds, Zeros(n));
    ZerosValue(n);
  }

  lemma GrownValue(ds: Digits, n: nat)
    requires LeadingZeros(ds) < |ds|
    ensures Value(Written(ds, n)) == Scaled(Value(ds), n)
  {
    hide TrailingZeros;
    hide LeadingZeros;
    hide Value;
    hide Scaled;
    LeadingZerosMean(ds);
    var core: Digits := ds[LeadingZeros(ds)..];
    TrimValue(ds, LeadingZeros(ds), 0);
    assert ds[LeadingZeros(ds)..|ds| - 0] == core;
    ScaledCompares(Value(core), 0, 0);
    AppendZeros(core, n);
  }

  lemma ShrunkValue(ds: Digits, n: nat)
    requires LeadingZeros(ds) < |ds| && n <= TrailingZeros(ds)
    ensures Value(ds) == Scaled(Value(Written(ds, 0 - n)), n)
  {
    hide TrailingZeros;
    hide LeadingZeros;
    hide Value;
    hide Scaled;
    LeadingZerosMean(ds);
    TrailingZerosMean(ds);
    ZerosMeet(ds);
    TrimValue(ds, LeadingZeros(ds), n);
    if n == 0 {
      assert Written(ds, 0) == ds[LeadingZeros(ds)..|ds| - n];
    }
  }

  /** On every integer, written length and then byte order decide the size. */
  lemma SafeExactly(ds: Digits, scale: int)
    requires LeadingZeros(ds) < |ds| && TrailingZeros(ds) + scale >= 0
    ensures SmallByLength(Written(ds, scale)) <==> DenotesSafe(Value(ds), scale)
  {
    hide TrailingZeros;
    hide LeadingZeros;
    hide Value;
    hide Scaled;
    var w := Written(ds, scale);
    WrittenShape(ds, scale);
    SizeExactly(w);
    if scale >= 0 {
      GrownValue(ds, scale);
    } else {
      ShrunkValue(ds, -scale);
      ScaledCompares(Value(w), MAX_EXACT_INTEGER, -scale);
    }
  }

  lemma ZeroIsSafe(ds: Digits, scale: int)
    requires LeadingZeros(ds) == |ds|
    ensures Value(ds) == 0 && TrueClass(Value(ds), scale) == SafeInteger
  {
    LeadingZerosMean(ds);
    assert ds == Zeros(|ds|);
    ZerosValue(|ds|);
    if scale < 0 {
      assert Scaled(0, -scale) == 0;
    }
  }

  lemma KeptWhenGrown(ds: Digits, scale: nat)
    requires LeadingZeros(ds) < |ds|
    ensures var kept := Kept(ds, LeadingZeros(ds), 0); Written(ds, scale) == kept + Zeros(scale)
  {
    hide LeadingZeros;
    hide TrailingZeros;
    assert Kept(ds, LeadingZeros(ds), 0) == ds[LeadingZeros(ds)..];
  }

  lemma KeptWhenShrunk(ds: Digits, n: nat)
    requires LeadingZeros(ds) < |ds| && n <= TrailingZeros(ds)
    ensures Written(ds, 0 - n) == Kept(ds, LeadingZeros(ds), n)
  {
    hide LeadingZeros;
    hide TrailingZeros;
    ZerosMeet(ds);
    if n == 0 {
      assert Written(ds, 0) == Kept(ds, LeadingZeros(ds), 0);
    }
  }

  lemma CountedAsWritten(ds: Digits, scale: int)
    requires LeadingZeros(ds) < |ds| <= ISIZE_MAX && TrailingZeros(ds) + scale >= 0
    requires -scale <= USIZE_MAX && scale <= USIZE_MAX
    ensures SafeByDigits(ds, LeadingZeros(ds), Removed(scale), Appended(scale)) <==> SmallByLength(Written(ds, scale))
  {
    hide AtMost;
    hide LeadingZeros;
    hide TrailingZeros;
    hide Kept;
    hide Written;
    if scale >= 0 {
      KeptWhenGrown(ds, scale);
    } else {
      KeptWhenShrunk(ds, -scale);
      assert Kept(ds, LeadingZeros(ds), -scale) + Zeros(0) == Kept(ds, LeadingZeros(ds), -scale);
    }
  }

  /** Digit counting classifies the rational exactly, at every scale that fits the
      machine integers it is computed in. */
  lemma ClassExactly(ds: Digits, scale: int)
    requires |ds| <= ISIZE_MAX && -scale <= USIZE_MAX && scale <= USIZE_MAX
    ensures ClassByDigits(ds, scale) == TrueClass(Value(ds), scale)
  {
    hide Value;
    hide AtMost;
    hide Scaled;
    hide DenotesSafe;
    hide DenotesInteger;
    hide LeadingZeros;
    hide TrailingZeros;
    if LeadingZeros(ds) == |ds| {
      ZeroIsSafe(ds, scale);
    } else {
      IntegerExactly(ds, scale);
      ZerosMeet(ds);
      if TrailingZeros(ds) + scale >= 0 {
        SafeExactly(ds, scale);
        CountedAsWritten(ds, scale);
      }
    }
  }

  // ----- the class as a function of the scale

  /** The first sixteen significant digits, padded with zeros. */
  function Top(ds: Digits): Digits {
    var rest: Digits := ds[LeadingZeros(ds)..];
    if |rest| >= 16 then rest[..16] else rest + Zeros(16 - |rest|)
  }

  function IntegerFrom(ds: Digits): int { 0 - TrailingZeros(ds) }

  function SafeUpTo(ds: Digits): int {
    (if AtMost(Top(ds), MAX_DIGITS) then 16 else 15) - (|ds| - LeadingZeros(ds))
  }

  lemma WrittenIsTop(ds: Digits, scale: int)
    requires LeadingZeros(ds) < |ds| && TrailingZeros(ds) + scale >= 0
    ensures |Written(ds, scale)| == 16 ==> Written(ds, scale) == Top(ds)
  {
    hide LeadingZeros;
    hide TrailingZeros;
    ZerosMeet(ds);
  }

  /** As the scale grows a nonzero number turns from a fraction into a safe integer
      and then into one too large, at two scales its digits fix. */
  lemma ClassByScale(ds: Digits, scale: int)
    requires LeadingZeros(ds) < |ds|
    ensures TrueClass(Value(ds), scale) ==
      if scale < IntegerFrom(ds) then Fraction
      else if scale <= SafeUpTo(ds) then SafeInteger
      else TooLarge
  {
    hide Value;
    hide AtMost;
    hide Scaled;
    hide DenotesSafe;
    hide DenotesInteger;
    hide LeadingZeros;
    hide TrailingZeros;
    IntegerExactly(ds, scale);
    if TrailingZeros(ds) + scale >= 0 {
      SafeExactly(ds, scale);
      WrittenShape(ds, scale);
      WrittenIsTop(ds, scale);
    }
  }

  // ----- lexemes of the grammar

  datatype Sign = NoSign | Plus | Minus
  datatype Exponent = Exponent(upper: bool, sign: Sign, digits: Digits)
  datatype Num = Num(negative: bool, integer: Digits, fraction: Option<Digits>, exponent: Option<Exponent>)

  function FractionDigits(n: Num): Digits {
    if n.fraction.Some? then n.fraction.value else ""
  }

  function AllDigits(n: Num): Digits {
    n.integer + FractionDigits(n)
  }

  function ExponentValue(n: Num): int {
    if n.exponent.None? then 0
    else if n.exponent.value.sign.Minus? then 0 - Value(n.exponent.value.digits)
    else Value(n.exponent.value.digits)
  }

  function MantissaText(n: Num): string {
    n.integer + if n.fraction.Some? then "." + n.fraction.value else ""
  }

  function SignText(sign: Sign): string {
    match sign
    case NoSign => ""
    case Plus => "+"
    case Minus => "-"
  }

  function ExponentText(n: Num): string {
    if n.exponent.None? then ""
    else
      var e := n.exponent.value;
      (if e.upper then "E" else "e") + (SignText(e.sign) + e.digits)
  }

  function Print(n: Num): string {
    (if n.negative then "-" else "") + (MantissaText(n) + ExponentText(n))
  }

  /** The class of the number denoted, exponent unclamped. */
  ghost function ClassOf(n: Num): Class {
    TrueClass(Value(AllDigits(n)), ExponentValue(n) - |FractionDigits(n)|)
  }

  function Clamp(x: int): int {
    if x > EXPONENT_CLAMP then EXPONENT_CLAMP else if x < -(EXPONENT_CLAMP as int) then -(EXPONENT_CLAMP as int) else x
  }

  lemma {:induction false} FindAfter(a: string, b: string, chars: set<char>)
    requires forall i :: 0 <= i < |a| ==> a[i] !in chars
    requires b == "" || b[0] in chars
    ensures FindAny(a + b, chars) == |a|
  {
    if a == "" {
      assert a + b == b;
    } else {
      assert (a + b)[1..] == a[1..] + b;
      FindAfter(a[1..], b, chars);
    }
  }

  lemma {:induction false} DigitsOfDigits(ds: Digits)
    ensures DigitsOf(ds) == ds
  {
    if ds != "" { DigitsOfDigits(ds[..|ds| - 1]); }
  }

  lemma {:induction false} FoldIsClamped(ds: Digits)
    ensures FoldMagnitude(ds) == Least(Value(ds), EXPONENT_CLAMP)
  {
    if ds != "" { FoldIsClamped(ds[..|ds| - 1]); }
  }

  lemma DotIsNoDigit()
    ensures DigitsOf(".") == ""
  {
    assert "."[..0] == "";
  }

  lemma MantissaMeasures(n: Num)
    ensures DigitsOf(MantissaText(n)) == AllDigits(n)
    ensures FractionLength(MantissaText(n)) == |FractionDigits(n)|
  {
    hide DigitsOf;
    hide FindAny;
    DotIsNoDigit();
    DigitsOfDigits(n.integer);
    if n.fraction.Some? {
      DigitsOfDigits(n.fraction.value);
      assert ("." + n.fraction.value)[0] == '.';
      DigitsOfSplits(".", n.fraction.value);
      DigitsOfSplits(n.integer, "." + n.fraction.value);
      FindAfter(n.integer, "." + n.fraction.value, {'.'});
    } else {
      assert MantissaText(n) == n.integer;
      FindAfter(n.integer, "", {'.'});
    }
  }

  lemma ExponentMeasures(n: Num)
    requires n.exponent.Some?
    ensures ParseExponent(SignText(n.exponent.value.sign) + n.exponent.value.digits) == Clamp(ExponentValue(n))
  {
    var e := n.exponent.value;
    var text := SignText(e.sign) + e.digits;
    FoldIsClamped(e.digits);
    match e.sign
    case NoSign => assert text == e.digits;
    case Plus => assert text[1..] == e.digits;
    case Minus => assert text[1..] == e.digits;
  }

  /** The code reads off a lexeme its digits, its fraction length and its exponent
      clamped at a thousand million. */
  lemma LexemeMeasures(n: Num)
    ensures Mantissa(Print(n)) == MantissaText(n)
    ensures DigitsOf(Mantissa(Print(n))) == AllDigits(n)
    ensures Scale(Print(n)) == Clamp(ExponentValue(n)) - |FractionDigits(n)|
  {
    hide DigitsOf;
    hide ParseExponent;
    hide FractionLength;
    hide FindAny;
    hide Unsigned;
    hide Print;
    hide MantissaText;
    hide ExponentText;
    PrintIsUnsigned(n);
    MantissaStart(n);
    MantissaMeasures(n);
    FindAfter(MantissaText(n), ExponentText(n), {'e', 'E'});
    ExponentIsRead(n);
  }

  lemma PrintIsUnsigned(n: Num)
    ensures Unsigned(Print(n)) == MantissaText(n) + ExponentText(n)
  {
    hide MantissaText;
    hide ExponentText;
    MantissaStart(n);
    var unsigned := MantissaText(n) + ExponentText(n);
    assert ("-" + unsigned)[1..] == unsigned && "" + unsigned == unsigned;
  }

  lemma ExponentIsRead(n: Num)
    ensures ExponentText(n) == "" <==> n.exponent.None?
    ensures var unsigned := MantissaText(n) + ExponentText(n);
      if ExponentText(n) == "" then Clamp(ExponentValue(n)) == 0
      else ParseExponent(unsigned[|MantissaText(n)| + 1..]) == Clamp(ExponentValue(n))
  {
    hide ParseExponent;
    hide MantissaText;
    if n.exponent.Some? {
      var e := n.exponent.value;
      var unsigned := MantissaText(n) + ExponentText(n);
      assert unsigned[|MantissaText(n)| + 1..] == SignText(e.sign) + e.digits;
      ExponentMeasures(n);
    }
  }

  lemma MantissaStart(n: Num)
    ensures var unsigned := MantissaText(n) + ExponentText(n); unsigned == "" || unsigned[0] != '-'
    ensures forall i :: 0 <= i < |MantissaText(n)| ==> MantissaText(n)[i] != 'e' && MantissaText(n)[i] != 'E'
    ensures ExponentText(n) == "" || ExponentText(n)[0] in {'e', 'E'}
  {
  }

  lemma PrintBounds(n: Num)
    ensures |FractionDigits(n)| <= |AllDigits(n)| <= |Print(n)|
  {
  }

  /** The code's class is that of the number with its exponent clamped. */
  lemma CodeClassIsClamped(n: Num)
    requires |Print(n)| <= ISIZE_MAX
    ensures CodeClass(Print(n)) == TrueClass(Value(AllDigits(n)), Clamp(ExponentValue(n)) - |FractionDigits(n)|)
  {
    hide TrueClass;
    hide ClassByDigits;
    hide Mantissa;
    hide Scale;
    hide Print;
    hide AllDigits;
    hide FractionDigits;
    hide ExponentValue;
    hide Value;
    hide DigitsOf;
    LexemeMeasures(n);
    PrintBounds(n);
    ClassExactly(AllDigits(n), Clamp(ExponentValue(n)) - |FractionDigits(n)|);
  }

  /** A plain integer within the bound is classed as safe. */
  lemma PlainIntegerIsSafe(n: Num)
    requires n.fraction.None? && n.exponent.None? && Value(n.integer) <= MAX_EXACT_INTEGER && |Print(n)| <= ISIZE_MAX
    ensures CodeClass(Print(n)) == SafeInteger
  {
    hide CodeClass;
    hide Print;
    CodeClassIsClamped(n);
    assert AllDigits(n) == n.integer;
    hide Value;
    assert Scaled(Value(n.integer), 0) == Value(n.integer);
  }

  /** Clamping moves the scale across neither of the two scales at which a nonzero
      number changes class. */
  predicate ClampIsHarmless(n: Num) {
    var ds, f := AllDigits(n), |FractionDigits(n)|;
    var clamped, true' := Clamp(ExponentValue(n)) - f, ExponentValue(n) - f;
    LeadingZeros(ds) == |ds| || clamped == true' ||
    if clamped < IntegerFrom(ds) then true' < IntegerFrom(ds)
    else true' >= IntegerFrom(ds) && (clamped <= SafeUpTo(ds) <==> true' <= SafeUpTo(ds))
  }

  /** Every lexeme is classified exactly, save those whose exponent the clamp moves
      across a class boundary; on those it is always wrong. */
  lemma ClassifiedExactly(n: Num)
    requires |Print(n)| <= ISIZE_MAX
    ensures CodeClass(Print(n)) == ClassOf(n) <==> ClampIsHarmless(n)
  {
    hide CodeClass;
    hide TrueClass;
    hide Value;
    hide Print;
    hide FractionDigits;
    hide ExponentValue;
    hide SafeUpTo;
    hide IntegerFrom;
    hide AllDigits;
    hide LeadingZeros;
    var ds, f := AllDigits(n), |FractionDigits(n)|;
    CodeClassIsClamped(n);
    if LeadingZeros(ds) == |ds| {
      ZeroIsSafe(ds, Clamp(ExponentValue(n)) - f);
      ZeroIsSafe(ds, ExponentValue(n) - f);
    } else {
      ClassByScale(ds, Clamp(ExponentValue(n)) - f);
      ClassByScale(ds, ExponentValue(n) - f);
    }
  }

  /** The clamp is harmless on every lexeme with fewer than 10^9 - 16 digits. */
  lemma ShortLexemesAreExact(n: Num)
    requires |AllDigits(n)| < EXPONENT_CLAMP - 16
    ensures ClampIsHarmless(n)
  {
  }

  // ----- a lexeme the clamp misclassifies

  lemma {:induction false} LeadingZerosOf(n: nat)
    ensures LeadingZeros(Zeros(n) + "1") == n
  {
    if n > 0 {
      assert (Zeros(n) + "1")[1..] == Zeros(n - 1) + "1";
      LeadingZerosOf(n - 1);
    }
  }

  /** 0.00…01 times ten to the power that makes it one. */
  function TinyTimesHuge(): Num {
    Num(false, "0", Some(Zeros(EXPONENT_CLAMP) + "1"), Some(Exponent(false, NoSign, "1000000001")))
  }

  lemma HugeExponent()
    ensures Value("1000000001") == EXPONENT_CLAMP + 1
  {
    assert Value("10") == 10 by { assert "10"[..1] == "1" && "1"[..0] == ""; }
    hide Value;
    FourMore("10", "0000");
    FourMore("10" + "0000", "0001");
    assert "1000000001" == "10" + "0000" + "0001";
  }

  lemma OneByScale(m: nat)
    ensures TrueClass(Value(Zeros(m) + "1"), 0) == SafeInteger
    ensures TrueClass(Value(Zeros(m) + "1"), -1) == Fraction
  {
    hide TrueClass;
    hide Value;
    hide AtMost;
    LeadingZerosOf(m);
    ClassByScale(Zeros(m) + "1", 0);
    ClassByScale(Zeros(m) + "1", -1);
  }

  lemma TinyMeasures()
    ensures var n := TinyTimesHuge();
      && AllDigits(n) == Zeros(EXPONENT_CLAMP + 1) + "1"
      && |FractionDigits(n)| == EXPONENT_CLAMP + 1 == ExponentValue(n)
      && |Print(n)| <= ISIZE_MAX
  {
    HugeExponent();
    hide Value;
  }

  /** It denotes the integer one and is taken for a fraction. */
  lemma ClampCanMisclassify()
    ensures |Print(TinyTimesHuge())| <= ISIZE_MAX
    ensures ClassOf(TinyTimesHuge()) == SafeInteger
    ensures CodeClass(Print(TinyTimesHuge())) == Fraction
  {
    hide TrueClass;
    hide Value;
    hide Print;
    hide CodeClass;
    hide TinyTimesHuge;
    hide AllDigits;
    hide FractionDigits;
    hide ExponentValue;
    TinyMeasures();
    OneByScale(EXPONENT_CLAMP + 1);
    CodeClassIsClamped(TinyTimesHuge());
  }
}
