/** Canonical values, their one number form, and sealed plans
    (crates/cymule-core/src/canonical.rs and ir.rs). Text is its tokens, in order. */
module SealedPlans {
  import opened Wrappers
  import opened Sorting
  import CanonicalJson
  import Decimal
  import NumberLexeme
  import NumberMeaning
  import Numerals

  const FIRST_UNSAFE_INTEGER: real := 9007199254740992.0

  datatype Double = Finite(r: real) | NegativeZero | NotFinite
  datatype Number = Integer(i: int) | Fraction(d: Double)

  datatype Value = Null | Bool(b: bool) | Num(n: Number) | Str(s: string) | Array(items: seq<Value>) | Object(members: map<string, Value>)

  /** A text, its members as they come; a number is its lexeme and what is parsed from it. */
  datatype Text = TNull | TBool(b: bool) | TNum(lexeme: string, n: Number) | TStr(s: string) | TArray(items: seq<Text>) | TObject(members: seq<TMember>)
  datatype TMember = TMember(key: string, value: Text)

  predicate IsIntegral(d: Double) {
    d.NegativeZero? || (d.Finite? && d.r == d.r.Floor as real)
  }

  function Magnitude(d: Double): real {
    if d.Finite? then (if d.r < 0.0 then -d.r else d.r) else 0.0
  }

  // ----- three number checks

  /** The serializer's probe. */
  predicate ProbeNumber(n: Number) {
    match n
    case Integer(i) => -(MAX_EXACT_INTEGER as int) <= i <= MAX_EXACT_INTEGER
    case Fraction(d) => !d.NotFinite? && !(IsIntegral(d) && Magnitude(d) >= FIRST_UNSAFE_INTEGER)
  }

  function IntegralNumber(d: Double): Number
    requires IsIntegral(d)
  {
    if d.NegativeZero? then Integer(0) else Integer(d.r.Floor)
  }

  /** The normalizer's rewriting of one number; None is a refusal. */
  function NormalizeNumber(n: Number): Option<Number> {
    match n
    case Integer(i) => if i > MAX_EXACT_INTEGER || i < -(MAX_EXACT_INTEGER as int) then None else Some(n)
    case Fraction(d) =>
      if d.NotFinite? then None
      else if IsIntegral(d) then (if Magnitude(d) >= FIRST_UNSAFE_INTEGER then None else Some(IntegralNumber(d)))
      else Some(n)
  }

  /** The decoder's visit of one number token. */
  function VisitNumber(n: Number): Option<Number> {
    if n.Integer? then
      if n.i < 0 then (if 0 - n.i > MAX_EXACT_INTEGER then None else Some(n))
      else (if n.i > MAX_EXACT_INTEGER then None else Some(n))
    else if n.d.NotFinite? then None
    else if IsIntegral(n.d) then
      if Magnitude(n.d) < FIRST_UNSAFE_INTEGER then Some(IntegralNumber(n.d)) else None
    else Some(n)
  }

  /** An exact integer, or a finite number that is not one. */
  predicate NormalNumber(n: Number) {
    match n
    case Integer(i) => -(MAX_EXACT_INTEGER as int) <= i <= MAX_EXACT_INTEGER
    case Fraction(d) => d.Finite? && !IsIntegral(d)
  }

  /** The three checks accept the same numbers, and rewrite them to the same normal form. */
  lemma NumberChecksAgree(n: Number)
    ensures ProbeNumber(n) <==> NormalizeNumber(n).Some?
    ensures VisitNumber(n) == NormalizeNumber(n)
    ensures NormalizeNumber(n).Some? ==> NormalNumber(NormalizeNumber(n).value)
    ensures NormalNumber(n) ==> NormalizeNumber(n) == Some(n)
  {
  }

  /** The real number a number stands for; None is one that is not finite. */
  ghost function RealOf(n: Number): Option<real> {
    match n
    case Integer(i) => Some(i as real)
    case Fraction(Finite(r)) => Some(r)
    case Fraction(NegativeZero) => Some(0.0)
    case Fraction(NotFinite) => None
  }

  /** However a number is rewritten, it stands for the same real number. */
  lemma RewritingKeepsValue(n: Number)
    ensures NormalizeNumber(n).Some? ==> RealOf(NormalizeNumber(n).value) == RealOf(n) != None
    ensures VisitNumber(n).Some? ==> RealOf(VisitNumber(n).value) == RealOf(n) != None
    ensures RealOf(PrintNumber(n)) == RealOf(n)
  {
  }

  /** The numbers accepted are the finite ones but those integers beyond the bound. */
  lemma AcceptedNumbers(n: Number)
    ensures NormalizeNumber(n).Some? <==>
      RealOf(n).Some? && (RealOf(n).value == RealOf(n).value.Floor as real ==>
        -(MAX_EXACT_INTEGER as real) <= RealOf(n).value <= MAX_EXACT_INTEGER as real)
  {
    match n
    case Integer(_) =>
    case Fraction(Finite(r)) => if r == r.Floor as real { IntegralBound(r.Floor); }
    case Fraction(_) =>
  }

  lemma IntegralBound(i: int)
    ensures -FIRST_UNSAFE_INTEGER < i as real < FIRST_UNSAFE_INTEGER <==> -(MAX_EXACT_INTEGER as int) <= i <= MAX_EXACT_INTEGER
  {
  }

  // ----- whole values

  /** The same value but for the way its numbers are written. */
  ghost predicate SameValue(v: Value, w: Value) {
    match v
    case Num(n) => w.Num? && RealOf(n) == RealOf(w.n) != None
    case Array(items) => w.Array? && |w.items| == |items| && forall i :: 0 <= i < |items| ==> SameValue(items[i], w.items[i])
    case Object(members) =>
      w.Object? && w.members.Keys == members.Keys && forall k :: k in members ==> SameValue(members[k], w.members[k])
    case _ => w == v
  }

  predicate Probe(v: Value) {
    match v
    case Num(n) => ProbeNumber(n)
    case Array(items) => forall i :: 0 <= i < |items| ==> Probe(items[i])
    case Object(members) => forall k :: k in members ==> Probe(members[k])
    case _ => true
  }

  /** The in-memory value: a number that is not finite has become null. */
  function ToValue(v: Value): Value {
    match v
    case Num(n) => if n == Fraction(NotFinite) then Null else v
    case Array(items) => Array(seq(|items|, i requires 0 <= i < |items| => ToValue(items[i])))
    case Object(members) => Object(map k | k in members :: ToValue(members[k]))
    case _ => v
  }

  predicate IsNormal(v: Value) {
    match v
    case Num(n) => NormalNumber(n)
    case Array(items) => forall i :: 0 <= i < |items| ==> IsNormal(items[i])
    case Object(members) => forall k :: k in members ==> IsNormal(members[k])
    case _ => true
  }

  /** Every number rewritten, or a refusal. */
  function Normalize(v: Value): Option<Value> {
    match v
    case Num(n) => if NormalizeNumber(n).None? then None else Some(Num(NormalizeNumber(n).value))
    case Array(items) =>
      var parts := seq(|items|, i requires 0 <= i < |items| => Normalize(items[i]));
      if None in parts then None else Some(Array(Present(parts)))
    case Object(members) =>
      if exists k :: k in members && Normalize(members[k]).None? then None
      else Some(Object(map k | k in members :: Normalize(members[k]).value))
    case _ => Some(v)
  }

  function Present<T>(parts: seq<Option<T>>): seq<T>
    requires forall i :: 0 <= i < |parts| ==> parts[i].Some?
  {
    seq(|parts|, i requires 0 <= i < |parts| => parts[i].value)
  }

  /** Normalizing changes the writing of numbers and nothing else, at any depth. */
  lemma {:induction false} NormalizeKeepsValue(v: Value)
    requires Normalize(v).Some?
    ensures SameValue(v, Normalize(v).value)
    decreases v
  {
    match v
    case Num(n) => RewritingKeepsValue(n);
    case Array(items) =>
      var parts := seq(|items|, i requires 0 <= i < |items| => Normalize(items[i]));
      forall i | 0 <= i < |items| ensures SameValue(items[i], Normalize(v).value.items[i]) {
        assert parts[i] in parts;
        NormalizeKeepsValue(items[i]);
      }
    case Object(members) =>
      forall k | k in members ensures SameValue(members[k], Normalize(v).value.members[k]) { NormalizeKeepsValue(members[k]); }
    case _ =>
  }

  /** Equal normal forms come of values that are the same. */
  lemma {:induction false} SameFormSameValue(v: Value, w: Value)
    requires Normalize(v).Some? && Normalize(v) == Normalize(w)
    ensures SameValue(v, w)
    decreases v
  {
    match v
    case Num(n) =>
      RewritingKeepsValue(n);
      RewritingKeepsValue(w.n);
    case Array(items) =>
      var parts := seq(|items|, i requires 0 <= i < |items| => Normalize(items[i]));
      var others := seq(|w.items|, i requires 0 <= i < |w.items| => Normalize(w.items[i]));
      assert |Present(parts)| == |Present(others)|;
      forall i | 0 <= i < |items| ensures SameValue(items[i], w.items[i]) {
        assert parts[i] in parts && others[i] in others;
        assert Present(parts)[i] == Present(others)[i];
        SameFormSameValue(items[i], w.items[i]);
      }
    case Object(members) =>
      var n := Normalize(v).value.members;
      assert n.Keys == members.Keys && n.Keys == w.members.Keys;
      forall k | k in members ensures SameValue(members[k], w.members[k]) {
        assert Some(n[k]) == Normalize(members[k]) == Normalize(w.members[k]);
        SameFormSameValue(members[k], w.members[k]);
      }
    case _ =>
  }

  /** Values that are the same have one normal form. */
  lemma {:induction false} SameValueSameForm(v: Value, w: Value)
    requires SameValue(v, w) && Probe(v)
    ensures Probe(w) && Normalize(w) == Normalize(v)
    decreases v
  {
    match v
    case Num(n) => SameNumberSameForm(n, w.n);
    case Array(items) =>
      forall i | 0 <= i < |items| ensures Probe(w.items[i]) && Normalize(w.items[i]) == Normalize(items[i]) {
        SameValueSameForm(items[i], w.items[i]);
      }
      assert seq(|items|, i requires 0 <= i < |items| => Normalize(items[i]))
        == seq(|w.items|, i requires 0 <= i < |w.items| => Normalize(w.items[i]));
    case Object(members) =>
      forall k | k in members ensures Probe(w.members[k]) && Normalize(w.members[k]) == Normalize(members[k]) {
        SameValueSameForm(members[k], w.members[k]);
      }
      ProbeMeetsNormalizer(v);
      ProbeMeetsNormalizer(w);
      assert Normalize(w).value.members == Normalize(v).value.members;
    case _ =>
  }

  lemma SameNumberSameForm(n: Number, m: Number)
    requires RealOf(n) == RealOf(m) != None && ProbeNumber(n)
    ensures ProbeNumber(m) && NormalizeNumber(m) == NormalizeNumber(n)
  {
    NumberChecksAgree(n);
    NumberChecksAgree(m);
    AcceptedNumbers(n);
    AcceptedNumbers(m);
  }

  /** The probe passes exactly what the normalizer accepts; without it a number that is
      not finite would pass as null. */
  lemma {:induction false} ProbeMeetsNormalizer(v: Value)
    ensures Probe(v) ==> ToValue(v) == v && Normalize(v).Some? && IsNormal(Normalize(v).value)
    ensures Normalize(v).Some? ==> Probe(v)
  {
    match v
    case Array(items) =>
      forall i | 0 <= i < |items|
        ensures Probe(items[i]) ==> ToValue(items[i]) == items[i] && Normalize(items[i]).Some? && IsNormal(Normalize(items[i]).value)
        ensures Normalize(items[i]).Some? ==> Probe(items[i])
      {
        ProbeMeetsNormalizer(items[i]);
      }
      var parts := seq(|items|, i requires 0 <= i < |items| => Normalize(items[i]));
      if Normalize(v).Some? {
        forall i | 0 <= i < |items| ensures Probe(items[i]) { assert parts[i] in parts; }
      }
      if Probe(v) { assert ToValue(v).items == items; }
    case Object(members) =>
      forall k | k in members
        ensures Probe(members[k]) ==> ToValue(members[k]) == members[k] && Normalize(members[k]).Some? && IsNormal(Normalize(members[k]).value)
        ensures Normalize(members[k]).Some? ==> Probe(members[k])
      {
        ProbeMeetsNormalizer(members[k]);
      }
      if Probe(v) { assert ToValue(v).members == members; }
    case _ =>
  }

  /** A normal value normalizes to itself, so normalizing twice is normalizing once. */
  lemma {:induction false} NormalIsFixed(v: Value)
    requires IsNormal(v)
    ensures Normalize(v) == Some(v) && Probe(v)
  {
    match v
    case Array(items) =>
      forall i | 0 <= i < |items| ensures Normalize(items[i]) == Some(items[i]) && Probe(items[i]) { NormalIsFixed(items[i]); }
      assert Present(seq(|items|, i requires 0 <= i < |items| => Normalize(items[i]))) == items;
    case Object(members) =>
      forall k | k in members ensures Normalize(members[k]) == Some(members[k]) && Probe(members[k]) { NormalIsFixed(members[k]); }
      assert Normalize(v).value.members == members;
    case _ =>
  }

  lemma NormalizeIsIdempotent(v: Value)
    requires Normalize(v).Some?
    ensures Normalize(Normalize(v).value) == Normalize(v)
  {
    ProbeMeetsNormalizer(v);
    NormalIsFixed(Normalize(v).value);
  }

  // ----- canonical text

  ghost predicate KeyBefore(a: string, b: string) {
    CanonicalJson.UnitsLe(CanonicalJson.Utf16(a), CanonicalJson.Utf16(b))
  }

  /** Some listing of a set of keys. */
  ghost function Listing(keys: set<string>): (r: seq<string>)
    ensures forall k :: k in r <==> k in keys
    ensures forall i, j :: 0 <= i < j < |r| ==> r[i] != r[j]
  {
    if keys == {} then [] else
      var k :| k in keys;
      [k] + Listing(keys - {k})
  }

  ghost function KeysInOrder(keys: set<string>): seq<string> {
    Sort((a, b) => KeyBefore(a, b), Listing(keys))
  }

  lemma KeysListed(keys: set<string>)
    ensures var r := KeysInOrder(keys);
      && (forall k :: k in r <==> k in keys)
      && (forall i, j :: 0 <= i < j < |r| ==> r[i] != r[j])
  {
    var le := (a, b) => KeyBefore(a, b);
    OrderIsTotal(le);
    SortSorts(le, Listing(keys));
    SameElements(Listing(keys), KeysInOrder(keys));
    DistinctSurvives(Listing(keys), KeysInOrder(keys));
  }

  lemma OrderIsTotal(le: (string, string) -> bool)
    requires forall a, b :: le(a, b) == KeyBefore(a, b)
    ensures TotalPreorder(le)
  {
    forall a, b ensures le(a, b) || le(b, a) {
      CanonicalJson.UnitsLeOrders(CanonicalJson.Utf16(a), CanonicalJson.Utf16(b));
    }
    forall a, b, c | le(a, b) && le(b, c) ensures le(a, c) {
      CanonicalJson.UnitsLeChains(CanonicalJson.Utf16(a), CanonicalJson.Utf16(b), CanonicalJson.Utf16(c));
    }
  }

  /** How a double is written and what kind of double a lexeme is read as. */
  datatype Doubles = Doubles(write: Double -> string, read: string -> NumberLexeme.F64)

  /** A finite double that is no integer is written as a fraction and read as one. */
  ghost predicate WritesFractions(w: Doubles) {
    forall d: Double :: d.Finite? && !IsIntegral(d) ==>
      NumberLexeme.CodeClass(w.write(d)) == NumberLexeme.Fraction && w.read(w.write(d)) == NumberLexeme.Fractional
  }

  function LexemeOf(w: Doubles, n: Number): string {
    if n.Integer? then CanonicalJson.EncodeInt(n.i) else w.write(n.d)
  }

  /** How the canonicalizer writes a number: an integral one as an integer. */
  function PrintNumber(n: Number): Number {
    if n.Fraction? && IsIntegral(n.d) then IntegralNumber(n.d) else n
  }

  /** The canonical text of a value, members in UTF-16 order. */
  ghost function Print(w: Doubles, v: Value): Text
    decreases v, 1
  {
    match v
    case Null => TNull
    case Bool(b) => TBool(b)
    case Num(n) => TNum(LexemeOf(w, PrintNumber(n)), PrintNumber(n))
    case Str(s) => TStr(s)
    case Array(items) => TArray(seq(|items|, i requires 0 <= i < |items| => Print(w, items[i])))
    case Object(members) => TObject(PrintMembers(w, v, KeysInOrder(members.Keys)))
  }

  ghost function PrintMembers(w: Doubles, v: Value, keys: seq<string>): seq<TMember>
    requires v.Object?
    decreases v, 0
  {
    seq(|keys|, i requires 0 <= i < |keys| =>
      TMember(keys[i], if keys[i] in v.members then Print(w, v.members[keys[i]]) else TNull))
  }

  /** Writing the normalized value instead of the value changes nothing. */
  lemma {:induction false} PrintIgnoresForm(w: Doubles, v: Value)
    requires Normalize(v).Some?
    ensures Print(w, Normalize(v).value) == Print(w, v)
  {
    match v
    case Array(items) =>
      var parts := seq(|items|, i requires 0 <= i < |items| => Normalize(items[i]));
      forall i | 0 <= i < |items| ensures parts[i].Some? && Print(w, Normalize(items[i]).value) == Print(w, items[i]) {
        assert parts[i] in parts;
        PrintIgnoresForm(w, items[i]);
      }
      assert Print(w, Normalize(v).value).items == Print(w, v).items;
    case Object(members) =>
      var n := Normalize(v).value;
      assert n.members.Keys == members.Keys;
      var keys := KeysInOrder(members.Keys);
      KeysListed(members.Keys);
      forall k | k in members ensures Print(w, n.members[k]) == Print(w, members[k]) { PrintIgnoresForm(w, members[k]); }
      assert PrintMembers(w, n, keys) == PrintMembers(w, v, keys);
    case _ =>
  }

  ghost predicate KeysUnique(members: seq<TMember>) {
    forall i, j :: 0 <= i < j < |members| ==> members[i].key != members[j].key
  }

  /** What a text says, token by token: a number of the same real value, items in order,
      and each member once under its key. */
  ghost predicate Says(t: Text, v: Value)
    decreases t
  {
    match t
    case TNull => v == Null
    case TBool(b) => v == Bool(b)
    case TNum(_, n) => v.Num? && RealOf(v.n) == RealOf(n)
    case TStr(s) => v == Str(s)
    case TArray(items) => v.Array? && |v.items| == |items| && forall i :: 0 <= i < |items| ==> Says(items[i], v.items[i])
    case TObject(members) =>
      && v.Object? && KeysUnique(members)
      && (forall k :: k in v.members <==> exists i :: 0 <= i < |members| && members[i].key == k)
      && forall i :: 0 <= i < |members| ==> MemberSays(members[i], v)
  }

  ghost predicate MemberSays(m: TMember, v: Value)
    decreases m
  {
    v.Object? && m.key in v.members && Says(m.value, v.members[m.key])
  }

  lemma PrintedMembers(w: Doubles, members: map<string, Value>)
    ensures var texts, keys := Print(w, Object(members)).members, KeysInOrder(members.Keys);
      && |texts| == |keys|
      && (forall i :: 0 <= i < |keys| ==> keys[i] in members && texts[i] == TMember(keys[i], Print(w, members[keys[i]])))
      && (forall k :: k in members <==> exists i :: 0 <= i < |texts| && texts[i].key == k)
  {
    var v, keys := Object(members), KeysInOrder(members.Keys);
    KeysListed(members.Keys);
    var texts := PrintMembers(w, v, keys);
    assert Print(w, v) == TObject(texts);
    forall k ensures k in members <==> exists i :: 0 <= i < |texts| && texts[i].key == k {
      if k in members {
        var i :| 0 <= i < |keys| && keys[i] == k;
        assert texts[i].key == k;
      }
    }
  }

  /** The canonical text of a value says the value. */
  lemma {:induction false} PrintSays(w: Doubles, v: Value)
    ensures Says(Print(w, v), v)
    decreases v
  {
    match v
    case Num(n) => RewritingKeepsValue(n);
    case Array(items) =>
      forall i | 0 <= i < |items| ensures Says(Print(w, items[i]), items[i]) { PrintSays(w, items[i]); }
    case Object(members) =>
      PrintedMembers(w, members);
      PrintedInOrder(w, members);
      forall k | k in members ensures Says(Print(w, members[k]), members[k]) { PrintSays(w, members[k]); }
      var texts := Print(w, v).members;
      forall i | 0 <= i < |texts| ensures MemberSays(texts[i], v) {
        assert texts[i].value == Print(w, members[texts[i].key]);
      }
    case _ =>
  }

  /** A number token is written as its number: an integer by its numeral, with a sign if it
      is negative, and another double as doubles are written. */
  ghost predicate LexemeSays(w: Doubles, lexeme: string, n: Number) {
    match n
    case Integer(i) =>
      exists digits: Decimal.Digits :: Numerals.IsNumeral(digits)
        && lexeme == (if i < 0 then "-" else "") + digits && Decimal.Value(digits) == if i < 0 then 0 - i else i
    case Fraction(d) => lexeme == w.write(d)
  }

  ghost predicate LexemesSay(w: Doubles, t: Text)
    decreases t
  {
    match t
    case TNum(lexeme, n) => LexemeSays(w, lexeme, n)
    case TArray(items) => forall i :: 0 <= i < |items| ==> LexemesSay(w, items[i])
    case TObject(members) => forall i :: 0 <= i < |members| ==> MemberLexemesSay(w, members[i])
    case _ => true
  }

  ghost predicate MemberLexemesSay(w: Doubles, m: TMember)
    decreases m
  {
    LexemesSay(w, m.value)
  }

  lemma LexemeIsWritten(w: Doubles, n: Number)
    ensures LexemeSays(w, LexemeOf(w, n), n)
  {
    if n.Integer? {
      var digits := Numerals.Print(if n.i < 0 then 0 - n.i else n.i);
      assert "" + digits == digits;
      assert Numerals.IsNumeral(digits);
    }
  }

  lemma {:induction false} PrintWritesLexemes(w: Doubles, v: Value)
    ensures LexemesSay(w, Print(w, v))
    decreases v
  {
    match v
    case Num(n) =>
      hide LexemeOf;
      hide LexemeSays;
      LexemeIsWritten(w, PrintNumber(n));
    case Array(items) =>
      forall i | 0 <= i < |items| ensures LexemesSay(w, Print(w, items[i])) { PrintWritesLexemes(w, items[i]); }
    case Object(members) =>
      PrintedMembers(w, members);
      forall k | k in members ensures LexemesSay(w, Print(w, members[k])) { PrintWritesLexemes(w, members[k]); }
      var texts := Print(w, v).members;
      forall i | 0 <= i < |texts| ensures MemberLexemesSay(w, texts[i]) {
        assert texts[i].value == Print(w, members[texts[i].key]);
      }
    case _ =>
  }

  /** The members of a canonical text stand in the order of their keys' code units, each
      once. */
  lemma PrintedInOrder(w: Doubles, members: map<string, Value>)
    ensures var texts := Print(w, Object(members)).members;
      && (forall i, j :: 0 <= i < j < |texts| ==> KeyBefore(texts[i].key, texts[j].key) && texts[i].key != texts[j].key)
      && (forall k :: k in members <==> exists i :: 0 <= i < |texts| && texts[i].key == k)
  {
    PrintedMembers(w, members);
    KeysOrdered(members.Keys);
    var texts, keys := Print(w, Object(members)).members, KeysInOrder(members.Keys);
    hide Print;
    hide KeysInOrder;
    hide KeyBefore;
    assert forall i :: 0 <= i < |texts| ==> texts[i].key == keys[i];
  }

  lemma KeysOrdered(all: set<string>)
    ensures var keys := KeysInOrder(all); forall i, j :: 0 <= i < j < |keys| ==> KeyBefore(keys[i], keys[j]) && keys[i] != keys[j]
  {
    hide KeyBefore;
    var le := (a, b) => KeyBefore(a, b);
    OrderIsTotal(le);
    KeysListed(all);
    SortSorts(le, Listing(all));
    var keys := KeysInOrder(all);
    forall i, j | 0 <= i < j < |keys| ensures KeyBefore(keys[i], keys[j]) && keys[i] != keys[j] {
      assert le(keys[i], keys[j]);
    }
  }

  // ----- decoding

  predicate LexemePasses(w: Doubles, lexeme: string) {
    NumberLexeme.VerdictOf(NumberLexeme.CodeClass(lexeme), w.read(lexeme)) == NumberLexeme.Admitted
  }

  /** No number lexeme of the text is refused. */
  ghost predicate LexemesPass(w: Doubles, t: Text)
    decreases t
  {
    match t
    case TNum(lexeme, _) => LexemePasses(w, lexeme)
    case TArray(items) => forall i :: 0 <= i < |items| ==> LexemesPass(w, items[i])
    case TObject(members) => forall i :: 0 <= i < |members| ==> MemberPasses(w, members[i])
    case _ => true
  }

  ghost predicate MemberPasses(w: Doubles, m: TMember)
    decreases m
  {
    LexemesPass(w, m.value)
  }

  /** Decoding: first the lexemes of the whole text, then the visit. */
  ghost function Decode(w: Doubles, t: Text): Option<Value> {
    if LexemesPass(w, t) then Visit(t) else None
  }

  /** What the decoder makes of a text; None is a refusal. */
  function Visit(t: Text): Option<Value>
    decreases t
  {
    match t
    case TNull => Some(Null)
    case TBool(b) => Some(Bool(b))
    case TNum(_, n) => if VisitNumber(n).None? then None else Some(Num(VisitNumber(n).value))
    case TStr(s) => Some(Str(s))
    case TArray(items) =>
      var values := VisitItems(items);
      if values.None? then None else Some(Array(values.value))
    case TObject(members) =>
      var values := VisitMembers(members);
      if values.None? then None else Some(Object(values.value))
  }

  function VisitItems(items: seq<Text>): Option<seq<Value>>
    decreases items
  {
    if items == [] then Some([])
    else
      var front := VisitItems(items[..|items| - 1]);
      var last := Visit(items[|items| - 1]);
      if front.None? || last.None? then None else Some(front.value + [last.value])
  }

  /** Members one by one; a repeated key is refused. */
  function VisitMembers(members: seq<TMember>): Option<map<string, Value>>
    decreases members
  {
    if members == [] then Some(map[])
    else
      var front, last := VisitMembers(members[..|members| - 1]), members[|members| - 1];
      if front.None? || last.key in front.value then None
      else
        var value := Visit(last.value);
        if value.None? then None else Some(front.value[last.key := value.value])
  }

  /** No object at any depth repeats a key, and every number passes the probe. */
  ghost predicate Decodable(t: Text)
    decreases t
  {
    match t
    case TNum(_, n) => ProbeNumber(n)
    case TArray(items) => forall i :: 0 <= i < |items| ==> Decodable(items[i])
    case TObject(members) => KeysUnique(members) && forall i :: 0 <= i < |members| ==> DecodableMember(members[i])
    case _ => true
  }

  ghost predicate DecodableMember(m: TMember)
    decreases m
  {
    Decodable(m.value)
  }

  /** A text decodes exactly when no object repeats a key and every number passes, at
      every depth; and what it decodes to is in normal form. */
  lemma {:induction false} DecodesExactly(t: Text)
    ensures Visit(t).Some? <==> Decodable(t)
    ensures Visit(t).Some? ==> IsNormal(Visit(t).value)
    decreases t
  {
    match t
    case TNum(_, n) => NumberChecksAgree(n);
    case TArray(items) => ItemsDecode(items);
    case TObject(members) => MembersDecode(members);
    case _ =>
  }

  /** What a text decodes to is what it says. */
  lemma {:induction false} VisitSays(t: Text)
    requires Visit(t).Some?
    ensures Says(t, Visit(t).value)
    decreases t
  {
    match t
    case TNum(_, n) => RewritingKeepsValue(n);
    case TArray(items) => ItemsSay(items);
    case TObject(members) => MembersSay(members, Visit(t).value);
    case _ =>
  }

  lemma {:induction false} ItemsSay(items: seq<Text>)
    requires VisitItems(items).Some?
    ensures var values := VisitItems(items).value;
      |values| == |items| && forall i :: 0 <= i < |items| ==> Says(items[i], values[i])
    decreases items
  {
    if items != [] {
      var front := items[..|items| - 1];
      ItemsSay(front);
      VisitSays(items[|items| - 1]);
      hide Says;
      hide Visit;
      var values := VisitItems(items).value;
      forall i | 0 <= i < |items| ensures Says(items[i], values[i]) {
        if i < |front| { assert front[i] == items[i] && VisitItems(front).value[i] == values[i]; }
      }
    }
  }

  lemma {:induction false} MembersSay(members: seq<TMember>, v: Value)
    requires v.Object? && VisitMembers(members).Some? && forall k :: k in VisitMembers(members).value ==> k in v.members && v.members[k] == VisitMembers(members).value[k]
    ensures KeysUnique(members)
    ensures forall k :: k in VisitMembers(members).value <==> exists i :: 0 <= i < |members| && members[i].key == k
    ensures forall i :: 0 <= i < |members| ==> MemberSays(members[i], v)
    decreases members
  {
    if members != [] {
      var front, last := members[..|members| - 1], members[|members| - 1];
      MembersSay(front, v);
      MembersDecode(members);
      MemberVisited(last);
      hide Visit;
      hide Says;
      assert last.key in VisitMembers(members).value;
      forall i | 0 <= i < |members| ensures MemberSays(members[i], v) {
        if i < |front| { assert front[i] == members[i]; }
      }
      forall k ensures k in VisitMembers(members).value <==> exists i :: 0 <= i < |members| && members[i].key == k {
      }
    }
  }

  lemma MemberVisited(m: TMember)
    ensures Visit(m.value).Some? ==> Says(m.value, Visit(m.value).value)
    decreases m
  {
    if Visit(m.value).Some? { VisitSays(m.value); }
  }

  lemma {:induction false} ItemsDecode(items: seq<Text>)
    ensures VisitItems(items).Some? <==> forall i :: 0 <= i < |items| ==> Decodable(items[i])
    ensures VisitItems(items).Some? ==> forall i :: 0 <= i < |VisitItems(items).value| ==> IsNormal(VisitItems(items).value[i])
    decreases items
  {
    if items != [] {
      var front := items[..|items| - 1];
      ItemsDecode(front);
      DecodesExactly(items[|items| - 1]);
      hide Visit;
      hide Decodable;
      hide IsNormal;
      assert forall i :: 0 <= i < |front| ==> front[i] == items[i];
    }
  }

  lemma {:induction false} MembersDecode(members: seq<TMember>)
    ensures VisitMembers(members).Some? <==> KeysUnique(members) && forall i :: 0 <= i < |members| ==> DecodableMember(members[i])
    ensures VisitMembers(members).Some? ==> forall k :: k in VisitMembers(members).value ==>
      IsNormal(VisitMembers(members).value[k]) && exists i :: 0 <= i < |members| && members[i].key == k
    ensures VisitMembers(members).Some? ==> forall i :: 0 <= i < |members| ==> members[i].key in VisitMembers(members).value
    decreases members
  {
    if members != [] {
      var front, last := members[..|members| - 1], members[|members| - 1];
      MembersDecode(front);
      MemberDecodes(last);
      hide Visit;
      hide IsNormal;
      hide DecodableMember;
      assert forall i :: 0 <= i < |front| ==> front[i] == members[i];
      if VisitMembers(members).Some? {
        forall k | k in VisitMembers(members).value
          ensures exists i :: 0 <= i < |members| && members[i].key == k
        {
          if k in VisitMembers(front).value {
            var i :| 0 <= i < |front| && front[i].key == k;
            assert members[i].key == k;
          } else {
            assert members[|members| - 1].key == k;
          }
        }
      }
    }
  }

  lemma MemberDecodes(m: TMember)
    ensures Visit(m.value).Some? <==> DecodableMember(m)
    ensures Visit(m.value).Some? ==> IsNormal(Visit(m.value).value)
    decreases m
  {
    DecodesExactly(m.value);
  }

  lemma {:induction false} VisitsBack(w: Doubles, v: Value)
    requires IsNormal(v)
    ensures Visit(Print(w, v)) == Some(v)
    decreases v, 1
  {
    match v
    case Num(n) => NumberChecksAgree(n);
    case Array(items) =>
      forall i | 0 <= i < |items| ensures Visit(Print(w, items[i])) == Some(items[i]) { VisitsBack(w, items[i]); }
      ItemsReadBack(items, Print(w, v).items);
    case Object(members) =>
      var keys := KeysInOrder(members.Keys);
      KeysListed(members.Keys);
      forall k | k in members ensures Visit(Print(w, members[k])) == Some(members[k]) { VisitsBack(w, members[k]); }
      MembersReadBack(w, v, keys);
      assert Restricted(members, keys) == members;
    case _ =>
  }

  lemma {:induction false} LengthOfPrint(n: nat)
    ensures |Numerals.Print(n)| <= n + 1
  {
    if n >= 10 { LengthOfPrint(n / 10); }
  }

  /** An exact integer is written as a lexeme the digit count takes for a safe one. */
  lemma IntegerLexeme(i: int)
    requires -(MAX_EXACT_INTEGER as int) <= i <= MAX_EXACT_INTEGER
    ensures NumberLexeme.CodeClass(CanonicalJson.EncodeInt(i)) == NumberLexeme.SafeInteger
  {
    hide NumberLexeme.CodeClass;
    hide Numerals.Print;
    var magnitude: nat := if i < 0 then 0 - i else i;
    LengthOfPrint(magnitude);
    assert Decimal.IsDigits(Numerals.Print(magnitude));
    hide Numerals.IsNumeral;
    var n := NumberMeaning.Num(i < 0, Numerals.Print(magnitude), None, None);
    assert NumberMeaning.MantissaText(n) + NumberMeaning.ExponentText(n) == Numerals.Print(magnitude);
    assert NumberMeaning.Print(n) == CanonicalJson.EncodeInt(i);
    NumberMeaning.PlainIntegerIsSafe(n);
  }

  /** The canonical text of a normal value passes the scan of its lexemes. */
  lemma {:induction false} CanonicalPasses(w: Doubles, v: Value)
    requires WritesFractions(w) && IsNormal(v)
    ensures LexemesPass(w, Print(w, v))
    decreases v
  {
    hide NumberLexeme.CodeClass;
    match v
    case Num(n) => if n.Integer? { IntegerLexeme(n.i); }
    case Array(items) =>
      forall i | 0 <= i < |items| ensures LexemesPass(w, Print(w, items[i])) { CanonicalPasses(w, items[i]); }
    case Object(members) =>
      KeysListed(members.Keys);
      forall k | k in members ensures LexemesPass(w, Print(w, members[k])) { CanonicalPasses(w, members[k]); }
    case _ =>
  }

  /** Reading back the canonical text of a normal value gives the value. */
  lemma ReadsBack(w: Doubles, v: Value)
    requires WritesFractions(w) && IsNormal(v)
    ensures Decode(w, Print(w, v)) == Some(v)
  {
    CanonicalPasses(w, v);
    VisitsBack(w, v);
  }

  lemma {:induction false} ItemsReadBack(items: seq<Value>, texts: seq<Text>)
    requires |texts| == |items| && forall i :: 0 <= i < |items| ==> Visit(texts[i]) == Some(items[i])
    ensures VisitItems(texts) == Some(items)
    decreases |items|
  {
    hide Visit;
    if items != [] {
      ItemsReadBack(items[..|items| - 1], texts[..|texts| - 1]);
      assert items == items[..|items| - 1] + [items[|items| - 1]];
    }
  }

  function Restricted(m: map<string, Value>, keys: seq<string>): map<string, Value> {
    map k | k in m && k in keys :: m[k]
  }

  lemma {:induction false} MembersReadBack(w: Doubles, v: Value, keys: seq<string>)
    requires v.Object? && forall k :: k in keys ==> k in v.members
    requires forall i, j :: 0 <= i < j < |keys| ==> keys[i] != keys[j]
    requires forall k :: k in v.members ==> Visit(Print(w, v.members[k])) == Some(v.members[k])
    ensures VisitMembers(PrintMembers(w, v, keys)) == Some(Restricted(v.members, keys))
    decreases |keys|
  {
    hide Visit;
    hide Print;
    if keys == [] {
      assert Restricted(v.members, keys) == map[];
    } else {
      var front, last := keys[..|keys| - 1], keys[|keys| - 1];
      MembersReadBack(w, v, front);
      assert keys == front + [last] && last in keys;
      var texts := PrintMembers(w, v, keys);
      assert texts[..|texts| - 1] == PrintMembers(w, v, front);
      assert last !in front;
      assert Restricted(v.members, keys) == Restricted(v.members, front)[last := v.members[last]];
    }
  }

  // ----- the loops

  lemma {:induction false} RefusedItemsStay(items: seq<Text>, i: nat)
    requires i <= |items| && VisitItems(items[..i]).None?
    ensures VisitItems(items).None?
    decreases |items|
  {
    hide Visit;
    if i < |items| {
      assert items[..|items| - 1][..i] == items[..i];
      RefusedItemsStay(items[..|items| - 1], i);
    } else {
      assert items[..i] == items;
    }
  }

  lemma {:induction false} RefusedMembersStay(members: seq<TMember>, i: nat)
    requires i <= |members| && VisitMembers(members[..i]).None?
    ensures VisitMembers(members).None?
    decreases |members|
  {
    hide Visit;
    if i < |members| {
      assert members[..|members| - 1][..i] == members[..i];
      RefusedMembersStay(members[..|members| - 1], i);
    } else {
      assert members[..i] == members;
    }
  }

  /** Grows an array and an object one element at a time, refusing at the first bad
      number or repeated key. */
  method VisitText(t: Text) returns (r: Option<Value>)
    ensures r == Visit(t)
    decreases t
  {
    match t
    case TNull => r := Some(Null);
    case TBool(b) => r := Some(Bool(b));
    case TNum(_, n) => r := if VisitNumber(n).None? then None else Some(Num(VisitNumber(n).value));
    case TStr(s) => r := Some(Str(s));
    case TArray(items) =>
      var values: seq<Value> := [];
      for i := 0 to |items|
        invariant VisitItems(items[..i]) == Some(values)
      {
        assert items[..i + 1][..i] == items[..i];
        var value := VisitText(items[i]);
        if value.None? {
          RefusedItemsStay(items, i + 1);
          return None;
        }
        values := values + [value.value];
      }
      assert items[..|items|] == items;
      r := Some(Array(values));
    case TObject(members) =>
      var values: map<string, Value> := map[];
      for i := 0 to |members|
        invariant VisitMembers(members[..i]) == Some(values)
      {
        assert members[..i + 1][..i] == members[..i];
        if members[i].key in values {
          RefusedMembersStay(members, i + 1);
          return None;
        }
        var value := VisitText(members[i].value);
        if value.None? {
          RefusedMembersStay(members, i + 1);
          return None;
        }
        values := values[members[i].key := value.value];
      }
      assert members[..|members|] == members;
      r := Some(Object(values));
  }

  lemma ArrayRefused(items: seq<Value>, i: nat)
    requires i < |items| && Normalize(items[i]).None?
    ensures Normalize(Array(items)).None?
  {
    var parts := seq(|items|, j requires 0 <= j < |items| => Normalize(items[j]));
    assert parts[i] in parts;
  }

  lemma ArrayNormalized(items: seq<Value>, values: seq<Value>)
    requires |values| == |items| && forall i :: 0 <= i < |items| ==> Normalize(items[i]) == Some(values[i])
    ensures Normalize(Array(items)) == Some(Array(values))
  {
    var parts := seq(|items|, i requires 0 <= i < |items| => Normalize(items[i]));
    assert Present(parts) == values;
  }

  lemma ObjectNormalized(members: map<string, Value>, values: map<string, Value>)
    requires values.Keys == members.Keys && forall k :: k in members ==> Normalize(members[k]) == Some(values[k])
    ensures Normalize(Object(members)) == Some(Object(values))
  {
    assert Normalize(Object(members)).value.members == values;
  }

  /** Rewrites the numbers of a value place by place, an array in its order and an object
      in any order of its keys. */
  method NormalizeNumbers(v: Value) returns (r: Option<Value>)
    ensures r == Normalize(v)
    decreases v
  {
    match v
    case Array(items) =>
      var values := items;
      for i := 0 to |items|
        invariant |values| == |items| && forall j :: i <= j < |items| ==> values[j] == items[j]
        invariant forall j :: 0 <= j < i ==> Normalize(items[j]) == Some(values[j])
      {
        var value := NormalizeNumbers(items[i]);
        if value.None? {
          ArrayRefused(items, i);
          return None;
        }
        values := values[i := value.value];
      }
      ArrayNormalized(items, values);
      r := Some(Array(values));
    case Object(members) =>
      var values := members;
      var left := members.Keys;
      while left != {}
        invariant left <= members.Keys && values.Keys == members.Keys
        invariant forall k :: k in left ==> values[k] == members[k]
        invariant forall k :: k in members && k !in left ==> Normalize(members[k]) == Some(values[k])
        decreases |left|
      {
        var k :| k in left;
        var value := NormalizeNumbers(members[k]);
        if value.None? { return None; }
        values := values[k := value.value];
        left := left - {k};
      }
      ObjectNormalized(members, values);
      r := Some(Object(values));
    case Num(n) => r := if NormalizeNumber(n).None? then None else Some(Num(NormalizeNumber(n).value));
    case _ => r := Some(v);
  }

  // ----- canonical text and canonical form of a value

  /** None is an encoding error. */
  ghost function CanonicalText(w: Doubles, v: Value): Option<Text> {
    if !Probe(v) then None
    else
      var direct, normalized := Print(w, v), Normalize(ToValue(v));
      if normalized.None? then None
      else
        var canonical := Print(w, normalized.value);
        if direct != canonical then None else Some(canonical)
  }

  /** The one form of a value: what its canonical text decodes to. */
  ghost function CanonicalForm(w: Doubles, v: Value): Option<Value> {
    var text := CanonicalText(w, v);
    if text.None? then None else Decode(w, text.value)
  }

  /** The probe alone decides: after it neither the normalizer, nor the comparison of the
      two texts, nor the decoder ever refuses; and the canonical form is the normalized
      value. */
  lemma ProbeDecides(w: Doubles, v: Value)
    requires WritesFractions(w)
    ensures CanonicalText(w, v).Some? <==> Probe(v)
    ensures CanonicalForm(w, v) == if Probe(v) then Normalize(v) else None
    ensures Probe(v) ==> Normalize(v).Some? && CanonicalText(w, v) == Some(Print(w, Normalize(v).value))
  {
    ProbeMeetsNormalizer(v);
    if Probe(v) {
      PrintIgnoresForm(w, v);
      ReadsBack(w, Normalize(v).value);
    }
  }

  lemma FormIsFixed(w: Doubles, v: Value)
    requires WritesFractions(w) && CanonicalForm(w, v).Some?
    ensures CanonicalForm(w, CanonicalForm(w, v).value) == CanonicalForm(w, v)
  {
    ProbeDecides(w, v);
    ProbeDecides(w, CanonicalForm(w, v).value);
    NormalizeIsIdempotent(v);
    ProbeMeetsNormalizer(CanonicalForm(w, v).value);
  }

  // ----- sealing

  datatype SealedPlan = SealedPlan(planId: string, candidate: Value)

  /** What sealing takes from elsewhere: the validation of a candidate, the identity of a
      canonical text and the handling of doubles. */
  datatype Authority = Authority(valid: Value -> bool, identify: Text -> string, doubles: Doubles)

  ghost function SealPlan(a: Authority, candidate: Value): Option<SealedPlan> {
    var normalized := CanonicalForm(a.doubles, candidate);
    if normalized.None? then None
    else
      var chosen := if normalized.value == candidate then candidate else normalized.value;
      if !a.valid(chosen) then None
      else
        var text := CanonicalText(a.doubles, chosen);
        if text.None? then None else Some(SealedPlan(a.identify(text.value), chosen))
  }

  ghost predicate Verify(a: Authority, plan: SealedPlan) {
    && CanonicalForm(a.doubles, plan.candidate) == Some(plan.candidate)
    && a.valid(plan.candidate)
    && CanonicalText(a.doubles, plan.candidate).Some?
    && plan.planId == a.identify(CanonicalText(a.doubles, plan.candidate).value)
  }

  /** The verified plans are exactly the sealed ones, each the seal of its own candidate. */
  lemma VerifiedExactly(a: Authority, plan: SealedPlan)
    requires WritesFractions(a.doubles)
    ensures Verify(a, plan) <==> SealPlan(a, plan.candidate) == Some(plan)
    ensures Verify(a, plan) <==> exists c :: SealPlan(a, c) == Some(plan)
  {
    hide CanonicalText;
    if Verify(a, plan) {
      assert SealPlan(a, plan.candidate) == Some(plan);
    }
    if c :| SealPlan(a, c) == Some(plan) { SealedVerifies(a, c); }
  }

  lemma SealedVerifies(a: Authority, c: Value)
    requires WritesFractions(a.doubles) && SealPlan(a, c).Some?
    ensures Verify(a, SealPlan(a, c).value)
  {
    FormIsFixed(a.doubles, c);
    hide CanonicalForm;
    hide CanonicalText;
  }

  /** A seal holds the value it was asked to seal: no number, member or item is changed. */
  lemma SealKeepsValue(a: Authority, c: Value)
    requires WritesFractions(a.doubles) && SealPlan(a, c).Some?
    ensures SameValue(c, SealPlan(a, c).value.candidate) && IsNormal(SealPlan(a, c).value.candidate)
    ensures a.valid(SealPlan(a, c).value.candidate)
    ensures var text := Print(a.doubles, SealPlan(a, c).value.candidate);
      && SealPlan(a, c).value.planId == a.identify(text)
      && Says(text, SealPlan(a, c).value.candidate) && LexemesSay(a.doubles, text)
  {
    ProbeDecides(a.doubles, c);
    NormalizeKeepsValue(c);
    ProbeMeetsNormalizer(c);
    var chosen := SealPlan(a, c).value.candidate;
    NormalIsFixed(chosen);
    ProbeDecides(a.doubles, chosen);
    PrintSays(a.doubles, chosen);
    PrintWritesLexemes(a.doubles, chosen);
  }

  /** Candidates have one normal form exactly when they are of one value. */
  lemma SameFormExactly(w: Doubles, c: Value, d: Value)
    requires WritesFractions(w) && CanonicalForm(w, c).Some? && CanonicalForm(w, d).Some?
    ensures Normalize(c) == Normalize(d) <==> SameValue(c, d)
  {
    ProbeDecides(w, c);
    ProbeDecides(w, d);
    if Normalize(c) == Normalize(d) { SameFormSameValue(c, d); }
    if SameValue(c, d) { SameValueSameForm(c, d); }
  }

  /** The identities of these two texts do not collide. */
  ghost predicate TellsApart(a: Authority, x: Text, y: Text) { a.identify(x) == a.identify(y) ==> x == y }

  /** Candidates that differ only in the form of their numbers seal to one plan; and, where
      the identities of their two texts do not collide, seals with one identity are one
      plan. */
  lemma OneIdentityOnePlan(a: Authority, c: Value, d: Value)
    requires WritesFractions(a.doubles) && SealPlan(a, c).Some? && SealPlan(a, d).Some?
    requires TellsApart(a, Print(a.doubles, SealPlan(a, c).value.candidate), Print(a.doubles, SealPlan(a, d).value.candidate))
    ensures SealPlan(a, c).value.planId == SealPlan(a, d).value.planId <==> Normalize(c) == Normalize(d)
    ensures SealPlan(a, c).value.planId == SealPlan(a, d).value.planId <==> SealPlan(a, c) == SealPlan(a, d)
    ensures SealPlan(a, c).value.planId == SealPlan(a, d).value.planId <==> SameValue(c, d)
  {
    SameFormExactly(a.doubles, c, d);
    ProbeDecides(a.doubles, c);
    ProbeDecides(a.doubles, d);
    var x, y := Normalize(c).value, Normalize(d).value;
    ProbeMeetsNormalizer(c);
    ProbeMeetsNormalizer(d);
    NormalIsFixed(x);
    NormalIsFixed(y);
    ProbeDecides(a.doubles, x);
    ProbeDecides(a.doubles, y);
    ReadsBack(a.doubles, x);
    ReadsBack(a.doubles, y);
  }
}
