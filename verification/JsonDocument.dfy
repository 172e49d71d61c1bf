/** JSON texts by the grammar of RFC 8259, and what the number scanner meets in
    them: exactly the numbers of the value, in order, none inside a string. */
module JsonDocument {
  import opened Decimal
  import opened NumberLexeme
  import opened NumberMeaning
  import opened JsonScan
  import Numerals

  // ----- concrete syntax

  /** A piece of a string: a plain character, a two-character escape or \uXXXX. */
  datatype Piece = Plain(c: char) | Short(c: char) | Unicode(hex: string)

  /** `gap` fields hold whitespace. */
  datatype Doc =
    | Word(text: string)
    | Number(number: Num)
    | Text(pieces: seq<Piece>)
    | Array(gap: string, items: seq<Item>)
    | Object(gap: string, members: seq<Member>)
  datatype Item = Item(before: string, value: Doc, after: string)
  datatype Member = Member(before: string, key: seq<Piece>, middle: string, item: Item)

  predicate IsGap(s: string) { forall c :: c in s ==> c in " \t\n\r" }

  predicate IsHex(c: char) { IsDigit(c) || 'a' <= c <= 'f' || 'A' <= c <= 'F' }

  predicate PieceOk(p: Piece) {
    match p
    case Plain(c) => c >= ' ' && c != '"' && c != '\\'
    case Short(c) => c in "\"\\/bfnrt"
    case Unicode(hex) => |hex| == 4 && forall i :: 0 <= i < 4 ==> IsHex(hex[i])
  }

  predicate PiecesOk(pieces: seq<Piece>) { forall i :: 0 <= i < |pieces| ==> PieceOk(pieces[i]) }

  predicate NumberOk(n: Num) {
    && n.integer != "" && (n.integer[0] == '0' ==> n.integer == "0")
    && (n.fraction.Some? ==> n.fraction.value != "")
    && (n.exponent.Some? ==> n.exponent.value.digits != "")
  }

  predicate DocOk(d: Doc)
    decreases d
  {
    match d
    case Word(text) => text in ["null", "true", "false"]
    case Number(n) => NumberOk(n)
    case Text(pieces) => PiecesOk(pieces)
    case Array(gap, items) => IsGap(gap) && forall i :: 0 <= i < |items| ==> ItemOk(items[i])
    case Object(gap, members) => IsGap(gap) && forall i :: 0 <= i < |members| ==> MemberOk(members[i])
  }

  predicate ItemOk(item: Item)
    decreases item
  {
    IsGap(item.before) && IsGap(item.after) && DocOk(item.value)
  }

  predicate MemberOk(member: Member)
    decreases member
  {
    IsGap(member.before) && IsGap(member.middle) && PiecesOk(member.key) && ItemOk(member.item)
  }

  // ----- printing

  function PieceText(p: Piece): string {
    match p
    case Plain(c) => [c]
    case Short(c) => ['\\', c]
    case Unicode(hex) => "\\u" + hex
  }

  function PiecesText(pieces: seq<Piece>): string {
    if pieces == [] then "" else PieceText(pieces[0]) + PiecesText(pieces[1..])
  }

  function StringText(pieces: seq<Piece>): string {
    "\"" + (PiecesText(pieces) + "\"")
  }

  function DocText(d: Doc): string
    decreases d
  {
    match d
    case Word(text) => text
    case Number(n) => Print(n)
    case Text(pieces) => StringText(pieces)
    case Array(gap, items) => "[" + (gap + (ItemsText(items) + "]"))
    case Object(gap, members) => "{" + (gap + (MembersText(members) + "}"))
  }

  function ItemText(item: Item): string
    decreases item
  {
    item.before + (DocText(item.value) + item.after)
  }

  function ItemsText(items: seq<Item>): string
    decreases items
  {
    if items == [] then ""
    else if |items| == 1 then ItemText(items[0])
    else ItemText(items[0]) + ("," + ItemsText(items[1..]))
  }

  function MemberText(member: Member): string
    decreases member
  {
    member.before + (StringText(member.key) + (member.middle + (":" + ItemText(member.item))))
  }

  function MembersText(members: seq<Member>): string
    decreases members
  {
    if members == [] then ""
    else if |members| == 1 then MemberText(members[0])
    else MemberText(members[0]) + ("," + MembersText(members[1..]))
  }

  // ----- the numbers of a value, in order

  function Numbers(d: Doc): seq<Num>
    decreases d
  {
    match d
    case Number(n) => [n]
    case Array(_, items) => ItemNumbers(items)
    case Object(_, members) => MemberNumbers(members)
    case _ => []
  }

  function OneItem(item: Item): seq<Num>
    decreases item
  {
    Numbers(item.value)
  }

  function ItemNumbers(items: seq<Item>): seq<Num>
    decreases items
  {
    if items == [] then [] else OneItem(items[0]) + ItemNumbers(items[1..])
  }

  function OneMember(member: Member): seq<Num>
    decreases member
  {
    OneItem(member.item)
  }

  function MemberNumbers(members: seq<Member>): seq<Num>
    decreases members
  {
    if members == [] then [] else OneMember(members[0]) + MemberNumbers(members[1..])
  }

  function Printed(numbers: seq<Num>): seq<string> {
    if numbers == [] then [] else [Print(numbers[0])] + Printed(numbers[1..])
  }

  lemma {:induction false} PrintedJoins(a: seq<Num>, b: seq<Num>)
    ensures Printed(a + b) == Printed(a) + Printed(b)
  {
    if a == [] {
      assert a + b == b;
    } else {
      assert (a + b)[1..] == a[1..] + b;
      PrintedJoins(a[1..], b);
    }
  }

  // ----- what the scanner does on each part

  predicate IsInert(s: string) {
    forall i :: 0 <= i < |s| ==> s[i] != '"' && s[i] != '-' && !IsDigit(s[i])
  }

  /** The text neither continues a number nor is continued by one. */
  predicate Stops(s: string) {
    s == "" || (!IsDigit(s[0]) && s[0] !in {'.', 'e', 'E'})
  }

  lemma {:induction false} InertSkips(s: string, rest: string)
    requires IsInert(s)
    ensures Lexemes(s + rest) == Lexemes(rest)
  {
    if s == "" {
      assert s + rest == rest;
    } else {
      assert (s + rest)[1..] == s[1..] + rest;
      InertSkips(s[1..], rest);
    }
  }

  lemma GapSkips(gap: string, rest: string)
    requires IsGap(gap)
    ensures Lexemes(gap + rest) == Lexemes(rest)
  {
    forall i | 0 <= i < |gap| ensures gap[i] != '"' && gap[i] != '-' && !IsDigit(gap[i]) {
      assert gap[i] in gap;
    }
    InertSkips(gap, rest);
  }

  lemma PieceSkips(p: Piece, rest: string)
    requires PieceOk(p)
    ensures StringEnd(PieceText(p) + rest) == |PieceText(p)| + StringEnd(rest)
  {
    var s := PieceText(p) + rest;
    match p
    case Plain(_) => assert s[1..] == rest;
    case Short(_) => assert s[2..] == rest;
    case Unicode(hex) =>
      assert s[2..] == hex + rest;
      var t := hex + rest;
      assert t[1..][1..][1..][1..] == rest;
      HexSkips(t);
      HexSkips(t[1..]);
      HexSkips(t[1..][1..]);
      HexSkips(t[1..][1..][1..]);
  }

  lemma HexSkips(s: string)
    requires s != "" && IsHex(s[0])
    ensures StringEnd(s) == 1 + StringEnd(s[1..])
  {
  }

  lemma {:induction false} PiecesSkip(pieces: seq<Piece>, rest: string)
    requires PiecesOk(pieces)
    ensures StringEnd(PiecesText(pieces) + rest) == |PiecesText(pieces)| + StringEnd(rest)
  {
    hide StringEnd;
    if pieces == [] {
      assert PiecesText(pieces) + rest == rest;
    } else {
      var p, tail := PieceText(pieces[0]), PiecesText(pieces[1..]);
      assert (p + tail) + rest == p + (tail + rest);
      PieceSkips(pieces[0], tail + rest);
      PiecesSkip(pieces[1..], rest);
    }
  }

  /** A string is passed over whole, whatever its escapes. */
  lemma StringSkips(pieces: seq<Piece>, rest: string)
    requires PiecesOk(pieces)
    ensures Lexemes(StringText(pieces) + rest) == Lexemes(rest)
  {
    var s := StringText(pieces) + rest;
    var body := PiecesText(pieces);
    assert s[1..] == body + ("\"" + rest);
    PiecesSkip(pieces, "\"" + rest);
    assert s[1 + (|body| + 1)..] == rest;
  }

  // ----- a number is met whole

  lemma ExponentIsMet(n: Num, rest: string)
    requires NumberOk(n) && Stops(rest)
    ensures ExponentEnd(ExponentText(n) + rest) == |ExponentText(n)|
    ensures NoDigitOrPoint(ExponentText(n) + rest)
  {
    hide Numerals.DigitRun;
    if n.exponent.None? {
      assert ExponentText(n) + rest == rest;
    } else {
      var e := n.exponent.value;
      Numerals.RunStops(e.digits, rest);
      ExponentSplits(n, rest);
      SignIsNoDigit(e);
    }
  }

  lemma ExponentSplits(n: Num, rest: string)
    requires n.exponent.Some?
    ensures var e, s := n.exponent.value, ExponentText(n) + rest;
      s[1 + |SignText(e.sign)|..] == e.digits + rest && s[1..] == SignText(e.sign) + (e.digits + rest)
  {
  }

  lemma SignIsNoDigit(e: Exponent)
    requires e.digits != ""
    ensures e.digits[0] !in {'+', '-'}
  {
  }

  /** Neither a digit nor a point follows. */
  predicate NoDigitOrPoint(s: string) {
    s == "" || (!IsDigit(s[0]) && s[0] != '.')
  }

  function FractionText(n: Num): string {
    if n.fraction.Some? then "." + n.fraction.value else ""
  }

  lemma FractionIsMet(n: Num, rest: string)
    requires NumberOk(n) && NoDigitOrPoint(rest)
    ensures FractionEnd(FractionText(n) + rest) == |FractionText(n)|
    ensures FractionText(n) + rest == "" || !IsDigit((FractionText(n) + rest)[0])
  {
    var s := FractionText(n) + rest;
    if n.fraction.Some? {
      assert s[1..] == n.fraction.value + rest;
      Numerals.RunStops(n.fraction.value, rest);
    } else {
      assert s == rest;
    }
  }

  lemma IntegerIsMet(n: Num, rest: string)
    requires NumberOk(n) && (rest == "" || !IsDigit(rest[0]))
    ensures IntegerEnd(n.integer + rest) == |n.integer|
  {
    Numerals.RunStops(n.integer, rest);
  }

  lemma TextSplits(n: Num, rest: string)
    ensures MantissaText(n) + ExponentText(n) + rest == n.integer + (FractionText(n) + (ExponentText(n) + rest))
    ensures |MantissaText(n) + ExponentText(n)| == |n.integer| + |FractionText(n)| + |ExponentText(n)|
  {
    hide ExponentText;
  }

  lemma UnsignedIsMet(n: Num, rest: string)
    requires NumberOk(n) && Stops(rest)
    ensures UnsignedEnd(MantissaText(n) + ExponentText(n) + rest) == |MantissaText(n) + ExponentText(n)|
  {
    hide IntegerEnd;
    hide FractionEnd;
    hide ExponentEnd;
    hide MantissaText;
    hide ExponentText;
    hide FractionText;
    var e := ExponentText(n) + rest;
    var f := FractionText(n) + e;
    var s := n.integer + f;
    TextSplits(n, rest);
    ExponentIsMet(n, rest);
    FractionIsMet(n, e);
    IntegerIsMet(n, f);
    assert s[|n.integer|..] == f;
    assert s[|n.integer| + |FractionText(n)|..] == e;
  }

  /** A printed number followed by anything that cannot continue it is met whole. */
  lemma NumberIsMet(n: Num, rest: string)
    requires NumberOk(n) && Stops(rest)
    ensures Lexemes(Print(n) + rest) == [Print(n)] + Lexemes(rest)
  {
    hide NumberEnd;
    hide Print;
    var s := Print(n) + rest;
    EndOfPrint(n, rest);
    assert s[..|Print(n)|] == Print(n) && s[|Print(n)|..] == rest;
  }

  lemma EndOfPrint(n: Num, rest: string)
    requires NumberOk(n) && Stops(rest)
    ensures NumberEnd(Print(n) + rest) == |Print(n)| > 0
    ensures Print(n)[0] != '"'
  {
    hide UnsignedEnd;
    hide ExponentText;
    var body := MantissaText(n) + ExponentText(n);
    var s := Print(n) + rest;
    UnsignedIsMet(n, rest);
    assert body[0] == n.integer[0];
    if n.negative {
      assert s[1..] == body + rest;
    } else {
      assert s == body + rest;
    }
  }

  // ----- whole documents

  /** Scanning a value meets its numbers and then goes on with what follows it. */
  ghost predicate Meets(text: string, numbers: seq<Num>, rest: string) {
    Lexemes(text + rest) == Printed(numbers) + Lexemes(rest)
  }

  lemma MeetsNext(a: string, b: string, an: seq<Num>, bn: seq<Num>, rest: string)
    requires Meets(a, an, b + rest) && Meets(b, bn, rest)
    ensures Meets(a + b, an + bn, rest)
  {
    hide Lexemes;
    hide Printed;
    assert a + b + rest == a + (b + rest);
    PrintedJoins(an, bn);
    assert Printed(an) + (Printed(bn) + Lexemes(rest)) == Printed(an) + Printed(bn) + Lexemes(rest);
  }

  lemma InertMeets(s: string, b: string, numbers: seq<Num>, rest: string)
    requires IsInert(s) && Meets(b, numbers, rest)
    ensures Meets(s + b, numbers, rest)
  {
    hide Lexemes;
    hide Printed;
    assert s + b + rest == s + (b + rest);
    InertSkips(s, b + rest);
  }

  lemma GapMeets(gap: string, b: string, numbers: seq<Num>, rest: string)
    requires IsGap(gap) && Meets(b, numbers, rest)
    ensures Meets(gap + b, numbers, rest)
  {
    hide Lexemes;
    hide Printed;
    assert gap + b + rest == gap + (b + rest);
    GapSkips(gap, b + rest);
  }

  lemma StringMeets(key: seq<Piece>, b: string, numbers: seq<Num>, rest: string)
    requires PiecesOk(key) && Meets(b, numbers, rest)
    ensures Meets(StringText(key) + b, numbers, rest)
  {
    hide Lexemes;
    hide Printed;
    hide StringText;
    assert StringText(key) + b + rest == StringText(key) + (b + rest);
    StringSkips(key, b + rest);
  }

  lemma InertIsMet(s: string, rest: string)
    requires IsInert(s)
    ensures Meets(s, [], rest)
  {
    InertSkips(s, rest);
  }

  lemma GapStops(gap: string, rest: string)
    requires IsGap(gap) && Stops(rest)
    ensures Stops(gap + rest)
  {
    if gap == "" {
      assert gap + rest == rest;
    } else {
      assert gap[0] in gap;
    }
  }

  lemma {:induction false} DocMeets(d: Doc, rest: string)
    requires DocOk(d) && Stops(rest)
    ensures Meets(DocText(d), Numbers(d), rest)
    decreases d, 0
  {
    hide Meets;
    match d
    case Word(text) => InertIsMet(text, rest);
    case Number(n) => NumberMeets(n, rest);
    case Text(pieces) =>
      InertIsMet("", rest);
      StringMeets(pieces, "", [], rest);
      assert StringText(pieces) + "" == StringText(pieces);
    case Array(gap, items) =>
      InertIsMet("]", rest);
      ItemsMeet(items, "]" + rest);
      MeetsNext(ItemsText(items), "]", ItemNumbers(items), [], rest);
      assert ItemNumbers(items) + [] == ItemNumbers(items);
      GapMeets(gap, ItemsText(items) + "]", ItemNumbers(items), rest);
      InertMeets("[", gap + (ItemsText(items) + "]"), ItemNumbers(items), rest);
    case Object(gap, members) =>
      InertIsMet("}", rest);
      MembersMeet(members, "}" + rest);
      MeetsNext(MembersText(members), "}", MemberNumbers(members), [], rest);
      assert MemberNumbers(members) + [] == MemberNumbers(members);
      GapMeets(gap, MembersText(members) + "}", MemberNumbers(members), rest);
      InertMeets("{", gap + (MembersText(members) + "}"), MemberNumbers(members), rest);
  }

  lemma NumberMeets(n: Num, rest: string)
    requires NumberOk(n) && Stops(rest)
    ensures Meets(Print(n), [n], rest)
  {
    NumberIsMet(n, rest);
    assert Printed([n]) == [Print(n)];
  }

  lemma {:induction false} ItemMeets(item: Item, rest: string)
    requires ItemOk(item) && Stops(rest)
    ensures Meets(ItemText(item), OneItem(item), rest)
    decreases item, 1
  {
    hide Meets;
    hide Stops;
    GapStops(item.after, rest);
    DocMeets(item.value, item.after + rest);
    InertIsMet("", rest);
    GapMeets(item.after, "", [], rest);
    assert item.after + "" == item.after;
    MeetsNext(DocText(item.value), item.after, Numbers(item.value), [], rest);
    assert Numbers(item.value) + [] == Numbers(item.value);
    GapMeets(item.before, DocText(item.value) + item.after, Numbers(item.value), rest);
  }

  lemma {:induction false} ItemsMeet(items: seq<Item>, rest: string)
    requires (forall i :: 0 <= i < |items| ==> ItemOk(items[i])) && Stops(rest)
    ensures Meets(ItemsText(items), ItemNumbers(items), rest)
    decreases items, 2
  {
    hide Meets;
    hide Stops;
    if items == [] {
      InertIsMet("", rest);
    } else if |items| == 1 {
      ItemMeets(items[0], rest);
      assert OneItem(items[0]) + ItemNumbers(items[1..]) == OneItem(items[0]);
    } else {
      ItemsMeet(items[1..], rest);
      var tail := "," + ItemsText(items[1..]);
      InertMeets(",", ItemsText(items[1..]), ItemNumbers(items[1..]), rest);
      CommaStops(ItemsText(items[1..]), rest);
      ItemMeets(items[0], tail + rest);
      MeetsNext(ItemText(items[0]), tail, OneItem(items[0]), ItemNumbers(items[1..]), rest);
    }
  }

  lemma CommaStops(text: string, rest: string)
    ensures Stops(("," + text) + rest)
  {
  }

  lemma {:induction false} MemberMeets(member: Member, rest: string)
    requires MemberOk(member) && Stops(rest)
    ensures Meets(MemberText(member), OneMember(member), rest)
    decreases member, 2
  {
    hide Meets;
    hide Stops;
    var numbers := OneItem(member.item);
    ItemMeets(member.item, rest);
    var item := ItemText(member.item);
    InertMeets(":", item, numbers, rest);
    GapMeets(member.middle, ":" + item, numbers, rest);
    StringMeets(member.key, member.middle + (":" + item), numbers, rest);
    GapMeets(member.before, StringText(member.key) + (member.middle + (":" + item)), numbers, rest);
  }

  lemma {:induction false} MembersMeet(members: seq<Member>, rest: string)
    requires (forall i :: 0 <= i < |members| ==> MemberOk(members[i])) && Stops(rest)
    ensures Meets(MembersText(members), MemberNumbers(members), rest)
    decreases members, 3
  {
    hide Meets;
    hide Stops;
    if members == [] {
      InertIsMet("", rest);
    } else if |members| == 1 {
      MemberMeets(members[0], rest);
      assert OneMember(members[0]) + MemberNumbers(members[1..]) == OneMember(members[0]);
    } else {
      MembersMeet(members[1..], rest);
      var tail := "," + MembersText(members[1..]);
      InertMeets(",", MembersText(members[1..]), MemberNumbers(members[1..]), rest);
      CommaStops(MembersText(members[1..]), rest);
      MemberMeets(members[0], tail + rest);
      MeetsNext(MemberText(members[0]), tail, OneMember(members[0]), MemberNumbers(members[1..]), rest);
    }
  }

  /** The scanner's lexemes in a document are the document's numbers, in order. */
  lemma DocumentLexemes(before: string, d: Doc, after: string)
    requires IsGap(before) && DocOk(d) && IsGap(after)
    ensures Lexemes(before + (DocText(d) + after)) == Printed(Numbers(d))
  {
    ItemMeets(Item(before, d, after), "");
    var text := before + (DocText(d) + after);
    assert text + "" == text;
    assert Printed(Numbers(d)) + Lexemes("") == Printed(Numbers(d));
  }

  /** A number the contract of RFC 7493 admits: a safe integer, or a fraction that
      stays one in double precision. */
  ghost predicate Admissible(n: Num, f64: string -> F64) {
    ClassOf(n) == SafeInteger || (ClassOf(n) == Fraction && f64(Print(n)) == Fractional)
  }

  /** A document passes exactly when every number in it is admissible. */
  lemma DocumentAdmittedExactly(before: string, d: Doc, after: string, f64: string -> F64)
    requires IsGap(before) && DocOk(d) && IsGap(after)
    requires forall n :: n in Numbers(d) ==> |Print(n)| <= ISIZE_MAX && ClampIsHarmless(n)
    ensures FirstRefusal(Lexemes(before + (DocText(d) + after)), f64) == Admitted
      <==> forall n :: n in Numbers(d) ==> Admissible(n, f64)
  {
    DocumentLexemes(before, d, after);
    RefusalExactly(Numbers(d), f64);
  }

  lemma {:induction false} RefusalExactly(numbers: seq<Num>, f64: string -> F64)
    requires forall n :: n in numbers ==> |Print(n)| <= ISIZE_MAX && ClampIsHarmless(n)
    ensures FirstRefusal(Printed(numbers), f64) == Admitted <==> forall n :: n in numbers ==> Admissible(n, f64)
  {
    hide CodeClass;
    hide ClassOf;
    hide Print;
    hide ClampIsHarmless;
    if numbers != [] {
      ClassifiedExactly(numbers[0]);
      RefusalExactly(numbers[1..], f64);
      assert Printed(numbers)[1..] == Printed(numbers[1..]);
      assert forall n :: n in numbers <==> n == numbers[0] || n in numbers[1..];
    }
  }
}
