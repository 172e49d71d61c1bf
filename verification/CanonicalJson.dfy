/** The canonical encoder of the version registry (scripts/version_domains.py,
    `canonical_bytes`; RFC 8785 without fractions). */
module CanonicalJson {
  import opened Wrappers
  import opened Decimal
  import opened Numerals
  import opened Sorting
  import opened HashPrefix

  /** A value as the encoder is given it; members in the order they were inserted. */
  datatype Json = Null | Bool(b: bool) | Int(i: int) | Float | Text(s: string) | List(items: seq<Json>) | Dict(members: seq<Member>)
  datatype Member = Member(key: string, value: Json)

  /** What a value is, whatever the order of its members. */
  datatype Pure = PNull | PBool(b: bool) | PInt(i: int) | PFloat | PText(s: string) | PList(items: seq<Pure>) | PDict(members: map<string, Pure>)

  function Meaning(v: Json): Pure
    decreases v
  {
    match v
    case Null => PNull
    case Bool(b) => PBool(b)
    case Int(i) => PInt(i)
    case Float => PFloat
    case Text(s) => PText(s)
    case List(items) => PList(seq(|items|, i requires 0 <= i < |items| => Meaning(items[i])))
    case Dict(members) => PDict(MeaningOf(members))
  }

  function MeaningOf(members: seq<Member>): map<string, Pure>
    decreases members
  {
    if members == [] then map[] else MeaningOf(members[1..])[members[0].key := Meaning(members[0].value)]
  }

  ghost predicate KeysDistinct(members: seq<Member>) {
    forall i, j :: 0 <= i < j < |members| ==> members[i].key != members[j].key
  }

  /** Keys are distinct in every object, as they are in every dictionary. */
  ghost predicate Proper(v: Json)
    decreases v
  {
    match v
    case List(items) => forall i :: 0 <= i < |items| ==> Proper(items[i])
    case Dict(members) => KeysDistinct(members) && forall i :: 0 <= i < |members| ==> Proper(members[i].value)
    case _ => true
  }

  // ----- strings

  function EscapeChar(c: char): string {
    if c == '"' then "\\\""
    else if c == '\\' then "\\\\"
    else if c == '\n' then "\\n"
    else if c == '\r' then "\\r"
    else if c == '\t' then "\\t"
    else if c == '\U{0008}' then "\\b"
    else if c == '\U{000C}' then "\\f"
    else if c < ' ' then "\\u00" + [HexDigit(c as int / 16), HexDigit(c as int % 16)]
    else [c]
  }

  function Escape(s: string): string {
    if s == "" then "" else EscapeChar(s[0]) + Escape(s[1..])
  }

  function Quote(s: string): string { "\"" + (Escape(s) + "\"") }

  // ----- the order of members

  /** The UTF-16 code units of a character. */
  function CodeUnits(c: char): seq<int> {
    var n := c as int;
    if n < 0x10000 then [n] else [0xD800 + (n - 0x10000) / 0x400, 0xDC00 + (n - 0x10000) % 0x400]
  }

  function Utf16(s: string): seq<int> {
    if s == "" then [] else CodeUnits(s[0]) + Utf16(s[1..])
  }

  predicate UnitsLe(a: seq<int>, b: seq<int>) {
    a == [] || (b != [] && (a[0] < b[0] || (a[0] == b[0] && UnitsLe(a[1..], b[1..]))))
  }

  datatype Entry = Entry(key: string, text: Option<string>)

  predicate KeyLe(a: Entry, b: Entry) { UnitsLe(Utf16(a.key), Utf16(b.key)) }

  // ----- the encoder

  function EncodeInt(i: int): string {
    if i < 0 then "-" + Print(0 - i) else Print(i)
  }

  /** The texts separated by commas, then the closing bracket. */
  function Joined(texts: seq<string>, close: string): string {
    if texts == [] then close else texts[0] + More(texts[1..], close)
  }

  function More(texts: seq<string>, close: string): string {
    if texts == [] then close else "," + (texts[0] + More(texts[1..], close))
  }

  function EntryText(e: Entry): string {
    Quote(e.key) + (":" + if e.text.Some? then e.text.value else "")
  }

  function EntryTexts(es: seq<Entry>): (r: seq<string>)
    ensures |r| == |es|
  {
    seq(|es|, i requires 0 <= i < |es| => EntryText(es[i]))
  }

  function Values(texts: seq<Option<string>>): seq<string>
    requires None !in texts
  {
    seq(|texts|, i requires 0 <= i < |texts| => assert texts[i] in texts; texts[i].value)
  }

  /** The canonical text; None is a refusal. */
  function Encode(v: Json): Option<string>
    decreases v
  {
    match v
    case Null => Some("null")
    case Bool(b) => Some(if b then "true" else "false")
    case Int(i) => if i > MAX_EXACT_INTEGER || 0 - i > MAX_EXACT_INTEGER then None else Some(EncodeInt(i))
    case Float => None
    case Text(s) => Some(Quote(s))
    case List(items) =>
      var texts := EncodeItems(items);
      if None in texts then None else Some("[" + Joined(Values(texts), "]"))
    case Dict(members) =>
      var entries := EncodeMembers(members);
      if exists i :: 0 <= i < |entries| && entries[i].text.None? then None
      else Some("{" + Joined(EntryTexts(Sort(KeyLe, entries)), "}"))
  }

  function EncodeItems(items: seq<Json>): (r: seq<Option<string>>)
    ensures |r| == |items|
    decreases items
  {
    seq(|items|, i requires 0 <= i < |items| => Encode(items[i]))
  }

  function EncodeMembers(members: seq<Member>): (r: seq<Entry>)
    ensures |r| == |members|
    decreases members
  {
    seq(|members|, i requires 0 <= i < |members| => Entry(members[i].key, Encode(members[i].value)))
  }

  // ----- what is refused

  /** No number at any depth is a float or beyond 2^53 - 1. */
  ghost predicate Encodable(v: Json)
    decreases v
  {
    match v
    case Int(i) => -9007199254740991 <= i <= 9007199254740991
    case Float => false
    case List(items) => forall i :: 0 <= i < |items| ==> Encodable(items[i])
    case Dict(members) => forall i :: 0 <= i < |members| ==> Encodable(members[i].value)
    case _ => true
  }

  /** A value is refused exactly for a float or an integer beyond the bound. */
  lemma {:induction false} EncodesExactly(v: Json)
    ensures Encode(v).Some? <==> Encodable(v)
    decreases v
  {
    match v
    case List(items) =>
      var texts := EncodeItems(items);
      forall i | 0 <= i < |items| ensures texts[i].Some? <==> Encodable(items[i]) { EncodesExactly(items[i]); }
      if Encode(v).Some? {
        forall i | 0 <= i < |items| ensures Encodable(items[i]) { assert texts[i] in texts; }
      }
    case Dict(members) =>
      forall i | 0 <= i < |members| ensures EncodeMembers(members)[i].text.Some? <==> Encodable(members[i].value) {
        EncodesExactly(members[i].value);
      }
    case _ =>
  }

  // ----- strings keep apart

  /** One escape starts with no other. */
  lemma EscapeCharApart(c: char, d: char, u: string, v: string)
    requires EscapeChar(c) + u == EscapeChar(d) + v
    ensures c == d && u == v
  {
    var a, b := EscapeChar(c) + u, EscapeChar(d) + v;
    assert a[0] == EscapeChar(c)[0] && b[0] == EscapeChar(d)[0];
    if |EscapeChar(c)| > 1 {
      assert a[1] == EscapeChar(c)[1] && b[1] == EscapeChar(d)[1];
    }
    if |EscapeChar(c)| == 6 {
      assert a[4] == EscapeChar(c)[4] && b[4] == EscapeChar(d)[4];
      assert a[5] == EscapeChar(c)[5] && b[5] == EscapeChar(d)[5];
      assert HexValue(a[4]) == c as int / 16 == d as int / 16;
      assert HexValue(a[5]) == c as int % 16 == d as int % 16;
    }
    assert |EscapeChar(c)| == |EscapeChar(d)|;
    assert u == a[|EscapeChar(c)|..] && v == b[|EscapeChar(d)|..];
  }

  lemma EscapeCharStarts(c: char)
    ensures EscapeChar(c) != "" && EscapeChar(c)[0] != '"'
  {
  }

  lemma {:induction false} QuoteApart(s: string, t: string, u: string, v: string)
    requires Quote(s) + u == Quote(t) + v
    ensures s == t && u == v
  {
    Regroup("\"", Escape(s) + "\"", u);
    Regroup("\"", Escape(t) + "\"", v);
    Regroup(Escape(s), "\"", u);
    Regroup(Escape(t), "\"", v);
    hide Escape;
    SameText("\"", Escape(s) + ("\"" + u), Escape(t) + ("\"" + v));
    EscapeApart(s, t, u, v);
  }

  lemma {:induction false} EscapeApart(s: string, t: string, u: string, v: string)
    requires Escape(s) + ("\"" + u) == Escape(t) + ("\"" + v)
    ensures s == t && u == v
    decreases |s|
  {
    hide EscapeChar;
    var x, y := "\"" + u, "\"" + v;
    var a, b := Escape(s) + x, Escape(t) + y;
    if s != "" { EscapeCharStarts(s[0]); assert a[0] == EscapeChar(s[0])[0]; }
    if t != "" { EscapeCharStarts(t[0]); assert b[0] == EscapeChar(t[0])[0]; }
    assert (s == "" ==> a[0] == '"') && (t == "" ==> b[0] == '"');
    if s == "" {
      assert u == a[1..] && v == b[1..];
    } else {
      assert a == EscapeChar(s[0]) + (Escape(s[1..]) + x) && b == EscapeChar(t[0]) + (Escape(t[1..]) + y);
      EscapeCharApart(s[0], t[0], Escape(s[1..]) + x, Escape(t[1..]) + y);
      EscapeApart(s[1..], t[1..], u, v);
      assert s == [s[0]] + s[1..] && t == [t[0]] + t[1..];
    }
  }

  // ----- joining texts

  function Cat(a: string, b: string): string { a + b }

  lemma SameText(t: string, u: string, x: string)
    requires t + u == t + x
    ensures u == x
  {
    assert u == (t + u)[|t|..] && x == (t + x)[|t|..];
  }

  lemma Regroup(a: string, b: string, c: string)
    ensures a + b + c == a + (b + c)
  {
  }

  lemma FirstOf(a: string, b: string)
    requires a != ""
    ensures a + b != "" && (a + b)[0] == a[0]
  {
  }

  // ----- integers keep apart

  /** What may follow a value: nothing, or a character no number goes on with. */
  predicate Delimited(s: string) { s == "" || s[0] == ',' || s[0] == ']' || s[0] == '}' }

  lemma NumeralApart(m: nat, n: nat, u: string, v: string)
    requires Print(m) + u == Print(n) + v && Delimited(u) && Delimited(v)
    ensures m == n && u == v
  {
    hide Print;
    var x, y := Print(m), Print(n);
    RunStops(x, u);
    RunStops(y, v);
    assert x == (x + u)[..|x|] && y == (y + v)[..|y|];
    assert u == (x + u)[|x|..] && v == (y + v)[|y|..];
    assert m == Value(x) && n == Value(y);
  }

  lemma IntApart(i: int, j: int, u: string, v: string)
    requires EncodeInt(i) + u == EncodeInt(j) + v && Delimited(u) && Delimited(v)
    ensures i == j && u == v
  {
    hide Print;
    hide IsNumeral;
    hide Value;
    SameSign(i, j, u, v);
    if i < 0 {
      Regroup("-", Print(0 - i), u);
      Regroup("-", Print(0 - j), v);
      SameText("-", Print(0 - i) + u, Print(0 - j) + v);
      NumeralApart(0 - i, 0 - j, u, v);
    } else {
      NumeralApart(i, j, u, v);
    }
  }

  lemma SameSign(i: int, j: int, u: string, v: string)
    requires EncodeInt(i) + u == EncodeInt(j) + v
    ensures i < 0 <==> j < 0
  {
    hide EncodeInt;
    IntStarts(i);
    IntStarts(j);
    assert (EncodeInt(i) + u)[0] == EncodeInt(i)[0] && (EncodeInt(j) + v)[0] == EncodeInt(j)[0];
  }

  lemma IntStarts(i: int)
    ensures EncodeInt(i) != "" && (if i < 0 then EncodeInt(i)[0] == '-' else IsDigit(EncodeInt(i)[0]))
  {
  }

  // ----- code units

  predicate IsHigh(u: int) { 0xD800 <= u < 0xDC00 }

  predicate IsLow(u: int) { 0xDC00 <= u < 0xE000 }

  /** The code points of a sequence of UTF-16 code units, surrogate pairs joined. */
  ghost function Joined16(us: seq<int>): seq<int> {
    if us == [] then []
    else if |us| > 1 && IsHigh(us[0]) && IsLow(us[1])
    then [0x10000 + (us[0] - 0xD800) * 0x400 + (us[1] - 0xDC00)] + Joined16(us[2..])
    else [us[0]] + Joined16(us[1..])
  }

  ghost function CodePoints(s: string): seq<int> { seq(|s|, i requires 0 <= i < |s| => s[i] as int) }

  /** The units of a string are sixteen bits wide, and its surrogate pairs, joined, are its
      characters. */
  lemma {:induction false} Utf16Joins(s: string)
    ensures Joined16(Utf16(s)) == CodePoints(s)
    ensures forall i :: 0 <= i < |Utf16(s)| ==> 0 <= Utf16(s)[i] < 0x10000
  {
    if s != "" {
      var us, rest, n := CodeUnits(s[0]), Utf16(s[1..]), s[0] as int;
      Utf16Joins(s[1..]);
      assert CodePoints(s) == [n] + CodePoints(s[1..]);
      assert Utf16(s)[|us|..] == rest;
      if n >= 0x10000 {
        assert (n - 0x10000) / 0x400 < 0x400;
        assert Utf16(s)[0] == us[0] && Utf16(s)[1] == us[1];
      }
    }
  }

  /** One sequence stands before another when it is its beginning, or is less at the first
      place where they differ. */
  lemma {:induction false} UnitsLeExactly(a: seq<int>, b: seq<int>)
    ensures UnitsLe(a, b) <==> a <= b || exists k :: 0 <= k < |a| && k < |b| && a[..k] == b[..k] && a[k] < b[k]
  {
    if a != [] && b != [] {
      var x, y := a[1..], b[1..];
      UnitsLeExactly(x, y);
      assert a == [a[0]] + x && b == [b[0]] + y;
      forall k | 0 < k <= |a| && k <= |b| && a[..k] == b[..k] ensures a[0] == b[0] {
        assert a[..k][0] == b[..k][0];
      }
      if a[0] < b[0] { assert a[..0] == b[..0]; }
      if a[0] == b[0] {
        if k :| 0 <= k < |x| && k < |y| && x[..k] == y[..k] && x[k] < y[k] {
          assert a[..k + 1] == [a[0]] + x[..k] && b[..k + 1] == [b[0]] + y[..k] && a[k + 1] < b[k + 1];
        }
        if k :| 0 <= k < |a| && k < |b| && a[..k] == b[..k] && a[k] < b[k] {
          assert k > 0 && x[..k - 1] == a[..k][1..] && y[..k - 1] == b[..k][1..] && x[k - 1] < y[k - 1];
        }
      }
    }
  }

  // ----- the order of members is total and tells keys apart

  lemma CodeUnitsApart(c: char, d: char, u: seq<int>, v: seq<int>)
    requires CodeUnits(c) + u == CodeUnits(d) + v
    ensures c == d && u == v
  {
    var a, b := CodeUnits(c) + u, CodeUnits(d) + v;
    assert a[0] == CodeUnits(c)[0] && b[0] == CodeUnits(d)[0];
    if |CodeUnits(c)| == 2 && |CodeUnits(d)| == 2 {
      assert a[1] == CodeUnits(c)[1] && b[1] == CodeUnits(d)[1];
    }
    assert |CodeUnits(c)| == |CodeUnits(d)|;
    assert u == a[|CodeUnits(c)|..] && v == b[|CodeUnits(d)|..];
    assert c as int == d as int;
  }

  lemma {:induction false} Utf16Apart(s: string, t: string)
    requires Utf16(s) == Utf16(t)
    ensures s == t
  {
    if s != "" && t != "" {
      CodeUnitsApart(s[0], t[0], Utf16(s[1..]), Utf16(t[1..]));
      Utf16Apart(s[1..], t[1..]);
      assert s == [s[0]] + s[1..] && t == [t[0]] + t[1..];
    }
  }

  lemma {:induction false} UnitsLeOrders(a: seq<int>, b: seq<int>)
    ensures UnitsLe(a, b) || UnitsLe(b, a)
    ensures UnitsLe(a, b) && UnitsLe(b, a) ==> a == b
  {
    if a != [] && b != [] {
      UnitsLeOrders(a[1..], b[1..]);
      assert a == [a[0]] + a[1..] && b == [b[0]] + b[1..];
    }
  }

  lemma {:induction false} UnitsLeChains(a: seq<int>, b: seq<int>, c: seq<int>)
    requires UnitsLe(a, b) && UnitsLe(b, c)
    ensures UnitsLe(a, c)
  {
    if a != [] && b != [] && c != [] && a[0] == b[0] == c[0] { UnitsLeChains(a[1..], b[1..], c[1..]); }
  }

  lemma KeyLeIsTotal()
    ensures TotalPreorder(KeyLe)
    ensures forall a, b :: KeyLe(a, b) && KeyLe(b, a) ==> a.key == b.key
  {
    hide UnitsLe;
    hide Utf16;
    forall a, b ensures (KeyLe(a, b) || KeyLe(b, a)) && (KeyLe(a, b) && KeyLe(b, a) ==> a.key == b.key) {
      UnitsLeOrders(Utf16(a.key), Utf16(b.key));
      if KeyLe(a, b) && KeyLe(b, a) { Utf16Apart(a.key, b.key); }
    }
    forall a, b, c | KeyLe(a, b) && KeyLe(b, c) ensures KeyLe(a, c) {
      UnitsLeChains(Utf16(a.key), Utf16(b.key), Utf16(c.key));
    }
  }

  // ----- members and meanings

  lemma {:induction false} MeaningsOf(members: seq<Member>)
    requires KeysDistinct(members)
    ensures forall i :: 0 <= i < |members| ==> members[i].key in MeaningOf(members) && MeaningOf(members)[members[i].key] == Meaning(members[i].value)
    ensures forall k :: k in MeaningOf(members) ==> exists i :: 0 <= i < |members| && members[i].key == k
  {
    hide Meaning;
    if members != [] {
      MeaningsOf(members[1..]);
      forall k | k in MeaningOf(members) ensures exists i :: 0 <= i < |members| && members[i].key == k {
        if k != members[0].key {
          assert k in MeaningOf(members[1..]);
          var i :| 0 <= i < |members| - 1 && members[1..][i].key == k;
          assert members[i + 1].key == k;
        } else {
          assert members[0].key == k;
        }
      }
    }
  }

  /** The entries an object is written as. */
  function SortedEntries(members: seq<Member>): seq<Entry> { Sort(KeyLe, EncodeMembers(members)) }

  lemma SortedFrom(members: seq<Member>, e: Entry)
    requires e in SortedEntries(members)
    ensures exists i :: 0 <= i < |members| && members[i].key == e.key && Encode(members[i].value) == e.text
  {
    hide Encode;
    KeyLeIsTotal();
    SortSorts(KeyLe, EncodeMembers(members));
    SameElements(SortedEntries(members), EncodeMembers(members));
    var i :| 0 <= i < |members| && EncodeMembers(members)[i] == e;
  }

  lemma SortedHas(members: seq<Member>, i: nat)
    requires i < |members|
    ensures Entry(members[i].key, Encode(members[i].value)) in SortedEntries(members)
    ensures |SortedEntries(members)| == |members|
  {
    hide Encode;
    KeyLeIsTotal();
    SortSorts(KeyLe, EncodeMembers(members));
    SameElements(SortedEntries(members), EncodeMembers(members));
    assert EncodeMembers(members)[i] in EncodeMembers(members);
  }

  // ----- the encoding tells values apart

  /** The kind of value a text starts like. */
  function KindOf(c: char): int {
    if c == 'n' then 0 else if c == 't' || c == 'f' then 1 else if c == '-' || IsDigit(c) then 2
    else if c == '"' then 3 else if c == '[' then 4 else if c == '{' then 5 else 6
  }

  lemma StartsLike(v: Json)
    requires Encode(v).Some?
    ensures Encode(v).value != ""
    ensures KindOf(Encode(v).value[0]) == match v case Null => 0 case Bool(_) => 1 case Int(_) => 2 case Float => 6 case Text(_) => 3 case List(_) => 4 case Dict(_) => 5
  {
    if v.Int? { IntStarts(v.i); }
  }

  lemma SameKind(v: Json, w: Json, u: string, x: string)
    requires Encode(v).Some? && Encode(w).Some? && Encode(v).value + u == Encode(w).value + x
    ensures v.Null? == w.Null? && v.Bool? == w.Bool? && v.Int? == w.Int? && v.Text? == w.Text? && v.List? == w.List? && v.Dict? == w.Dict?
  {
    hide Encode;
    hide KindOf;
    StartsLike(v);
    StartsLike(w);
    assert (Encode(v).value + u)[0] == Encode(v).value[0] && (Encode(w).value + x)[0] == Encode(w).value[0];
    if v.Float? || w.Float? { FloatIsRefused(); }
  }

  lemma FloatIsRefused()
    ensures Encode(Float).None?
  {
  }

  /** All the items of a list are written. */
  lemma ItemsWritten(items: seq<Json>)
    requires Encode(List(items)).Some?
    ensures forall i :: 0 <= i < |items| ==> Encode(items[i]).Some?
    ensures Encode(List(items)) == Some("[" + Joined(ItemTexts(items), "]"))
  {
    var texts := EncodeItems(items);
    forall i | 0 <= i < |items| ensures Encode(items[i]).Some? {
      assert texts[i] in texts;
    }
    assert Values(texts) == ItemTexts(items);
  }

  function ItemTexts(items: seq<Json>): (r: seq<string>)
    ensures |r| == |items|
  {
    seq(|items|, i requires 0 <= i < |items| => TextOf(Encode(items[i])))
  }

  function TextOf(r: Option<string>): string { if r.Some? then r.value else "" }

  lemma MembersWritten(members: seq<Member>)
    requires Encode(Dict(members)).Some?
    ensures forall i :: 0 <= i < |members| ==> Encode(members[i].value).Some?
    ensures Encode(Dict(members)) == Some("{" + Joined(EntryTexts(SortedEntries(members)), "}"))
  {
    var entries := EncodeMembers(members);
    forall i | 0 <= i < |members| ensures Encode(members[i].value).Some? {
      assert entries[i].text.Some?;
    }
  }

  /** Equal texts, whatever may follow them, are of equal values. */
  lemma {:induction false} EncodingsApart(v: Json, w: Json, u: string, x: string)
    requires Proper(v) && Proper(w) && Encode(v).Some? && Encode(w).Some? && Delimited(u) && Delimited(x)
    requires Cat(Encode(v).value, u) == Cat(Encode(w).value, x)
    ensures Meaning(v) == Meaning(w) && u == x
    decreases v, 1, 0
  {
    SameKind(v, w, u, x);
    match v
    case Null => SameText("null", u, x);
    case Bool(b) =>
      assert (Encode(v).value + u)[0] == Encode(v).value[0] && (Encode(w).value + x)[0] == Encode(w).value[0];
      SameText(Encode(v).value, u, x);
    case Int(i) => IntApart(i, w.i, u, x);
    case Text(s) => QuoteApart(s, w.s, u, x);
    case List(items) => ListsApart(v, w, u, x);
    case Dict(members) => DictsApart(v, w, u, x);
  }

  lemma {:induction false} ListsApart(v: Json, w: Json, u: string, x: string)
    requires v.List? && w.List? && Proper(v) && Proper(w) && Encode(v).Some? && Encode(w).Some? && Delimited(u) && Delimited(x)
    requires Cat(Encode(v).value, u) == Cat(Encode(w).value, x)
    ensures Meaning(v) == Meaning(w) && u == x
    decreases v, 0, |v.items| + 1
  {
    ItemsWritten(v.items);
    ItemsWritten(w.items);
    var a, b := ItemTexts(v.items), ItemTexts(w.items);
    hide Encode;
    hide Joined;
    Regroup("[", Joined(a, "]"), u);
    Regroup("[", Joined(b, "]"), x);
    SameText("[", Joined(a, "]") + u, Joined(b, "]") + x);
    ItemsApart(v, w, 0, u, x);
    ListMeaning(v, w);
  }

  lemma ListMeaning(v: Json, w: Json)
    requires v.List? && w.List? && |v.items| == |w.items|
    requires forall i :: 0 <= i < |v.items| ==> Meaning(v.items[i]) == Meaning(w.items[i])
    ensures Meaning(v) == Meaning(w)
  {
    assert Meaning(v).items == Meaning(w).items;
  }

  /** What is written from the `k`th text on. */
  function From(texts: seq<string>, k: nat, close: string): string
    requires k <= |texts|
  {
    if k == 0 then Joined(texts, close) else More(texts[k..], close)
  }

  lemma FromStep(texts: seq<string>, k: nat, close: string)
    requires k <= |texts|
    ensures k == |texts| ==> From(texts, k, close) == close
    ensures k < |texts| ==> From(texts, k, close) == (if k > 0 then "," else "") + (texts[k] + From(texts, k + 1, close))
  {
  }

  lemma FromIsDelimited(texts: seq<string>, k: nat, close: string, u: string)
    requires 0 < k <= |texts| && (close == "]" || close == "}")
    ensures Delimited(Cat(From(texts, k, close), u))
  {
  }

  /** None of the texts can be taken for a closing bracket. */
  ghost predicate Unbracketed(texts: seq<string>) {
    forall i :: 0 <= i < |texts| ==> texts[i] != "" && texts[i][0] != ']' && texts[i][0] != '}'
  }

  /** Two lists written alike from the `k`th item on either both end there or both go on. */
  lemma BothGoOn(a: seq<string>, b: seq<string>, k: nat, close: string, u: string, x: string)
    requires k <= |a| && k <= |b| && (close == "]" || close == "}")
    requires Cat(From(a, k, close), u) == Cat(From(b, k, close), x)
    requires Unbracketed(a) && Unbracketed(b)
    ensures k == |a| <==> k == |b|
    ensures k == |a| ==> u == x
    ensures k < |a| ==> Cat(a[k], Cat(From(a, k + 1, close), u)) == Cat(b[k], Cat(From(b, k + 1, close), x))
  {
    Begins(a, k, close, u);
    Begins(b, k, close, x);
    FromStep(a, k, close);
    FromStep(b, k, close);
    hide From;
    hide Unbracketed;
    if k == |a| {
      SameText(close, u, x);
    } else {
      var comma := if k > 0 then "," else "";
      Regroup(comma, a[k] + From(a, k + 1, close), u);
      Regroup(a[k], From(a, k + 1, close), u);
      Regroup(comma, b[k] + From(b, k + 1, close), x);
      Regroup(b[k], From(b, k + 1, close), x);
      SameText(comma, a[k] + (From(a, k + 1, close) + u), b[k] + (From(b, k + 1, close) + x));
    }
  }

  lemma Begins(a: seq<string>, k: nat, close: string, u: string)
    requires k <= |a| && (close == "]" || close == "}") && Unbracketed(a)
    ensures From(a, k, close) + u != ""
    ensures (From(a, k, close) + u)[0] == close[0] <==> k == |a|
  {
    FromStep(a, k, close);
    hide From;
    if k == |a| {
      FirstOf(close, u);
    } else {
      var rest := a[k] + From(a, k + 1, close);
      FirstOf(a[k], From(a, k + 1, close));
      if k > 0 { FirstOf(",", rest); } else { assert "" + rest == rest; }
      FirstOf(From(a, k, close), u);
    }
  }

  lemma ItemsUnbracketed(items: seq<Json>)
    requires forall i :: 0 <= i < |items| ==> Encode(items[i]).Some?
    ensures Unbracketed(ItemTexts(items))
  {
    forall i | 0 <= i < |items| ensures ItemTexts(items)[i] != "" && ItemTexts(items)[i][0] != ']' && ItemTexts(items)[i][0] != '}' {
      NoBracketStarts(items[i]);
    }
  }

  lemma EntriesUnbracketed(es: seq<Entry>)
    ensures Unbracketed(EntryTexts(es))
  {
    forall i | 0 <= i < |es| ensures EntryTexts(es)[i] != "" && EntryTexts(es)[i][0] == '"' {
      FirstOf(Quote(es[i].key), ":" + if es[i].text.Some? then es[i].text.value else "");
    }
  }

  lemma NoBracketStarts(v: Json)
    requires Encode(v).Some?
    ensures Encode(v).value != "" && Encode(v).value[0] != ']' && Encode(v).value[0] != '}'
  {
    hide Encode;
    if v.Float? { FloatIsRefused(); }
    StartsLike(v);
  }

  /** The rest of two lists written alike from the `k`th item on. */
  lemma ItemStep(v: Json, w: Json, k: nat, u: string, x: string)
    requires v.List? && w.List? && Encode(v).Some? && Encode(w).Some?
    requires k <= |v.items| && k <= |w.items|
    requires Cat(From(ItemTexts(v.items), k, "]"), u) == Cat(From(ItemTexts(w.items), k, "]"), x)
    ensures k == |v.items| <==> k == |w.items|
    ensures k == |v.items| ==> u == x
    ensures k < |v.items| ==>
      var y, z := Cat(From(ItemTexts(v.items), k + 1, "]"), u), Cat(From(ItemTexts(w.items), k + 1, "]"), x);
      && Encode(v.items[k]).Some? && Encode(w.items[k]).Some? && Delimited(y) && Delimited(z)
      && Cat(Encode(v.items[k]).value, y) == Cat(Encode(w.items[k]).value, z)
  {
    ItemsWritten(v.items);
    ItemsWritten(w.items);
    var a, b := ItemTexts(v.items), ItemTexts(w.items);
    ItemsUnbracketed(v.items);
    ItemsUnbracketed(w.items);
    hide Encode;
    hide From;
    hide Delimited;
    hide Unbracketed;
    hide Joined;
    hide Cat;
    BothGoOn(a, b, k, "]", u, x);
    if k < |a| {
      FromIsDelimited(a, k + 1, "]", u);
      FromIsDelimited(b, k + 1, "]", x);
    }
  }

  lemma {:induction false} ItemsApart(v: Json, w: Json, k: nat, u: string, x: string)
    requires v.List? && w.List? && Proper(v) && Proper(w) && Encode(v).Some? && Encode(w).Some? && Delimited(u) && Delimited(x)
    requires k <= |v.items| && k <= |w.items|
    requires Cat(From(ItemTexts(v.items), k, "]"), u) == Cat(From(ItemTexts(w.items), k, "]"), x)
    ensures |v.items| == |w.items| && u == x
    ensures forall i :: k <= i < |v.items| ==> Meaning(v.items[i]) == Meaning(w.items[i])
    decreases v, 0, |v.items| - k
  {
    hide Encode;
    hide Meaning;
    hide From;
    hide Delimited;
    hide ItemTexts;
    hide Cat;
    ItemStep(v, w, k, u, x);
    if k < |v.items| {
      var y, z := Cat(From(ItemTexts(v.items), k + 1, "]"), u), Cat(From(ItemTexts(w.items), k + 1, "]"), x);
      EncodingsApart(v.items[k], w.items[k], y, z);
      ItemsApart(v, w, k + 1, u, x);
    }
  }

  lemma {:induction false} DictsApart(v: Json, w: Json, u: string, x: string)
    requires v.Dict? && w.Dict? && Proper(v) && Proper(w) && Encode(v).Some? && Encode(w).Some? && Delimited(u) && Delimited(x)
    requires Cat(Encode(v).value, u) == Cat(Encode(w).value, x)
    ensures Meaning(v) == Meaning(w) && u == x
    decreases v, 0, |SortedEntries(v.members)| + 1
  {
    MembersWritten(v.members);
    MembersWritten(w.members);
    var es, fs := SortedEntries(v.members), SortedEntries(w.members);
    var a, b := EntryTexts(es), EntryTexts(fs);
    hide Encode;
    hide SortedEntries;
    hide Meaning;
    hide MeaningOf;
    hide Joined;
    hide EntryTexts;
    Regroup("{", Joined(a, "}"), u);
    Regroup("{", Joined(b, "}"), x);
    SameText("{", Joined(a, "}") + u, Joined(b, "}") + x);
    MembersApart(v, w, 0, u, x);
    SameMembers(v.members, w.members);
    DictMeaning(v);
    DictMeaning(w);
  }

  lemma DictMeaning(v: Json)
    requires v.Dict?
    ensures Meaning(v) == PDict(MeaningOf(v.members))
  {
  }

  /** Entry by entry, the same key with the same meaning. */
  ghost predicate EntriesMatch(ms: seq<Member>, ns: seq<Member>, es: seq<Entry>, fs: seq<Entry>, k: nat) {
    |es| == |fs| && forall i :: k <= i < |es| ==> EntryMatches(ms, ns, es[i].key, fs[i].key)
  }

  ghost predicate EntryMatches(ms: seq<Member>, ns: seq<Member>, key: string, other: string) {
    key == other && key in MeaningOf(ms) && key in MeaningOf(ns) && MeaningOf(ms)[key] == MeaningOf(ns)[key]
  }

  lemma SameMembers(ms: seq<Member>, ns: seq<Member>)
    requires KeysDistinct(ms) && KeysDistinct(ns)
    requires EntriesMatch(ms, ns, SortedEntries(ms), SortedEntries(ns), 0)
    ensures MeaningOf(ms) == MeaningOf(ns)
  {
    hide MeaningOf;
    hide SortedEntries;
    MeaningsOf(ms);
    MeaningsOf(ns);
    var es, fs := SortedEntries(ms), SortedEntries(ns);
    forall k | k in MeaningOf(ms) ensures k in MeaningOf(ns) && MeaningOf(ms)[k] == MeaningOf(ns)[k] {
      var i :| 0 <= i < |ms| && ms[i].key == k;
      SortedHas(ms, i);
      var j :| 0 <= j < |es| && es[j] == Entry(ms[i].key, Encode(ms[i].value));
      assert EntryMatches(ms, ns, es[j].key, fs[j].key);
    }
    forall k | k in MeaningOf(ns) ensures k in MeaningOf(ms) {
      var i :| 0 <= i < |ns| && ns[i].key == k;
      SortedHas(ns, i);
      var j :| 0 <= j < |fs| && fs[j] == Entry(ns[i].key, Encode(ns[i].value));
      assert EntryMatches(ms, ns, es[j].key, fs[j].key);
    }
  }

  /** The rest of two objects written alike from the `k`th member on. */
  lemma MemberStep(v: Json, w: Json, k: nat, u: string, x: string) returns (i: nat, j: nat)
    requires v.Dict? && w.Dict? && Encode(v).Some? && Encode(w).Some?
    requires k <= |SortedEntries(v.members)| && k <= |SortedEntries(w.members)|
    requires Cat(From(EntryTexts(SortedEntries(v.members)), k, "}"), u) == Cat(From(EntryTexts(SortedEntries(w.members)), k, "}"), x)
    ensures k == |SortedEntries(v.members)| <==> k == |SortedEntries(w.members)|
    ensures k == |SortedEntries(v.members)| ==> u == x
    ensures k < |SortedEntries(v.members)| ==>
      var y, z := Cat(From(EntryTexts(SortedEntries(v.members)), k + 1, "}"), u), Cat(From(EntryTexts(SortedEntries(w.members)), k + 1, "}"), x);
      && i < |v.members| && j < |w.members|
      && SortedEntries(v.members)[k].key == v.members[i].key == w.members[j].key == SortedEntries(w.members)[k].key
      && Encode(v.members[i].value).Some? && Encode(w.members[j].value).Some? && Delimited(y) && Delimited(z)
      && Cat(Encode(v.members[i].value).value, y) == Cat(Encode(w.members[j].value).value, z)
  {
    var es, fs := SortedEntries(v.members), SortedEntries(w.members);
    var a, b := EntryTexts(es), EntryTexts(fs);
    EntriesUnbracketed(es);
    EntriesUnbracketed(fs);
    hide Encode;
    hide From;
    hide Delimited;
    hide SortedEntries;
    hide Unbracketed;
    hide EntryText;
    hide Cat;
    i, j := 0, 0;
    BothGoOn(a, b, k, "}", u, x);
    if k < |a| {
      FromIsDelimited(a, k + 1, "}", u);
      FromIsDelimited(b, k + 1, "}", x);
      i := MemberOfEntry(v, k);
      j := MemberOfEntry(w, k);
      ValueTexts(es[k], fs[k], Cat(From(a, k + 1, "}"), u), Cat(From(b, k + 1, "}"), x));
    }
  }

  lemma {:induction false} MembersApart(v: Json, w: Json, k: nat, u: string, x: string)
    requires v.Dict? && w.Dict? && Proper(v) && Proper(w) && Encode(v).Some? && Encode(w).Some? && Delimited(u) && Delimited(x)
    requires k <= |SortedEntries(v.members)| && k <= |SortedEntries(w.members)|
    requires Cat(From(EntryTexts(SortedEntries(v.members)), k, "}"), u) == Cat(From(EntryTexts(SortedEntries(w.members)), k, "}"), x)
    ensures EntriesMatch(v.members, w.members, SortedEntries(v.members), SortedEntries(w.members), k) && u == x
    decreases v, 0, |SortedEntries(v.members)| - k
  {
    hide Encode;
    hide From;
    hide Delimited;
    hide SortedEntries;
    hide EntryTexts;
    hide MeaningOf;
    hide Meaning;
    hide Cat;
    var i, j := MemberStep(v, w, k, u, x);
    if k < |SortedEntries(v.members)| {
      var y, z := Cat(From(EntryTexts(SortedEntries(v.members)), k + 1, "}"), u), Cat(From(EntryTexts(SortedEntries(w.members)), k + 1, "}"), x);
      EncodingsApart(v.members[i].value, w.members[j].value, y, z);
      MeaningAt(v.members, i);
      MeaningAt(w.members, j);
      MembersApart(v, w, k + 1, u, x);
    }
  }

  lemma MeaningAt(members: seq<Member>, i: nat)
    requires KeysDistinct(members) && i < |members|
    ensures members[i].key in MeaningOf(members) && MeaningOf(members)[members[i].key] == Meaning(members[i].value)
  {
    MeaningsOf(members);
  }

  /** The member an entry was written from. */
  lemma MemberOfEntry(v: Json, k: nat) returns (i: nat)
    requires v.Dict? && Encode(v).Some? && k < |SortedEntries(v.members)|
    ensures i < |v.members| && v.members[i].key == SortedEntries(v.members)[k].key
    ensures Encode(v.members[i].value).Some? && Encode(v.members[i].value) == SortedEntries(v.members)[k].text
  {
    hide SortedEntries;
    MembersWritten(v.members);
    var e := SortedEntries(v.members)[k];
    SortedFrom(v.members, e);
    i :| 0 <= i < |v.members| && v.members[i].key == e.key && Encode(v.members[i].value) == e.text;
  }

  /** Equal entries have the same key, and their values are written alike. */
  lemma ValueTexts(e: Entry, f: Entry, y: string, z: string)
    requires e.text.Some? && f.text.Some? && Cat(EntryText(e), y) == Cat(EntryText(f), z)
    ensures e.key == f.key && Cat(e.text.value, y) == Cat(f.text.value, z)
  {
    hide Quote;
    var s, t := ":" + e.text.value, ":" + f.text.value;
    Regroup(Quote(e.key), s, y);
    Regroup(Quote(f.key), t, z);
    QuoteApart(e.key, f.key, s + y, t + z);
    Regroup(":", e.text.value, y);
    Regroup(":", f.text.value, z);
    SameText(":", e.text.value + y, f.text.value + z);
  }

  // ----- equal values are written alike

  /** The order entries are inserted in does not show once they are sorted. */
  lemma SortForgetsOrder(es: seq<Entry>, fs: seq<Entry>)
    requires forall i, j :: 0 <= i < j < |es| ==> es[i].key != es[j].key
    requires forall i, j :: 0 <= i < j < |fs| ==> fs[i].key != fs[j].key
    requires forall e :: e in es <==> e in fs
    ensures Sort(KeyLe, es) == Sort(KeyLe, fs)
  {
    KeyLeIsTotal();
    SameListing(es, fs);
    SortSorts(KeyLe, es);
    SortSorts(KeyLe, fs);
    var a := Sort(KeyLe, es);
    SameElements(a, es);
    hide KeyLe;
    forall x, y | x in a && y in a && KeyLe(x, y) && KeyLe(y, x) ensures x == y {
      var i :| 0 <= i < |es| && es[i] == x;
      var j :| 0 <= j < |es| && es[j] == y;
    }
    SortedIsUnique(KeyLe, a, Sort(KeyLe, fs));
  }

  /** Each member of one object is a member of the other, with the same text. */
  lemma {:induction false} EqualMembers(v: Json, w: Json)
    requires v.Dict? && w.Dict? && Proper(v) && Proper(w) && Meaning(v) == Meaning(w)
    ensures forall e :: e in EncodeMembers(v.members) ==> e in EncodeMembers(w.members)
    decreases v, 0
  {
    hide Encode;
    DictMeaning(v);
    DictMeaning(w);
    MeaningsOf(v.members);
    MeaningsOf(w.members);
    hide Meaning;
    hide MeaningOf;
    forall e | e in EncodeMembers(v.members) ensures e in EncodeMembers(w.members) {
      var i :| 0 <= i < |v.members| && EncodeMembers(v.members)[i] == e;
      assert v.members[i].key in MeaningOf(w.members);
      var j :| 0 <= j < |w.members| && w.members[j].key == v.members[i].key;
      EqualValues(v.members[i].value, w.members[j].value);
      assert EncodeMembers(w.members)[j] == e;
    }
  }

  /** The text depends on the meaning alone: not on the order members were inserted in. */
  lemma {:induction false} EqualValues(v: Json, w: Json)
    requires Proper(v) && Proper(w) && Meaning(v) == Meaning(w)
    ensures Encode(v) == Encode(w)
    decreases v, 1
  {
    if v.List? {
      assert |v.items| == |Meaning(v).items| == |Meaning(w).items| == |w.items|;
      forall i | 0 <= i < |v.items| ensures Encode(v.items[i]) == Encode(w.items[i]) {
        assert Meaning(v.items[i]) == Meaning(v).items[i] == Meaning(w).items[i] == Meaning(w.items[i]);
        EqualValues(v.items[i], w.items[i]);
      }
      assert EncodeItems(v.items) == EncodeItems(w.items);
    } else if v.Dict? {
      EqualMembers(v, w);
      MembersBack(w, v);
      var es, fs := EncodeMembers(v.members), EncodeMembers(w.members);
      SortForgetsOrder(es, fs);
      RefusedTogether(es, fs);
    }
  }

  lemma {:induction false} MembersBack(w: Json, v: Json)
    requires v.Dict? && w.Dict? && Proper(v) && Proper(w) && Meaning(v) == Meaning(w)
    ensures forall e :: e in EncodeMembers(w.members) ==> e in EncodeMembers(v.members)
    decreases v, 0
  {
    hide Encode;
    DictMeaning(v);
    DictMeaning(w);
    MeaningsOf(v.members);
    MeaningsOf(w.members);
    hide Meaning;
    hide MeaningOf;
    forall e | e in EncodeMembers(w.members) ensures e in EncodeMembers(v.members) {
      var j :| 0 <= j < |w.members| && EncodeMembers(w.members)[j] == e;
      assert w.members[j].key in MeaningOf(v.members);
      var i :| 0 <= i < |v.members| && v.members[i].key == w.members[j].key;
      EqualValues(v.members[i].value, w.members[j].value);
      assert EncodeMembers(v.members)[i] == e;
    }
  }

  lemma RefusedTogether(es: seq<Entry>, fs: seq<Entry>)
    requires forall e :: e in es <==> e in fs
    ensures (exists i :: 0 <= i < |es| && es[i].text.None?) <==> (exists i :: 0 <= i < |fs| && fs[i].text.None?)
  {
    if i :| 0 <= i < |es| && es[i].text.None? {
      assert es[i] in fs;
    }
    if i :| 0 <= i < |fs| && fs[i].text.None? {
      assert fs[i] in es;
    }
  }

  /** Two values are written alike exactly when they are equal up to the order of their
      members, at every depth. */
  lemma CanonicalExactly(v: Json, w: Json)
    requires Proper(v) && Proper(w) && Encode(v).Some?
    ensures Encode(v) == Encode(w) <==> Meaning(v) == Meaning(w)
  {
    hide Encode;
    hide Meaning;
    hide Proper;
    if Meaning(v) == Meaning(w) { EqualValues(v, w); }
    if Encode(v) == Encode(w) { EncodingsApart(v, w, "", ""); }
  }

  /** Members are written once each, in UTF-16 order. */
  lemma MembersInOrder(members: seq<Member>)
    requires KeysDistinct(members)
    ensures var es := SortedEntries(members);
      |es| == |members| && forall i, j :: 0 <= i < j < |es| ==> UnitsLe(Utf16(es[i].key), Utf16(es[j].key)) && es[i].key != es[j].key
  {
    hide Encode;
    hide Utf16;
    KeyLeIsTotal();
    var entries := EncodeMembers(members);
    SortSorts(KeyLe, entries);
    var es := SortedEntries(members);
    DistinctSurvives(entries, es);
    SameElements(entries, es);
    forall i, j | 0 <= i < j < |es| ensures UnitsLe(Utf16(es[i].key), Utf16(es[j].key)) && es[i].key != es[j].key {
      assert KeyLe(es[i], es[j]) && es[i] in entries && es[j] in entries;
      var a :| 0 <= a < |entries| && entries[a] == es[i];
      var b :| 0 <= b < |entries| && entries[b] == es[j];
      assert a != b;
    }
  }
}
