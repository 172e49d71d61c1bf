/** The canonical text of the version registry (scripts/version_domains.py,
    `canonical_bytes`) is JSON by the grammar of RFC 8259, and says its value. */
module CanonicalDocument {
  import opened Wrappers
  import opened Decimal
  import Numerals
  import opened HashPrefix
  import N = NumberMeaning
  import opened JsonDocument
  import C = CanonicalJson

  // ----- what a document says

  /** The value of a hexadecimal digit of either case. */
  function HexDigitValue(c: char): nat
    requires IsHex(c)
  {
    if c <= '9' then c as int - '0' as int else if c <= 'F' then c as int - 'A' as int + 10 else c as int - 'a' as int + 10
  }

  function HexNumber(hex: string): nat
    requires |hex| == 4 && forall i :: 0 <= i < 4 ==> IsHex(hex[i])
  {
    ((HexDigitValue(hex[0]) * 16 + HexDigitValue(hex[1])) * 16 + HexDigitValue(hex[2])) * 16 + HexDigitValue(hex[3])
  }

  /** The character a piece of a string stands for; None is half a surrogate pair. */
  function PieceChar(p: Piece): Option<char>
    requires PieceOk(p)
  {
    match p
    case Plain(c) => Some(c)
    case Short(c) =>
      Some(if c == 'b' then '\U{0008}' else if c == 'f' then '\U{000C}' else if c == 'n' then '\n'
           else if c == 'r' then '\r' else if c == 't' then '\t' else c)
    case Unicode(hex) =>
      var n := HexNumber(hex);
      if n < 0xD800 || 0xE000 <= n < 0x10000 then Some(n as char) else None
  }

  /** The pieces stand for the characters of the string, one each. */
  ghost predicate Spells(pieces: seq<Piece>, s: string) {
    |pieces| == |s| && forall i :: 0 <= i < |s| ==> PieceOk(pieces[i]) && PieceChar(pieces[i]) == Some(s[i])
  }

  /** The document says the value: words and numbers by name and numeral, strings piece by
      piece, items in order, and each member once under its key. */
  ghost predicate Means(d: Doc, p: C.Pure)
    decreases d
  {
    match d
    case Word(text) =>
      (text == "null" && p == C.PNull) || (text == "true" && p == C.PBool(true)) || (text == "false" && p == C.PBool(false))
    case Number(n) =>
      if n.fraction.None? && n.exponent.None?
      then p == C.PInt(if n.negative then 0 - Value(n.integer) else Value(n.integer))
      else p == C.PFloat
    case Text(pieces) => p.PText? && Spells(pieces, p.s)
    case Array(_, items) => p.PList? && |p.items| == |items| && forall i :: 0 <= i < |items| ==> ItemMeans(items[i], p.items[i])
    case Object(_, members) => exists keys: seq<string> :: MembersMean(members, keys, p)
  }

  ghost predicate MembersMean(members: seq<Member>, keys: seq<string>, p: C.Pure)
    decreases members
  {
    && p.PDict? && Keyed(members, keys, p.members.Keys)
    && forall i :: 0 <= i < |members| ==> keys[i] in p.members && MemberMeans(members[i], p.members[keys[i]])
  }

  ghost predicate ItemMeans(item: Item, p: C.Pure)
    decreases item
  {
    Means(item.value, p)
  }

  ghost predicate MemberMeans(member: Member, p: C.Pure)
    decreases member
  {
    ItemMeans(member.item, p)
  }

  /** The members' keys, none twice and none left out. */
  ghost predicate Keyed(members: seq<Member>, keys: seq<string>, all: set<string>) {
    && |keys| == |members|
    && (forall i :: 0 <= i < |members| ==> Spells(members[i].key, keys[i]))
    && (forall i, j :: 0 <= i < j < |keys| ==> keys[i] != keys[j])
    && (forall k :: k in all <==> k in keys)
  }

  // ----- the canonical way of writing

  /** The shortest escape of its character, hexadecimal digits in lower case. */
  ghost predicate PieceTight(p: Piece) {
    match p
    case Plain(_) => true
    case Short(c) => c != '/'
    case Unicode(hex) =>
      PieceOk(p) && HexNumber(hex) < 0x20 && HexNumber(hex) !in {8, 9, 10, 12, 13}
      && forall i :: 0 <= i < 4 ==> !('A' <= hex[i] <= 'F')
  }

  ghost predicate PiecesTight(pieces: seq<Piece>) { forall i :: 0 <= i < |pieces| ==> PieceTight(pieces[i]) }

  /** No whitespace anywhere and every escape the canonical one. */
  ghost predicate Tight(d: Doc)
    decreases d
  {
    match d
    case Text(pieces) => PiecesTight(pieces)
    case Array(gap, items) => gap == "" && forall i :: 0 <= i < |items| ==> ItemTight(items[i])
    case Object(gap, members) => gap == "" && forall i :: 0 <= i < |members| ==> MemberTight(members[i])
    case _ => true
  }

  ghost predicate ItemTight(item: Item)
    decreases item
  {
    item.before == "" && item.after == "" && Tight(item.value)
  }

  ghost predicate MemberTight(member: Member)
    decreases member
  {
    member.before == "" && member.middle == "" && PiecesTight(member.key) && ItemTight(member.item)
  }

  // ----- strings

  function PieceOf(c: char): Piece {
    if c == '"' || c == '\\' then Short(c)
    else if c == '\n' then Short('n')
    else if c == '\r' then Short('r')
    else if c == '\t' then Short('t')
    else if c == '\U{0008}' then Short('b')
    else if c == '\U{000C}' then Short('f')
    else if c < ' ' then Unicode("00" + [HexDigit(c as int / 16), HexDigit(c as int % 16)])
    else Plain(c)
  }

  lemma PieceOfChar(c: char)
    ensures PieceOk(PieceOf(c)) && PieceChar(PieceOf(c)) == Some(c) && PieceTight(PieceOf(c))
    ensures PieceText(PieceOf(c)) == C.EscapeChar(c)
  {
    if c < ' ' && PieceOf(c).Unicode? { ControlPiece(c); }
  }

  lemma HexDigitMeans(n: nat)
    requires n < 16
    ensures IsHex(HexDigit(n)) && HexDigitValue(HexDigit(n)) == n && !('A' <= HexDigit(n) <= 'F')
  {
  }

  lemma ControlPiece(c: char)
    requires c < ' '
    ensures var hex := "00" + [HexDigit(c as int / 16), HexDigit(c as int % 16)];
      && PieceOk(Unicode(hex)) && HexNumber(hex) == c as int && (forall i :: 0 <= i < 4 ==> !('A' <= hex[i] <= 'F'))
      && PieceText(Unicode(hex)) == "\\u00" + [HexDigit(c as int / 16), HexDigit(c as int % 16)]
  {
    HexDigitMeans(c as int / 16);
    HexDigitMeans(c as int % 16);
    var hex := "00" + [HexDigit(c as int / 16), HexDigit(c as int % 16)];
    assert HexDigitValue(hex[0]) == 0 && HexDigitValue(hex[1]) == 0;
    assert "\\u" + hex == "\\u00" + [HexDigit(c as int / 16), HexDigit(c as int % 16)];
  }

  function PiecesOf(s: string): seq<Piece> { seq(|s|, i requires 0 <= i < |s| => PieceOf(s[i])) }

  lemma {:induction false} PiecesOfString(s: string)
    ensures PiecesOk(PiecesOf(s)) && PiecesTight(PiecesOf(s)) && Spells(PiecesOf(s), s)
    ensures PiecesText(PiecesOf(s)) == C.Escape(s)
  {
    hide PieceOf;
    hide PieceText;
    hide C.EscapeChar;
    hide PieceTight;
    hide PieceOk;
    hide PieceChar;
    forall i | 0 <= i < |s| ensures PieceOk(PieceOf(s[i])) && PieceChar(PieceOf(s[i])) == Some(s[i]) && PieceTight(PieceOf(s[i])) {
      PieceOfChar(s[i]);
    }
    if s != "" {
      PieceOfChar(s[0]);
      PiecesOfString(s[1..]);
      assert PiecesOf(s)[0] == PieceOf(s[0]) && PiecesOf(s)[1..] == PiecesOf(s[1..]);
    }
  }

  lemma StringOf(s: string)
    ensures PiecesOk(PiecesOf(s)) && PiecesTight(PiecesOf(s)) && Spells(PiecesOf(s), s)
    ensures StringText(PiecesOf(s)) == C.Quote(s)
  {
    PiecesOfString(s);
  }

  // ----- numbers

  lemma NumberOf(i: int) returns (n: N.Num)
    ensures NumberOk(n) && n.fraction.None? && n.exponent.None? && N.Print(n) == C.EncodeInt(i)
    ensures i == if n.negative then 0 - Value(n.integer) else Value(n.integer)
  {
    var digits := Numerals.Print(if i < 0 then 0 - i else i);
    n := N.Num(i < 0, digits, None, None);
    assert digits + "" == digits && "" + digits == digits;
  }

  // ----- items and members

  /** The items written are the texts joined by commas. */
  lemma {:induction false} ItemsAreJoined(items: seq<Item>, texts: seq<string>)
    requires |items| == |texts| && forall i :: 0 <= i < |items| ==> ItemText(items[i]) == texts[i]
    ensures ItemsText(items) + "]" == C.Joined(texts, "]")
    decreases |items|
  {
    hide ItemText;
    if items == [] {
      assert ItemsText(items) + "]" == "]";
    } else if |items| == 1 {
      assert texts[1..] == [];
    } else {
      ItemsAreJoined(items[1..], texts[1..]);
      Regroup3(texts[0], ItemsText(items[1..]), "]");
      assert C.More(texts[1..], "]") == "," + C.Joined(texts[1..], "]");
    }
  }

  lemma {:induction false} MembersAreJoined(members: seq<Member>, texts: seq<string>)
    requires |members| == |texts| && forall i :: 0 <= i < |members| ==> MemberText(members[i]) == texts[i]
    ensures MembersText(members) + "}" == C.Joined(texts, "}")
    decreases |members|
  {
    hide MemberText;
    if members == [] {
      assert MembersText(members) + "}" == "}";
    } else if |members| == 1 {
      assert texts[1..] == [];
    } else {
      MembersAreJoined(members[1..], texts[1..]);
      Regroup3(texts[0], MembersText(members[1..]), "}");
      assert C.More(texts[1..], "}") == "," + C.Joined(texts[1..], "}");
    }
  }

  lemma Regroup3(a: string, b: string, c: string)
    ensures (a + ("," + b)) + c == a + ("," + (b + c))
  {
  }

  lemma BareItem(d: Doc)
    ensures ItemText(Item("", d, "")) == DocText(d)
  {
    hide DocText;
    assert DocText(d) + "" == DocText(d) && "" + DocText(d) == DocText(d);
  }

  lemma BareMember(key: string, d: Doc)
    ensures MemberText(Member("", PiecesOf(key), "", Item("", d, ""))) == C.Quote(key) + (":" + DocText(d))
  {
    StringOf(key);
    BareItem(d);
    hide StringText;
    hide C.Quote;
    hide ItemText;
    hide DocText;
    var tail := ":" + DocText(d);
    assert "" + tail == tail;
    assert "" + (C.Quote(key) + tail) == C.Quote(key) + tail;
  }

  // ----- values

  /** A document that says the value and is written tight. */
  ghost predicate Writes(d: Doc, v: C.Json) {
    DocOk(d) && Tight(d) && C.Encode(v) == Some(DocText(d)) && Means(d, C.Meaning(v))
  }

  /** Whatever is encoded is a JSON text, without whitespace and with canonical escapes,
      that says the value. */
  lemma {:induction false} CanonicalIsJson(v: C.Json) returns (d: Doc)
    requires C.Proper(v) && C.Encode(v).Some?
    ensures DocOk(d) && Tight(d) && DocText(d) == C.Encode(v).value && Means(d, C.Meaning(v))
    decreases v, 1
  {
    match v
    case Null => d := Word("null");
    case Bool(b) => d := Word(if b then "true" else "false");
    case Int(i) =>
      var n := NumberOf(i);
      d := Number(n);
    case Float =>
      C.FloatIsRefused();
      d := Word("null");
    case Text(s) =>
      StringOf(s);
      d := Text(PiecesOf(s));
    case List(items) => d := ListIsJson(v);
    case Dict(members) => d := DictIsJson(v);
  }

  lemma {:induction false} ListIsJson(v: C.Json) returns (d: Doc)
    requires v.List? && C.Proper(v) && C.Encode(v).Some?
    ensures Writes(d, v)
    decreases v, 0, |v.items| + 1
  {
    C.ItemsWritten(v.items);
    var docs := ItemDocs(v, |v.items|);
    d := Array("", docs);
    ItemsAreJoined(docs, C.ItemTexts(v.items));
    assert "" + (ItemsText(docs) + "]") == ItemsText(docs) + "]";
  }

  ghost predicate ItemWrites(item: Item, v: C.Json) {
    ItemOk(item) && ItemTight(item) && C.Encode(v) == Some(ItemText(item)) && ItemMeans(item, C.Meaning(v))
  }

  lemma {:induction false} ItemDocs(v: C.Json, n: nat) returns (docs: seq<Item>)
    requires v.List? && C.Proper(v) && n <= |v.items| && forall i :: 0 <= i < |v.items| ==> C.Encode(v.items[i]).Some?
    ensures |docs| == n && forall i :: 0 <= i < n ==> ItemWrites(docs[i], v.items[i])
    decreases v, 0, n
  {
    hide C.Encode;
    hide ItemWrites;
    if n == 0 {
      docs := [];
    } else {
      var front := ItemDocs(v, n - 1);
      var d := CanonicalIsJson(v.items[n - 1]);
      ItemIsWritten(v.items[n - 1], d);
      docs := front + [Item("", d, "")];
    }
  }

  lemma ItemIsWritten(v: C.Json, d: Doc)
    requires Writes(d, v)
    ensures ItemWrites(Item("", d, ""), v)
  {
    BareItem(d);
    hide C.Encode;
    hide ItemText;
    hide DocOk;
    hide Tight;
    hide Means;
    assert ItemOk(Item("", d, ""));
  }

  lemma {:induction false} DictIsJson(v: C.Json) returns (d: Doc)
    requires v.Dict? && C.Proper(v) && C.Encode(v).Some?
    ensures Writes(d, v)
    decreases v, 0, |v.members| + 1
  {
    C.MembersWritten(v.members);
    C.MembersInOrder(v.members);
    var es := C.SortedEntries(v.members);
    var docs := MemberDocs(v, |es|);
    var keys := seq(|es|, i requires 0 <= i < |es| => es[i].key);
    KeysOfSorted(v.members, keys);
    d := Object("", docs);
    MembersAreJoined(docs, C.EntryTexts(es));
    DictMeans(v, d, keys);
    assert "" + (MembersText(docs) + "}") == MembersText(docs) + "}";
  }

  /** The member writes the entry and says what the value has under its key. */
  ghost predicate MemberWrites(member: Member, e: C.Entry, p: C.Pure) {
    && MemberOk(member) && MemberTight(member) && MemberText(member) == C.EntryText(e)
    && Spells(member.key, e.key) && p.PDict? && e.key in p.members && MemberMeans(member, p.members[e.key])
  }

  lemma {:induction false} MemberDocs(v: C.Json, n: nat) returns (docs: seq<Member>)
    requires v.Dict? && C.Proper(v) && C.Encode(v).Some? && n <= |C.SortedEntries(v.members)| == |v.members|
    ensures |docs| == n && forall i :: 0 <= i < n ==> MemberWrites(docs[i], C.SortedEntries(v.members)[i], C.Meaning(v))
    decreases v, 0, n
  {
    hide C.SortedEntries;
    hide C.Encode;
    hide C.Proper;
    hide C.Meaning;
    hide MemberWrites;
    if n == 0 {
      docs := [];
    } else {
      var front := MemberDocs(v, n - 1);
      var member := MemberDoc(v, n - 1);
      docs := front + [member];
    }
  }

  lemma {:induction false} MemberDoc(v: C.Json, k: nat) returns (member: Member)
    requires v.Dict? && C.Proper(v) && C.Encode(v).Some? && k < |C.SortedEntries(v.members)| == |v.members|
    ensures MemberWrites(member, C.SortedEntries(v.members)[k], C.Meaning(v))
    decreases v, 0, 0
  {
    hide C.SortedEntries;
    hide C.Encode;
    hide MemberWrites;
    var i := C.MemberOfEntry(v, k);
    var e, m := C.SortedEntries(v.members)[k], v.members[i];
    var d := CanonicalIsJson(m.value);
    MemberIsWritten(v, i, e, d);
    member := Member("", PiecesOf(e.key), "", Item("", d, ""));
  }

  lemma MemberIsWritten(v: C.Json, i: nat, e: C.Entry, d: Doc)
    requires v.Dict? && C.Proper(v) && i < |v.members| && v.members[i].key == e.key && C.Encode(v.members[i].value) == e.text
    requires Writes(d, v.members[i].value)
    ensures MemberWrites(Member("", PiecesOf(e.key), "", Item("", d, "")), e, C.Meaning(v))
  {
    hide C.Encode;
    hide DocOk;
    hide Tight;
    StringOf(e.key);
    BareMember(e.key, d);
    C.DictMeaning(v);
    C.MeaningAt(v.members, i);
    hide C.Meaning;
    hide C.MeaningOf;
    hide MemberText;
    hide Means;
    var item := Item("", d, "");
    var member := Member("", PiecesOf(e.key), "", item);
    assert ItemOk(item) && MemberOk(member);
    assert MemberTight(member);
    assert MemberText(member) == C.EntryText(e);
    assert MemberMeans(member, C.Meaning(v).members[e.key]);
  }

  lemma KeysOfSorted(members: seq<C.Member>, keys: seq<string>)
    requires C.KeysDistinct(members) && |keys| == |C.SortedEntries(members)|
    requires forall i :: 0 <= i < |keys| ==> keys[i] == C.SortedEntries(members)[i].key
    ensures forall k :: k in C.MeaningOf(members) <==> k in keys
  {
    hide C.SortedEntries;
    hide C.MeaningOf;
    C.MeaningsOf(members);
    var es := C.SortedEntries(members);
    forall k ensures k in C.MeaningOf(members) <==> k in keys {
      if k in C.MeaningOf(members) {
        var i :| 0 <= i < |members| && members[i].key == k;
        C.SortedHas(members, i);
        var j :| 0 <= j < |es| && es[j] == C.Entry(members[i].key, C.Encode(members[i].value));
        assert keys[j] == k;
      }
      if k in keys {
        var j :| 0 <= j < |keys| && keys[j] == k;
        assert es[j] in es;
        C.SortedFrom(members, es[j]);
      }
    }
  }

  lemma DictMeans(v: C.Json, d: Doc, keys: seq<string>)
    requires v.Dict? && d.Object? && |d.members| == |C.SortedEntries(v.members)| == |keys|
    requires forall i :: 0 <= i < |keys| ==> keys[i] == C.SortedEntries(v.members)[i].key
    requires forall i :: 0 <= i < |keys| ==> MemberWrites(d.members[i], C.SortedEntries(v.members)[i], C.Meaning(v))
    requires forall i, j :: 0 <= i < j < |keys| ==> keys[i] != keys[j]
    requires forall k :: k in C.MeaningOf(v.members) <==> k in keys
    ensures Means(d, C.Meaning(v))
  {
    hide C.SortedEntries;
    hide C.MeaningOf;
    hide MemberText;
    C.DictMeaning(v);
    hide C.Meaning;
    var p := C.Meaning(v);
    assert MembersMean(d.members, keys, p);
  }
}
