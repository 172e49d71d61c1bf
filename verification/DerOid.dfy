/** Object identifiers of certificate extensions and the map of extensions
    (scripts/npm_release.py, `decode_der_oid` and `fulcio_extensions`; section 8.19 of
    ITU-T X.690). */
module DerOid {
  import opened Wrappers
  import opened Decimal
  import opened Numerals
  import opened ByteStrings
  import opened Der

  // ----- subidentifiers

  /** The octets of a number's high groups of seven bits, each saying more follow. */
  function HighGroups(n: nat): Bytes {
    if n < 128 then [128 + n] else HighGroups(n / 128) + [128 + n % 128]
  }

  /** The minimal subidentifier of a number. */
  function Subidentifier(n: nat): Bytes {
    if n < 128 then [n] else HighGroups(n / 128) + [n % 128]
  }

  function Subidentifiers(arcs: seq<nat>): Bytes {
    if arcs == [] then [] else Subidentifier(arcs[0]) + Subidentifiers(arcs[1..])
  }

  /** The number so far with the octet's seven bits appended. */
  function Append(current: nat, octet: Byte): nat { current * 128 + octet % 128 }

  /** Reads subidentifiers; `current` is the number so far of one that is open. */
  function Arcs(bytes: Bytes, current: nat, open: bool): Option<seq<nat>> {
    if bytes == [] then (if open then None else Some([]))
    else
      var octet := bytes[0];
      if !open && octet == 128 then None
      else
        var next := current * 128 + octet % 128;
        if octet >= 128 then Arcs(bytes[1..], next, true)
        else
          var rest := Arcs(bytes[1..], 0, false);
          if rest.None? then None else Some([next] + rest.value)
  }

  lemma {:induction false} ArcsAreEncoded(bytes: Bytes, current: nat, open: bool)
    requires Arcs(bytes, current, open).Some? && (open <==> current > 0)
    ensures var arcs := Arcs(bytes, current, open).value;
      Subidentifiers(arcs) == (if open then HighGroups(current) else []) + bytes
    decreases |bytes|
  {
    if bytes != [] {
      var octet, before := bytes[0], if open then HighGroups(current) else [];
      var next := Append(current, octet);
      NextGroup(current, octet);
      hide Append;
      hide HighGroups;
      hide Subidentifier;
      assert before + [octet] + bytes[1..] == before + bytes;
      if octet >= 128 {
        ArcsAreEncoded(bytes[1..], next, true);
      } else {
        ArcsAreEncoded(bytes[1..], 0, false);
        var rest := Arcs(bytes[1..], 0, false).value;
        assert ([next] + rest)[1..] == rest;
      }
    }
  }

  lemma NextGroup(current: nat, octet: Byte)
    ensures var next, before := Append(current, octet), if current > 0 then HighGroups(current) else [];
      && (octet >= 128 && (current > 0 || octet > 128) ==> next > 0 && HighGroups(next) == before + [octet])
      && (octet < 128 ==> Subidentifier(next) == before + [octet])
  {
    Grouped(current, octet % 128);
  }

  lemma Grouped(n: nat, low: nat)
    requires low < 128
    ensures (n * 128 + low) / 128 == n && (n * 128 + low) % 128 == low
    ensures n > 0 ==> HighGroups(n * 128 + low) == HighGroups(n) + [128 + low]
    ensures n > 0 ==> Subidentifier(n * 128 + low) == HighGroups(n) + [low]
  {
  }

  lemma {:induction false} ReadsHighGroups(n: nat, rest: Bytes)
    requires n > 0
    ensures Arcs(HighGroups(n) + rest, 0, false) == Arcs(rest, n, true)
    decreases n
  {
    if n < 128 {
      assert (HighGroups(n) + rest)[1..] == rest;
    } else {
      var last := [128 + n % 128] + rest;
      assert HighGroups(n) + rest == HighGroups(n / 128) + last;
      ReadsHighGroups(n / 128, last);
      assert last[1..] == rest;
    }
  }

  /** Reading the printed subidentifiers gives the arcs back. */
  lemma {:induction false} ReadsSubidentifiers(arcs: seq<nat>)
    ensures Arcs(Subidentifiers(arcs), 0, false) == Some(arcs)
  {
    if arcs != [] {
      var rest := Subidentifiers(arcs[1..]);
      ReadsSubidentifiers(arcs[1..]);
      ReadsOne(arcs[0], rest);
      assert arcs == [arcs[0]] + arcs[1..];
    }
  }

  lemma ReadsOne(n: nat, rest: Bytes)
    requires Arcs(rest, 0, false).Some?
    ensures Arcs(Subidentifier(n) + rest, 0, false) == Some([n] + Arcs(rest, 0, false).value)
  {
    if n < 128 {
      AppendToNothing(n);
      hide Append;
      assert (Subidentifier(n) + rest)[1..] == rest;
    } else {
      var low: Bytes := [n % 128] + rest;
      AppendsLow(n);
      hide Append;
      assert Subidentifier(n) + rest == HighGroups(n / 128) + low;
      ReadsHighGroups(n / 128, low);
      hide HighGroups;
      assert low[1..] == rest;
    }
  }

  // ----- the decoder

  function FirstArc(first: nat): nat { if first / 40 < 2 then first / 40 else 2 }

  /** The bytes the decoder reads as these arcs: the first two in one octet. */
  function OidBytes(arcs: seq<nat>): Bytes
    requires IsOid(arcs)
  {
    [40 * arcs[0] + arcs[1]] + Subidentifiers(arcs[2..])
  }

  /** Two leading arcs that one octet holds, and any others. */
  predicate IsOid(arcs: seq<nat>) {
    |arcs| >= 2 && arcs[0] <= 2 && (arcs[0] < 2 ==> arcs[1] < 40) && 40 * arcs[0] + arcs[1] < 256
  }

  function Oid(value: Bytes): Option<seq<nat>> {
    if value == [] then None
    else
      var rest := Arcs(value[1..], 0, false);
      if rest.None? then None else Some([FirstArc(value[0]), value[0] - FirstArc(value[0]) * 40] + rest.value)
  }

  /** Decodes an identifier. The arcs are the only ones whose bytes are the input; None
      says that there are none. */
  method DecodeDerOid(value: Bytes) returns (r: Option<seq<nat>>)
    ensures r == Oid(value)
    ensures r.Some? ==> IsOid(r.value) && OidBytes(r.value) == value
    ensures forall arcs :: IsOid(arcs) && OidBytes(arcs) == value ==> r == Some(arcs)
  {
    DecodesExactly(value);
    hide IsOid;
    hide OidBytes;
    hide FirstArc;
    if value == [] { return None; }
    var first := value[0];
    var head := [FirstArc(first), first - FirstArc(first) * 40];
    var arcs: seq<nat> := [];
    var current: nat := 0;
    var open := false;
    var rest := value[1..];
    assert Arcs(rest, 0, false).Some? ==> [] + Arcs(rest, 0, false).value == Arcs(rest, 0, false).value;
    for i := 0 to |rest|
      invariant Continues(Arcs(rest, 0, false), arcs, Arcs(rest[i..], current, open))
      invariant !open ==> current == 0
    {
      var octet := rest[i];
      assert rest[i..][0] == octet && rest[i..][1..] == rest[i + 1..];
      if !open && octet == 128 { return None; }
      current := Append(current, octet);
      open := octet >= 128;
      if !open {
        ghost var after := Arcs(rest[i + 1..], 0, false);
        assert after.Some? ==> arcs + ([current] + after.value) == arcs + [current] + after.value;
        arcs := arcs + [current];
        current := 0;
      }
    }
    assert rest[|rest|..] == [] && arcs + [] == arcs;
    if open { return None; }
    r := Some(head + arcs);
  }

  /** All the arcs are those read so far and those of the rest. */
  ghost predicate Continues(all: Option<seq<nat>>, read: seq<nat>, rest: Option<seq<nat>>) {
    all == if rest.None? then None else Some(read + rest.value)
  }

  lemma DecodesExactly(value: Bytes)
    ensures Oid(value).Some? ==> IsOid(Oid(value).value) && OidBytes(Oid(value).value) == value
    ensures forall arcs :: IsOid(arcs) && OidBytes(arcs) == value ==> Oid(value) == Some(arcs)
  {
    if Oid(value).Some? {
      var arcs := Oid(value).value;
      ArcsAreEncoded(value[1..], 0, false);
      assert arcs[2..] == Arcs(value[1..], 0, false).value;
      assert value == [value[0]] + value[1..];
    }
    forall arcs | IsOid(arcs) && OidBytes(arcs) == value ensures Oid(value) == Some(arcs) {
      OidReadsBack(arcs);
    }
  }

  lemma OidReadsBack(arcs: seq<nat>)
    requires IsOid(arcs)
    ensures Oid(OidBytes(arcs)) == Some(arcs)
  {
    var value := OidBytes(arcs);
    assert value[1..] == Subidentifiers(arcs[2..]);
    ReadsSubidentifiers(arcs[2..]);
    LeadingArcs(arcs[0], arcs[1]);
    hide FirstArc;
    hide Subidentifiers;
    hide Arcs;
    assert arcs == [arcs[0], arcs[1]] + arcs[2..];
  }

  lemma LeadingArcs(a: nat, b: nat)
    requires a <= 2 && (a < 2 ==> b < 40)
    ensures FirstArc(40 * a + b) == a
  {
  }

  /** Different accepted bytes never decode to the same arcs. */
  lemma OidTellsApart(a: Bytes, b: Bytes)
    requires Oid(a).Some? && Oid(a) == Oid(b)
    ensures a == b
  {
    DecodesExactly(a);
    DecodesExactly(b);
  }

  // ----- against the standard

  /** The standard's reading: the first subidentifier, however long, holds the first two
      arcs. */
  function StandardOid(value: Bytes): Option<seq<nat>> {
    var all := Arcs(value, 0, false);
    if all.None? || all.value == [] then None
    else Some([FirstArc(all.value[0]), all.value[0] - FirstArc(all.value[0]) * 40] + all.value[1..])
  }

  /** How many subidentifiers end in `bytes`. */
  function Ends(bytes: Bytes): nat {
    if bytes == [] then 0 else (if bytes[0] < 128 then 1 else 0) + Ends(bytes[1..])
  }

  lemma {:induction false} ArcsAreCounted(bytes: Bytes, current: nat, open: bool)
    requires Arcs(bytes, current, open).Some?
    ensures |Arcs(bytes, current, open).value| == Ends(bytes)
    decreases |bytes|
  {
    if bytes != [] {
      if bytes[0] >= 128 {
        ArcsAreCounted(bytes[1..], Append(current, bytes[0]), true);
      } else {
        ArcsAreCounted(bytes[1..], 0, false);
      }
    }
  }

  /** On bytes that either reading accepts, the decoder gives the standard's arcs exactly
      when the first octet is a whole subidentifier. */
  lemma StandardExactly(value: Bytes)
    requires Oid(value).Some? || StandardOid(value).Some?
    ensures Oid(value) == StandardOid(value) <==> value[0] < 128
  {
    hide FirstArc;
    AppendToNothing(value[0]);
    hide Append;
    if value[0] < 128 {
      var rest := Arcs(value[1..], 0, false);
      if rest.Some? { assert ([value[0]] + rest.value)[1..] == rest.value; }
    } else if Oid(value).Some? && StandardOid(value).Some? {
      ArcsAreCounted(value[1..], 0, false);
      ArcsAreCounted(value, 0, false);
      hide Arcs;
      assert |Oid(value).value| == Ends(value[1..]) + 2;
      assert |StandardOid(value).value| == Ends(value) + 1;
    }
  }

  lemma AppendsLow(n: nat)
    ensures Append(n / 128, n % 128) == n
  {
  }

  lemma AppendToNothing(octet: Byte)
    ensures octet < 128 ==> Append(0, octet) == octet
  {
  }

  /** So the first two arcs of 2.999 decode as 2.56.55. */
  lemma LargeSecondArcIsMisread()
    ensures StandardOid([136, 55]) == Some([2, 999]) && Oid([136, 55]) == Some([2, 56, 55])
  {
    var value: Bytes := [136, 55];
    var last: Bytes := [55];
    var long: seq<nat>, short: seq<nat>, none: seq<nat> := [1079], [55], [];
    assert value[1..] == last && last[1..] == [] && Arcs([], 0, false) == Some(none);
    assert long + none == long && short + none == short && long[1..] == none;
    assert Arcs(last, 8, true) == Some(long) && Arcs(last, 0, false) == Some(short);
    assert Arcs(value, 0, false) == Arcs(last, 8, true);
    var standard: seq<nat>, read: seq<nat> := [2, 999], [2, 56];
    assert standard + none == standard && read + short == [2, 56, 55];
  }

  // ----- dotted text

  function Dotted(arcs: seq<nat>): string
    requires arcs != []
  {
    if |arcs| == 1 then Print(arcs[0]) else Print(arcs[0]) + "." + Dotted(arcs[1..])
  }

  function FirstDot(s: string): (n: nat)
    ensures n <= |s| && (n < |s| ==> s[n] == '.')
  {
    if s == "" || s[0] == '.' then 0 else 1 + FirstDot(s[1..])
  }

  /** The pieces of a text between its dots. */
  function Split(s: string): seq<string>
    decreases |s|
  {
    var n := FirstDot(s);
    if n == |s| then [s] else [s[..n]] + Split(s[n + 1..])
  }

  lemma {:induction false} FirstDotAfter(digits: string, rest: string)
    requires IsDigits(digits) && (rest == "" || rest[0] == '.')
    ensures FirstDot(digits + rest) == |digits|
  {
    if digits == "" {
      assert digits + rest == rest;
    } else {
      assert (digits + rest)[1..] == digits[1..] + rest;
      FirstDotAfter(digits[1..], rest);
    }
  }

  /** Dotted text is the arcs' numerals between dots, in order. */
  lemma {:induction false} DottedSplits(arcs: seq<nat>)
    requires arcs != []
    ensures var pieces := Split(Dotted(arcs));
      |pieces| == |arcs| && forall i :: 0 <= i < |arcs| ==> IsNumeral(pieces[i]) && Value(pieces[i]) == arcs[i]
  {
    var x := Print(arcs[0]);
    hide Print;
    if |arcs| == 1 {
      FirstDotAfter(x, "");
      assert x + "" == x;
    } else {
      var tail := Dotted(arcs[1..]);
      FirstDotAfter(x, "." + tail);
      assert Dotted(arcs) == x + ("." + tail);
      assert Dotted(arcs)[..|x|] == x && Dotted(arcs)[|x| + 1..] == tail;
      DottedSplits(arcs[1..]);
    }
  }

  /** Dotted text keeps the arcs apart. */
  lemma {:induction false} DottedTellsApart(a: seq<nat>, b: seq<nat>)
    requires a != [] && b != [] && Dotted(a) == Dotted(b)
    ensures a == b
    decreases |a|
  {
    hide Print;
    var x, y := Print(a[0]), Print(b[0]);
    var u, v := Tail(a), Tail(b);
    assert Dotted(a) == x + u && Dotted(b) == y + v;
    RunStops(x, u);
    RunStops(y, v);
    assert x == Dotted(a)[..|x|] && y == Dotted(b)[..|y|];
    assert u == Dotted(a)[|x|..] && v == Dotted(b)[|y|..];
    assert a[0] == Value(x) && b[0] == Value(y);
    assert a == [a[0]] + a[1..] && b == [b[0]] + b[1..];
    if |a| > 1 && |b| > 1 {
      assert u[1..] == Dotted(a[1..]) && v[1..] == Dotted(b[1..]);
      DottedTellsApart(a[1..], b[1..]);
    }
  }

  function Tail(arcs: seq<nat>): string
    requires arcs != []
  {
    if |arcs| == 1 then "" else "." + Dotted(arcs[1..])
  }

  // ----- the extensions of a certificate

  datatype Extension = Extension(oid: seq<nat>, value: Bytes)

  /** The one child of an explicit wrapper, and so on down to the extension sequences:
      None is a certificate of another shape. */
  function ExtensionFields(certificate: Bytes): Option<seq<Element>> {
    var whole := DerElement(certificate, 0);
    if whole.None? || whole.value.element.tag != 0x30 || whole.value.end != |certificate| then None
    else
      var fields := Children(whole.value.element.value, 0);
      if fields.None? || fields.value == [] || fields.value[0].tag != 0x30 then None
      else
        var body := Children(fields.value[0].value, 0);
        if body.None? then None
        else
          var wrappers := Tagged(body.value, 0xA3);
          if |wrappers| != 1 then None
          else
            var explicit := Children(wrappers[0].value, 0);
            if explicit.None? || |explicit.value| != 1 || explicit.value[0].tag != 0x30 then None
            else Children(explicit.value[0].value, 0)
  }

  function Tagged(es: seq<Element>, tag: Byte): seq<Element> {
    if es == [] then [] else (if es[0].tag == tag then [es[0]] else []) + Tagged(es[1..], tag)
  }

  /** An identifier, perhaps a critical flag, and a value. */
  function ReadExtension(e: Element): Option<Extension> {
    if e.tag != 0x30 then None
    else
      var fields := Children(e.value, 0);
      if fields.None? || !(2 <= |fields.value| <= 3) || fields.value[0].tag != 0x06 then None
      else if |fields.value| == 3 && fields.value[1].tag != 0x01 then None
      else if fields.value[|fields.value| - 1].tag != 0x04 then None
      else
        var oid := Oid(fields.value[0].value);
        if oid.None? then None else Some(Extension(oid.value, fields.value[|fields.value| - 1].value))
  }

  /** Every extension sequence has the right shape. */
  ghost predicate AllRead(es: seq<Element>) {
    forall k :: 0 <= k < |es| ==> ReadExtension(es[k]).Some?
  }

  /** The bytes of an extension's identifier. */
  function OidOf(e: Element): Bytes
    requires ReadExtension(e).Some?
  {
    Children(e.value, 0).value[0].value
  }

  ghost predicate OidsRepeat(es: seq<Element>)
    requires AllRead(es)
  {
    exists i, j :: 0 <= i < j < |es| && OidOf(es[i]) == OidOf(es[j])
  }

  /** The map has one entry for each of the extension sequences, and no other. */
  ghost predicate MapsEach(es: seq<Element>, m: map<string, Bytes>) {
    && |m| == |es| && AllRead(es)
    && forall k :: 0 <= k < |es| ==> Holds(m, ReadExtension(es[k]).value)
  }

  predicate Holds(m: map<string, Bytes>, x: Extension) {
    x.oid != [] && Dotted(x.oid) in m && m[Dotted(x.oid)] == x.value
  }

  lemma SameKeySameOid(a: Element, b: Element)
    requires ReadExtension(a).Some? && ReadExtension(b).Some?
    ensures ReadExtension(a).value.oid != [] && ReadExtension(b).value.oid != []
    ensures Dotted(ReadExtension(a).value.oid) == Dotted(ReadExtension(b).value.oid) <==> OidOf(a) == OidOf(b)
  {
    hide Dotted;
    hide Children;
    var x, y := ReadExtension(a).value.oid, ReadExtension(b).value.oid;
    if Dotted(x) == Dotted(y) {
      DottedTellsApart(x, y);
      OidTellsApart(OidOf(a), OidOf(b));
    }
  }

  ghost predicate Extracts(certificate: Bytes, r: Option<map<string, Bytes>>) {
    var es := ExtensionFields(certificate);
    if es.None? || !AllRead(es.value) || OidsRepeat(es.value) then r.None?
    else r.Some? && MapsEach(es.value, r.value)
  }

  /** Reads a certificate's extensions: refused exactly when the certificate or one of
      the extension sequences has another shape or two sequences have the same
      identifier bytes; otherwise every sequence has its own entry. */
  method FulcioExtensions(certificate: Bytes) returns (r: Option<map<string, Bytes>>)
    ensures Extracts(certificate, r)
  {
    hide ExtensionFields;
    hide ReadExtension;
    hide Dotted;
    hide OidOf;
    var fields := ExtensionFields(certificate);
    if fields.None? { return None; }
    var es := fields.value;
    var extensions: map<string, Bytes> := map[];
    for i := 0 to |es|
      invariant MapsEach(es[..i], extensions) && !OidsRepeat(es[..i])
      invariant forall key :: key in extensions ==> exists k :: 0 <= k < i && KeyOf(es[k], key)
    {
      var read := ReadExtension(es[i]);
      if read.None? { return None; }
      OidNotEmpty(es[i]);
      var key := Dotted(read.value.oid);
      if key in extensions {
        ghost var k :| 0 <= k < i && KeyOf(es[k], key);
        SameKeySameOid(es[k], es[i]);
        if AllRead(es) { assert OidsRepeat(es); }
        return None;
      }
      NewKey(es, i, extensions);
      extensions := extensions[key := read.value.value];
      assert KeyOf(es[i], key);
    }
    assert es[..|es|] == es;
    r := Some(extensions);
  }

  ghost predicate KeyOf(e: Element, key: string) {
    ReadExtension(e).Some? && ReadExtension(e).value.oid != [] && Dotted(ReadExtension(e).value.oid) == key
  }

  lemma OidNotEmpty(e: Element)
    requires ReadExtension(e).Some?
    ensures ReadExtension(e).value.oid != []
  {
  }

  lemma NewKey(es: seq<Element>, i: nat, m: map<string, Bytes>)
    requires i < |es| && MapsEach(es[..i], m) && !OidsRepeat(es[..i]) && ReadExtension(es[i]).Some?
    requires ReadExtension(es[i]).value.oid != [] && Dotted(ReadExtension(es[i]).value.oid) !in m
    ensures var x := ReadExtension(es[i]).value; MapsEach(es[..i + 1], m[Dotted(x.oid) := x.value])
    ensures !OidsRepeat(es[..i + 1])
  {
    hide ReadExtension;
    hide Dotted;
    hide OidOf;
    var x := ReadExtension(es[i]).value;
    var next := m[Dotted(x.oid) := x.value];
    assert next.Keys == m.Keys + {Dotted(x.oid)};
    assert |next.Keys| == |m.Keys| + 1 && |next| == |next.Keys| && |m| == |m.Keys|;
    assert es[..i + 1] == es[..i] + [es[i]];
    forall k | 0 <= k < i ensures Holds(next, ReadExtension(es[k]).value) && OidOf(es[k]) != OidOf(es[i]) {
      assert es[..i][k] == es[k] && Holds(m, ReadExtension(es[k]).value);
      SameKeySameOid(es[k], es[i]);
    }
  }
}
