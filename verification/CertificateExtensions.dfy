/** A certificate's extensions as they are written, and what reading them gives
    (scripts/npm_release.py, `fulcio_extensions`). */
module CertificateExtensions {
  import opened Wrappers
  import opened ByteStrings
  import opened Der
  import opened DerOid

  const SEQUENCE: Byte := 0x30
  const OBJECT_IDENTIFIER: Byte := 0x06
  const BOOLEAN: Byte := 0x01
  const OCTET_STRING: Byte := 0x04
  const EXTENSIONS: Byte := 0xA3

  /** An extension: its identifier, the octets of its critical flag if it has one, and its
      value. */
  datatype Stated = Stated(arcs: seq<nat>, critical: Option<Bytes>, value: Bytes)

  function Parts(x: Stated): seq<Element>
    requires IsOid(x.arcs)
  {
    [Element(OBJECT_IDENTIFIER, OidBytes(x.arcs))]
    + (if x.critical.Some? then [Element(BOOLEAN, x.critical.value)] else [])
    + [Element(OCTET_STRING, x.value)]
  }

  function ExtensionElement(x: Stated): Element
    requires IsOid(x.arcs) && AllEncodable(Parts(x))
  {
    Element(SEQUENCE, EncodeAll(Parts(x)))
  }

  /** The identifier has the form the decoder reads and nothing is too long to be written. */
  predicate StatedOk(x: Stated) {
    IsOid(x.arcs) && AllEncodable(Parts(x)) && Encodable(ExtensionElement(x))
  }

  predicate AllStated(xs: seq<Stated>) { forall i :: 0 <= i < |xs| ==> StatedOk(xs[i]) }

  function ExtensionElements(xs: seq<Stated>): (es: seq<Element>)
    requires AllStated(xs)
    ensures |es| == |xs| && AllEncodable(es)
  {
    seq(|xs|, i requires 0 <= i < |xs| => ExtensionElement(xs[i]))
  }

  /** The wrapper of the extensions: an explicit tag, and in it one sequence. */
  function Inner(xs: seq<Stated>): Element
    requires AllStated(xs)
  {
    Element(SEQUENCE, EncodeAll(ExtensionElements(xs)))
  }

  function Wrapper(xs: seq<Stated>): Element
    requires AllStated(xs) && Encodable(Inner(xs))
  {
    Element(EXTENSIONS, EncodeAll([Inner(xs)]))
  }

  function Body(before: seq<Element>, xs: seq<Stated>, after: seq<Element>): Element
    requires AllStated(xs) && Encodable(Inner(xs)) && AllEncodable(before + [Wrapper(xs)] + after)
  {
    Element(SEQUENCE, EncodeAll(before + [Wrapper(xs)] + after))
  }

  /** A certificate: its signed body with the extensions among other fields, and whatever
      follows the body. */
  function Whole(before: seq<Element>, xs: seq<Stated>, after: seq<Element>, others: seq<Element>): Element
    requires AllStated(xs) && Encodable(Inner(xs)) && AllEncodable(before + [Wrapper(xs)] + after)
    requires AllEncodable([Body(before, xs, after)] + others)
  {
    Element(SEQUENCE, EncodeAll([Body(before, xs, after)] + others))
  }

  /** Everything can be written, and no other field of the body has the tag of the extensions. */
  ghost predicate CertificateOk(before: seq<Element>, xs: seq<Stated>, after: seq<Element>, others: seq<Element>) {
    && AllStated(xs) && Encodable(Inner(xs)) && AllEncodable(before + [Wrapper(xs)] + after)
    && AllEncodable([Body(before, xs, after)] + others) && Encodable(Whole(before, xs, after, others))
    && (forall e :: e in before || e in after ==> e.tag != EXTENSIONS)
  }

  ghost function Certificate(before: seq<Element>, xs: seq<Stated>, after: seq<Element>, others: seq<Element>): Bytes
    requires CertificateOk(before, xs, after, others)
  {
    Encode(Whole(before, xs, after, others))
  }

  // ----- reading it back

  lemma ChildrenOf(es: seq<Element>)
    requires AllEncodable(es)
    ensures Children(EncodeAll(es), 0) == Some(es)
  {
    ChildrenReadBack([], es);
    assert [] + EncodeAll(es) == EncodeAll(es);
  }

  /** An extension reads back, with and without its flag. */
  lemma ExtensionReads(x: Stated)
    requires StatedOk(x)
    ensures ReadExtension(ExtensionElement(x)) == Some(Extension(x.arcs, x.value))
    ensures OidOf(ExtensionElement(x)) == OidBytes(x.arcs)
  {
    ChildrenOf(Parts(x));
    OidReadsBack(x.arcs);
    hide Oid;
    hide OidBytes;
    hide Children;
    hide EncodeAll;
    hide Encodable;
    hide IsOid;
  }

  lemma {:induction false} TaggedAmong(before: seq<Element>, e: Element, after: seq<Element>)
    requires forall x :: x in before || x in after ==> x.tag != e.tag
    ensures Tagged(before + [e] + after, e.tag) == [e]
    decreases |before|
  {
    if before == [] {
      NoneTagged(after, e.tag);
      assert (before + [e] + after)[1..] == after;
    } else {
      assert (before + [e] + after)[1..] == before[1..] + [e] + after;
      TaggedAmong(before[1..], e, after);
    }
  }

  lemma {:induction false} NoneTagged(es: seq<Element>, tag: Byte)
    requires forall x :: x in es ==> x.tag != tag
    ensures Tagged(es, tag) == []
  {
    if es != [] { NoneTagged(es[1..], tag); }
  }

  lemma WholeReads(e: Element)
    requires Encodable(e)
    ensures DerElement(Encode(e), 0) == Some(Read(e, |Encode(e)|))
  {
    ReadsBack([], e, []);
    assert [] + Encode(e) + [] == Encode(e);
  }

  /** The elements found are those of the extensions, in order. */
  lemma CertificateFields(before: seq<Element>, xs: seq<Stated>, after: seq<Element>, others: seq<Element>)
    requires CertificateOk(before, xs, after, others)
    ensures ExtensionFields(Certificate(before, xs, after, others)) == Some(ExtensionElements(xs))
  {
    WholeReads(Whole(before, xs, after, others));
    ChildrenOf([Body(before, xs, after)] + others);
    ChildrenOf(before + [Wrapper(xs)] + after);
    TaggedAmong(before, Wrapper(xs), after);
    ChildrenOf([Inner(xs)]);
    ChildrenOf(ExtensionElements(xs));
    hide DerElement;
    hide Encode;
    hide EncodeAll;
    hide Children;
    hide Encodable;
    hide Tagged;
    hide StatedOk;
  }

  /** One entry for each extension, under its dotted identifier, and no other. */
  ghost predicate Entries(xs: seq<Stated>, m: map<string, Bytes>) {
    && |m| == |xs|
    && forall i :: 0 <= i < |xs| ==> xs[i].arcs != [] && Dotted(xs[i].arcs) in m && m[Dotted(xs[i].arcs)] == xs[i].value
  }

  ghost predicate ArcsRepeat(xs: seq<Stated>) {
    exists i, j :: 0 <= i < j < |xs| && xs[i].arcs == xs[j].arcs
  }

  /** Reading a certificate gives the map of its extensions, critical or not, or a refusal
      exactly when two of them have one identifier. */
  lemma ExtractsWhatIsStated(before: seq<Element>, xs: seq<Stated>, after: seq<Element>, others: seq<Element>, r: Option<map<string, Bytes>>)
    requires CertificateOk(before, xs, after, others) && Extracts(Certificate(before, xs, after, others), r)
    ensures if ArcsRepeat(xs) then r.None? else r.Some? && Entries(xs, r.value)
  {
    CertificateFields(before, xs, after, others);
    var es := ExtensionElements(xs);
    hide ExtensionFields;
    hide Certificate;
    hide CertificateOk;
    hide ReadExtension;
    hide OidOf;
    hide Dotted;
    hide StatedOk;
    forall i | 0 <= i < |xs|
      ensures IsOid(xs[i].arcs) && ReadExtension(es[i]) == Some(Extension(xs[i].arcs, xs[i].value)) && OidOf(es[i]) == OidBytes(xs[i].arcs)
    {
      ExtensionReads(xs[i]);
      StatedIsOid(xs[i]);
    }
    hide OidBytes;
    forall i, j | 0 <= i < j < |xs| ensures OidOf(es[i]) == OidOf(es[j]) <==> xs[i].arcs == xs[j].arcs {
      OidReadsBack(xs[i].arcs);
      OidReadsBack(xs[j].arcs);
    }
    hide IsOid;
    hide ExtensionElement;
    RepeatTogether(xs, es);
    if !ArcsRepeat(xs) {
      forall i | 0 <= i < |xs| ensures xs[i].arcs != [] && Dotted(xs[i].arcs) in r.value && r.value[Dotted(xs[i].arcs)] == xs[i].value {
        assert Holds(r.value, ReadExtension(es[i]).value);
      }
    }
  }

  lemma StatedIsOid(x: Stated)
    requires StatedOk(x)
    ensures IsOid(x.arcs)
  {
  }

  lemma RepeatTogether(xs: seq<Stated>, es: seq<Element>)
    requires |es| == |xs| && AllRead(es)
    requires forall i, j :: 0 <= i < j < |xs| ==> (OidOf(es[i]) == OidOf(es[j]) <==> xs[i].arcs == xs[j].arcs)
    ensures OidsRepeat(es) <==> ArcsRepeat(xs)
  {
    hide OidOf;
    hide ReadExtension;
    if OidsRepeat(es) {
      var i, j :| 0 <= i < j < |es| && OidOf(es[i]) == OidOf(es[j]);
      assert xs[i].arcs == xs[j].arcs;
    }
    if ArcsRepeat(xs) {
      var i, j :| 0 <= i < j < |xs| && xs[i].arcs == xs[j].arcs;
      assert OidOf(es[i]) == OidOf(es[j]);
    }
  }
}
