/** A strict reader of definite-length DER elements (scripts/npm_release.py,
    `der_element` and `der_children`; sections 8.1.3 and 10.1 of ITU-T X.690). */
module Der {
  import opened Wrappers
  import opened ByteStrings

  datatype Element = Element(tag: Byte, value: Bytes)
  datatype Read = Read(element: Element, end: nat)

  // ----- the canonical printer

  /** The minimal big-endian octets of a number. */
  function Octets(n: nat): Bytes {
    if n < 256 then [n] else Octets(n / 256) + [n % 256]
  }

  function LengthOctets(n: nat): Bytes
    requires |Octets(n)| < 128
  {
    if n < 128 then [n] else [128 + |Octets(n)|] + Octets(n)
  }

  const MAX_LENGTH_OCTETS: nat := 4

  /** An element the reader supports: a low tag and a length of at most four octets. */
  predicate Encodable(e: Element) {
    e.tag % 32 != 31 && |Octets(|e.value|)| <= MAX_LENGTH_OCTETS
  }

  /** Four octets hold exactly the lengths below 2^32. */
  lemma FourOctets(n: nat)
    ensures |Octets(n)| <= MAX_LENGTH_OCTETS <==> n < 0x1_0000_0000
  {
    if n >= 256 {
      OctetCount(n);
      if n / 256 >= 256 {
        OctetCount(n / 256);
        if n / 256 / 256 >= 256 {
          OctetCount(n / 256 / 256);
          if n / 256 / 256 / 256 >= 256 { OctetCount(n / 256 / 256 / 256); }
        }
      }
    }
  }

  lemma OctetCount(n: nat)
    requires n >= 256
    ensures |Octets(n)| == |Octets(n / 256)| + 1 && |Octets(n / 256)| >= 1
  {
  }

  function Encode(e: Element): Bytes
    requires Encodable(e)
  {
    [e.tag] + LengthOctets(|e.value|) + e.value
  }

  predicate AllEncodable(es: seq<Element>) {
    forall i :: 0 <= i < |es| ==> Encodable(es[i])
  }

  function EncodeAll(es: seq<Element>): Bytes
    requires AllEncodable(es)
  {
    if es == [] then [] else Encode(es[0]) + EncodeAll(es[1..])
  }

  // ----- the reader

  function ValueAt(data: Bytes, tag: Byte, cursor: nat, length: nat): Option<Read> {
    if cursor + length > |data| then None
    else Some(Read(Element(tag, data[cursor..cursor + length]), cursor + length))
  }

  /** One element at `offset`; None is a refusal. */
  function DerElement(data: Bytes, offset: int): (r: Option<Read>)
    ensures r.Some? ==> 0 <= offset < r.value.end <= |data|
  {
    if offset < 0 || offset + 2 > |data| then None
    else
      var tag, first, cursor := data[offset], data[offset + 1], offset + 2;
      if tag % 32 == 31 then None
      else if first < 128 then ValueAt(data, tag, cursor, first)
      else
        var octets := first - 128;
        if octets == 0 || octets > MAX_LENGTH_OCTETS || cursor + octets > |data| || data[cursor] == 0 then None
        else
          var length := FromBytes(data[cursor..cursor + octets]);
          if length < 128 then None else ValueAt(data, tag, cursor + octets, length)
  }

  lemma {:induction false} FromOctets(n: nat)
    ensures FromBytes(Octets(n)) == n && Octets(n) != [] && (n > 0 ==> Octets(n)[0] != 0)
  {
    if n >= 256 {
      FromOctets(n / 256);
      assert Octets(n)[..|Octets(n)| - 1] == Octets(n / 256);
    } else {
      assert [n][..0] == [];
    }
  }

  lemma {:induction false} ToOctets(bytes: Bytes)
    requires bytes != [] && bytes[0] != 0
    ensures Octets(FromBytes(bytes)) == bytes && FromBytes(bytes) > 0
  {
    var front, last := bytes[..|bytes| - 1], bytes[|bytes| - 1];
    assert bytes == front + [last];
    if front != [] {
      ToOctets(front);
      var m := FromBytes(front);
      assert (256 * m + last) / 256 == m && (256 * m + last) % 256 == last;
    }
  }

  /** Encoding and then reading, wherever the encoding stands, gives the element back. */
  lemma ReadsBack(before: Bytes, e: Element, after: Bytes)
    requires Encodable(e)
    ensures DerElement(before + Encode(e) + after, |before|) == Some(Read(e, |before| + |Encode(e)|))
  {
    var data := before + Encode(e) + after;
    var n := |e.value|;
    var cursor := |before| + 2;
    FromOctets(n);
    assert data[|before|] == e.tag && data[|before| + 1] == LengthOctets(n)[0];
    if n < 128 {
      assert data[cursor..cursor + n] == e.value;
    } else {
      var k := |Octets(n)|;
      assert data[cursor..cursor + k] == Octets(n);
      assert data[cursor + k..cursor + k + n] == e.value;
    }
  }

  /** What is read re-encodes to exactly the bytes consumed. */
  lemma ReadIsEncoding(data: Bytes, offset: int)
    requires DerElement(data, offset).Some?
    ensures var r := DerElement(data, offset).value;
      Encodable(r.element) && data[offset..r.end] == Encode(r.element)
  {
    hide Octets;
    hide FromBytes;
    var r := DerElement(data, offset).value;
    var n, first := |r.element.value|, data[offset + 1];
    if first < 128 {
      ShortOctets(n);
      Pieces(data, offset, offset + 2, r.end);
      assert data[offset + 1..offset + 2] == [n] == LengthOctets(n);
      assert data[offset + 2..r.end] == r.element.value;
    } else {
      var header := offset + 2 + first - 128;
      var octets := data[offset + 2..header];
      assert octets[0] == data[offset + 2];
      ToOctets(octets);
      Pieces(data, offset, header, r.end);
      assert data[offset + 1..header] == [first] + octets == LengthOctets(n);
      assert data[header..r.end] == r.element.value;
    }
  }

  lemma Pieces(data: Bytes, offset: nat, header: nat, end: nat)
    requires offset < header <= end <= |data|
    ensures data[offset..end] == [data[offset]] + data[offset + 1..header] + data[header..end]
  {
  }

  lemma ShortOctets(n: nat)
    requires n < 128
    ensures Octets(n) == [n]
  {
  }

  /** The reader accepts exactly the encodings. */
  lemma AcceptsExactly(data: Bytes, offset: nat)
    requires offset <= |data|
    ensures DerElement(data, offset).Some? <==> exists e :: Encodable(e) && Encode(e) <= data[offset..]
  {
    hide DerElement;
    hide Encode;
    hide Encodable;
    if DerElement(data, offset).Some? {
      var r := DerElement(data, offset).value;
      ReadIsEncoding(data, offset);
      assert data[offset..][..r.end - offset] == data[offset..r.end];
      assert Encodable(r.element) && Encode(r.element) <= data[offset..];
    }
    if e :| Encodable(e) && Encode(e) <= data[offset..] {
      var after := data[offset + |Encode(e)|..];
      assert data == data[..offset] + Encode(e) + after;
      ReadsBack(data[..offset], e, after);
    }
  }

  // ----- sequences of elements

  function Children(data: Bytes, offset: nat): (r: Option<seq<Element>>)
    requires offset <= |data|
    decreases |data| - offset
  {
    if offset == |data| then Some([])
    else
      var r := DerElement(data, offset);
      if r.None? then None
      else
        var rest := Children(data, r.value.end);
        if rest.None? then None else Some([r.value.element] + rest.value)
  }

  /** The children are the one list of elements whose encodings make up the input. */
  lemma {:induction false} ChildrenAreEncoded(data: Bytes, offset: nat)
    requires offset <= |data| && Children(data, offset).Some?
    ensures AllEncodable(Children(data, offset).value) && EncodeAll(Children(data, offset).value) == data[offset..]
    decreases |data| - offset
  {
    hide DerElement;
    hide Encode;
    hide Encodable;
    if offset < |data| {
      var r := DerElement(data, offset).value;
      ReadIsEncoding(data, offset);
      ChildrenAreEncoded(data, r.end);
      var rest := Children(data, r.end).value;
      assert ([r.element] + rest)[1..] == rest;
      assert data[offset..] == data[offset..r.end] + data[r.end..];
    }
  }

  lemma {:induction false} ChildrenReadBack(before: Bytes, es: seq<Element>)
    requires AllEncodable(es)
    ensures Children(before + EncodeAll(es), |before|) == Some(es)
    decreases |es|
  {
    hide DerElement;
    hide Encode;
    hide Encodable;
    if es == [] {
      assert before + [] == before;
    } else {
      var data := before + EncodeAll(es);
      assert data == before + Encode(es[0]) + EncodeAll(es[1..]);
      ReadsBack(before, es[0], EncodeAll(es[1..]));
      ChildrenReadBack(before + Encode(es[0]), es[1..]);
      assert es == [es[0]] + es[1..];
    }
  }

  /** Splits a value into its children. They are the elements whose encodings, one after
      the other, are the whole input; None says that there are no such elements. */
  method DerChildren(data: Bytes) returns (r: Option<seq<Element>>)
    ensures r == Children(data, 0)
    ensures r.Some? ==> AllEncodable(r.value) && EncodeAll(r.value) == data
    ensures forall es :: AllEncodable(es) && EncodeAll(es) == data ==> r == Some(es)
  {
    hide DerElement;
    var children: seq<Element> := [];
    var offset := 0;
    assert Children(data, 0).Some? ==> [] + Children(data, 0).value == Children(data, 0).value;
    while offset < |data|
      invariant offset <= |data|
      invariant Children(data, 0) == if Children(data, offset).None? then None else Some(children + Children(data, offset).value)
    {
      var read := DerElement(data, offset);
      if read.None? {
        RefusedMeansNone(data);
        return None;
      }
      ghost var rest := Children(data, read.value.end);
      assert rest.Some? ==> children + ([read.value.element] + rest.value) == children + [read.value.element] + rest.value;
      children := children + [read.value.element];
      offset := read.value.end;
    }
    assert children + [] == children;
    r := Some(children);
    ChildrenAreEncoded(data, 0);
    RefusedMeansNone(data);
  }

  lemma RefusedMeansNone(data: Bytes)
    ensures forall es :: AllEncodable(es) && EncodeAll(es) == data ==> Children(data, 0) == Some(es)
  {
    forall es | AllEncodable(es) && EncodeAll(es) == data ensures Children(data, 0) == Some(es) {
      ChildrenReadBack([], es);
      assert [] + EncodeAll(es) == data;
    }
  }
}
