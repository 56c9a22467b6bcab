/** Trees of definite-length BER elements, their encoding, and the decoder that
    recovers them: the independent reading of an MMS data sequence. */
module BerForest {
  import opened Wrappers
  import opened Bytes
  import opened Ber

  /** An element with the identifier and length octets its sender chose. */
  datatype Element = Element(id: seq<Byte>, len: seq<Byte>, body: Body)
  datatype Body = Leaf(octets: seq<Byte>) | Node(children: seq<Element>)

  function ElementBytes(e: Element): seq<Byte>
    decreases e, 1
  {
    e.id + e.len + BodyBytes(e.body)
  }

  function BodyBytes(b: Body): seq<Byte>
    decreases b, 1
  {
    match b
    case Leaf(octets) => octets
    case Node(children) => ForestBytes(children)
  }

  function ForestBytes(es: seq<Element>): seq<Byte>
    decreases es, 0
  {
    if es == [] then [] else ElementBytes(es[0]) + ForestBytes(es[1..])
  }

  predicate WellFormed(e: Element)
    decreases e, 1
  {
    && Identifier(e.id)
    && LengthOctets(e.len, |BodyBytes(e.body)|)
    && (TagOf(e.id).constructed <==> e.body.Node?)
    && (e.body.Node? ==> WellFormedForest(e.body.children))
  }

  predicate WellFormedForest(es: seq<Element>)
    decreases es, 0
  {
    es != [] ==> WellFormed(es[0]) && WellFormedForest(es[1..])
  }

  /** Number of elements at every depth. */
  function Size(es: seq<Element>): nat
    decreases es, 0
  {
    if es == [] then 0 else SizeOf(es[0]) + Size(es[1..])
  }

  function SizeOf(e: Element): nat
    decreases e, 1
  {
    1 + if e.body.Node? then Size(e.body.children) else 0
  }

  // ---- Reading one encoded element ------------------------------------------

  /** The element header as ber_next_tlv reports it at offset `off`. */
  function TlvOf(e: Element, off: nat): BerTlv
    requires Identifier(e.id)
  {
    var head := |e.id| + |e.len|;
    BerTlv(TagOf(e.id), off, head + |BodyBytes(e.body)|, off + head, |BodyBytes(e.body)|)
  }

  lemma ElementReads(buf: seq<Byte>, limit: nat, off: nat, e: Element)
    requires limit <= |buf| && WellFormed(e) && StandsAt(buf, off, ElementBytes(e)) && off + |ElementBytes(e)| <= limit
    ensures NextTlv(buf, limit, off) == Some(TlvOf(e, off))
    ensures |ElementBytes(e)| == TlvOf(e, off).tlvLen
    ensures StandsAt(buf, TlvOf(e, off).value, BodyBytes(e.body))
  {
    hide NextTlv, BodyBytes;
    StandsParts(buf, off, e.id + e.len, BodyBytes(e.body));
    StandsParts(buf, off, e.id, e.len);
    NextTlvIff(buf, limit, off, TlvOf(e, off));
  }

  // ---- Decoding ---------------------------------------------------------------

  /** The forest that exactly fills buf[off..limit], if the octets are one. */
  function ForestAt(buf: seq<Byte>, limit: nat, off: nat): (r: Option<seq<Element>>)
    requires off <= limit <= |buf|
    decreases limit - off, 0
  {
    if off == limit then Some([])
    else
      var t := NextTlv(buf, limit, off);
      if t.None? then None
      else
        var body := BodyAt(buf, t.value);
        var rest := ForestAt(buf, limit, off + t.value.tlvLen);
        if body.None? || rest.None? then None
        else Some([ElementFrom(buf, t.value, body.value)] + rest.value)
  }

  function BodyAt(buf: seq<Byte>, t: BerTlv): Option<Body>
    requires t.start < t.value && t.value + t.valueLen == t.start + t.tlvLen <= |buf|
    decreases t.valueLen, 1
  {
    if !t.tag.constructed then Some(Leaf(buf[t.value..t.value + t.valueLen]))
    else
      var children := ForestAt(buf, t.value + t.valueLen, t.value);
      if children.None? then None else Some(Node(children.value))
  }

  function ElementFrom(buf: seq<Byte>, t: BerTlv, body: Body): Element
    requires t.value <= |buf|
  {
    var e := t.start + t.tag.encodedLen;
    if t.start <= e <= t.value then Element(buf[t.start..e], buf[e..t.value], body) else Element([], [], body)
  }

  /** A well-formed forest decodes to itself wherever it stands. */
  lemma {:induction false} DecodeEncoded(buf: seq<Byte>, off: nat, es: seq<Element>)
    requires WellFormedForest(es) && StandsAt(buf, off, ForestBytes(es))
    ensures ForestAt(buf, off + |ForestBytes(es)|, off) == Some(es)
    decreases es, 0
  {
    hide NextTlv, BodyAt, ElementFrom, ElementBytes, LengthOctets, Identifier;
    if es != [] {
      var e, limit := es[0], off + |ForestBytes(es)|;
      StandsParts(buf, off, ElementBytes(e), ForestBytes(es[1..]));
      ElementReads(buf, limit, off, e);
      DecodeBody(buf, off, e);
      DecodeEncoded(buf, off + |ElementBytes(e)|, es[1..]);
      HeaderSlices(buf, off, e);
      assert [e] + es[1..] == es;
    }
  }

  lemma {:induction false} DecodeBody(buf: seq<Byte>, off: nat, e: Element)
    requires WellFormed(e) && StandsAt(buf, off, ElementBytes(e))
    ensures off + TlvOf(e, off).tlvLen <= |buf| && BodyAt(buf, TlvOf(e, off)) == Some(e.body)
    decreases e, 1
  {
    hide NextTlv, ElementBytes, LengthOctets, Identifier, ForestAt, ForestBytes, WellFormedForest;
    ElementReads(buf, |buf|, off, e);
    if e.body.Node? {
      DecodeEncoded(buf, TlvOf(e, off).value, e.body.children);
    }
  }

  lemma HeaderSlices(buf: seq<Byte>, off: nat, e: Element)
    requires WellFormed(e) && StandsAt(buf, off, ElementBytes(e))
    ensures off + TlvOf(e, off).tlvLen <= |buf| && ElementFrom(buf, TlvOf(e, off), e.body) == e
  {
    hide BodyBytes;
    StandsParts(buf, off, e.id + e.len, BodyBytes(e.body));
    StandsParts(buf, off, e.id, e.len);
  }

  /** Whatever decodes is well formed and encodes back to the octets read. */
  lemma {:induction false} EncodeDecoded(buf: seq<Byte>, limit: nat, off: nat)
    requires off <= limit <= |buf| && ForestAt(buf, limit, off).Some?
    ensures var es := ForestAt(buf, limit, off).value;
      WellFormedForest(es) && ForestBytes(es) == buf[off..limit]
    decreases limit - off, 1
  {
    hide NextTlv, BodyAt, ElementFrom, ElementBytes, WellFormed;
    if off < limit {
      var t := NextTlv(buf, limit, off).value;
      var body := BodyAt(buf, t).value;
      var e := ElementFrom(buf, t, body);
      var next := off + t.tlvLen;
      EncodeElement(buf, limit, off);
      EncodeDecoded(buf, limit, next);
      var es := ForestAt(buf, limit, off).value;
      assert es[0] == e && es[1..] == ForestAt(buf, limit, next).value;
      assert buf[off..limit] == buf[off..next] + buf[next..limit];
    }
  }

  lemma {:induction false} EncodeElement(buf: seq<Byte>, limit: nat, off: nat)
    requires off < limit <= |buf| && NextTlv(buf, limit, off).Some? && BodyAt(buf, NextTlv(buf, limit, off).value).Some?
    ensures var t := NextTlv(buf, limit, off).value; var e := ElementFrom(buf, t, BodyAt(buf, t).value);
      WellFormed(e) && ElementBytes(e) == buf[off..off + t.tlvLen]
    decreases limit - off, 0
  {
    hide NextTlv, ElementBytes, ElementFrom, WellFormed;
    var t := NextTlv(buf, limit, off).value;
    NextTlvIff(buf, limit, off, t);
    EncodeBody(buf, t);
    WholeElement(buf, t, BodyAt(buf, t).value);
    HeaderWellFormed(buf, limit, t, BodyAt(buf, t).value);
  }

  lemma {:induction false} EncodeBody(buf: seq<Byte>, t: BerTlv)
    requires t.start < t.value && t.value + t.valueLen == t.start + t.tlvLen <= |buf| && BodyAt(buf, t).Some?
    ensures var body := BodyAt(buf, t).value;
      && BodyBytes(body) == buf[t.value..t.value + t.valueLen]
      && (t.tag.constructed <==> body.Node?)
      && (body.Node? ==> WellFormedForest(body.children))
    decreases t.valueLen, 2
  {
    hide ForestAt, WellFormedForest, ForestBytes;
    if t.tag.constructed {
      EncodeDecoded(buf, t.value + t.valueLen, t.value);
    }
  }

  lemma HeaderWellFormed(buf: seq<Byte>, limit: nat, t: BerTlv, body: Body)
    requires limit <= |buf| && ElementAt(buf, limit, t.start, t)
    requires BodyBytes(body) == buf[t.value..t.value + t.valueLen]
    requires t.tag.constructed <==> body.Node?
    requires body.Node? ==> WellFormedForest(body.children)
    ensures WellFormed(ElementFrom(buf, t, body))
  {
    hide BodyBytes, WellFormedForest, Identifier, LengthOctets;
  }

  lemma WholeElement(buf: seq<Byte>, t: BerTlv, body: Body)
    requires t.start + t.tag.encodedLen < t.value && t.value + t.valueLen == t.start + t.tlvLen <= |buf|
    requires BodyBytes(body) == buf[t.value..t.value + t.valueLen]
    ensures ElementBytes(ElementFrom(buf, t, body)) == buf[t.start..t.start + t.tlvLen]
  {
    hide BodyBytes;
    var e := t.start + t.tag.encodedLen;
    assert buf[t.start..e] + buf[e..t.value] + buf[t.value..t.value + t.valueLen] == buf[t.start..t.start + t.tlvLen];
  }

  /** The decoder accepts exactly the encodings of well-formed forests, and each
      octet string encodes at most one. */
  lemma ForestAtIff(buf: seq<Byte>, limit: nat, off: nat, es: seq<Element>)
    requires off <= limit <= |buf|
    ensures ForestAt(buf, limit, off) == Some(es) <==> WellFormedForest(es) && ForestBytes(es) == buf[off..limit]
  {
    hide ForestAt, ForestBytes, WellFormedForest;
    if ForestAt(buf, limit, off) == Some(es) {
      EncodeDecoded(buf, limit, off);
    } else if WellFormedForest(es) && ForestBytes(es) == buf[off..limit] {
      DecodeEncoded(buf, off, es);
    }
  }
}
