/** The payload of asn_tlv_codec.hpp as octets on the wire: what the C reader of
    asn/asn1_ber.c finds in it. */
module SerWire {
  import opened Wrappers
  import opened Bytes
  import opened Ber
  import opened SerCodec
  import opened BerReaders

  /** The elements ber_next_tlv finds one after the other, as far as it gets. */
  function Elements(data: Octets, off: nat, end: nat): seq<BerTlv>
    requires end <= |data|
    decreases end - off
  {
    if off >= end || NextTlv(data, end, off).None? then []
    else
      var t := NextTlv(data, end, off).value;
      [t] + Elements(data, off + t.tlvLen, end)
  }

  function ValueOf(data: Octets, t: BerTlv): Octets
    requires t.value + t.valueLen <= |data|
  {
    data[t.value..t.value + t.valueLen]
  }

  /** A record's element holds exactly its six fields, in this order, as context-specific
      primitive elements 0 to 5. */
  predicate RecordOnWire(data: Octets, t: BerTlv, rec: SerRecord) {
    && t.tag.cls == Universal && t.tag.constructed && t.tag.number == 16
    && t.value + t.valueLen <= |data|
    && var fields := Elements(data, t.value, t.value + t.valueLen);
       var values := [rec.recordId, rec.timestamp, rec.status, rec.description, rec.relayId, rec.relayName];
       && |fields| == 6
       && forall k :: 0 <= k < 6 ==>
         && fields[k].tag.cls == Context && !fields[k].tag.constructed && fields[k].tag.number == k
         && fields[k].value + fields[k].valueLen <= |data|
         && ValueOf(data, fields[k]) == values[k]
  }

  /** The payload is one application-wide constructed element 1 of one SEQUENCE a record. */
  predicate OnWire(data: Octets, records: seq<SerRecord>) {
    && |Elements(data, 0, |data|)| == 1
    && var top := Elements(data, 0, |data|)[0];
       && top.tag.cls == Application && top.tag.constructed && top.tag.number == 1
       && top.value + top.valueLen == |data|
       && var found := Elements(data, top.value, |data|);
          && |found| == |records|
          && forall i :: 0 <= i < |records| ==> RecordOnWire(data, found[i], records[i])
  }

  /** An appended element, seen through any window that holds it. */
  lemma AppendedFound(data: Octets, off: nat, end: nat, tag: Byte, value: Octets)
    requires |value| < SIZE_LIMIT && tag % 32 != 31 && StandsAt(data, off, Tlv(tag, value))
    requires off + |Tlv(tag, value)| <= end <= |data|
    ensures NextTlv(data, end, off).Some?
    ensures var t := NextTlv(data, end, off).value;
      && t.tlvLen == |Tlv(tag, value)| && t.value + t.valueLen == off + t.tlvLen && t.valueLen == |value|
      && StandsAt(data, t.value, value) && IdentifierMeans(tag, t.tag)
  {
    hide Tlv, NextTlv, TlvAt;
    BothInvertAppend(data, off, tag, value);
    var t := NextTlv(data, |data|, off).value;
    Locality(data, |data|, off, t, data, end, off);
    TagMeans(data, end, off);
  }

  /** Fields one after the other are found in their order. */
  predicate FieldsFound(data: Octets, found: seq<BerTlv>, fields: seq<Field>) {
    && |found| == |fields|
    && forall k :: 0 <= k < |fields| ==>
      && IdentifierMeans(fields[k].tag, found[k].tag)
      && found[k].value + found[k].valueLen <= |data|
      && ValueOf(data, found[k]) == fields[k].value
  }

  lemma NothingAppended()
    ensures FieldBytes([]) == [] && Content([]) == []
  {
  }

  lemma {:induction false} FieldElements(data: Octets, off: nat, fields: seq<Field>)
    requires |FieldBytes(fields)| < SIZE_LIMIT && StandsAt(data, off, FieldBytes(fields))
    requires forall k :: 0 <= k < |fields| ==> fields[k].tag % 32 != 31
    ensures FieldsFound(data, Elements(data, off, off + |FieldBytes(fields)|), fields)
    decreases |fields|
  {
    hide Tlv, NextTlv, IdentifierMeans, FieldBytes;
    NothingAppended();
    if fields != [] {
      var f, end := fields[0], off + |FieldBytes(fields)|;
      HeadFieldStands(data, off, fields);
      AppendedFound(data, off, end, f.tag, f.value);
      FieldElements(data, off + |Tlv(f.tag, f.value)|, fields[1..]);
    }
  }

  lemma RecordElement(data: Octets, off: nat, end: nat, rec: SerRecord)
    requires var item := ItemBytes(Record(FieldsOf(rec)));
      |item| < SIZE_LIMIT && StandsAt(data, off, item) && off + |item| <= end <= |data|
    ensures NextTlv(data, end, off).Some?
    ensures NextTlv(data, end, off).value.tlvLen == |ItemBytes(Record(FieldsOf(rec)))|
    ensures RecordOnWire(data, NextTlv(data, end, off).value, rec)
  {
    hide Tlv, NextTlv, FieldBytes, Elements, StandsAt;
    var fields := FieldsOf(rec);
    AppendedFound(data, off, end, RECORD_TAG, FieldBytes(fields));
    FieldElements(data, NextTlv(data, end, off).value.value, fields);
  }

  lemma {:induction false} RecordElements(data: Octets, off: nat, records: seq<SerRecord>)
    requires var content := Content(ItemsOf(records)); |content| < SIZE_LIMIT && StandsAt(data, off, content)
    ensures var found := Elements(data, off, off + |Content(ItemsOf(records))|);
      |found| == |records| && forall i :: 0 <= i < |records| ==> RecordOnWire(data, found[i], records[i])
    decreases |records|
  {
    hide ItemBytes, FieldsOf, NextTlv, RecordOnWire, Content;
    NothingAppended();
    var items := ItemsOf(records);
    if records == [] {
      assert items == [];
    } else {
      HeadItemStands(data, off, items);
      RecordElement(data, off, off + |Content(items)|, records[0]);
      assert items[1..] == ItemsOf(records[1..]);
      RecordElements(data, off + |ItemBytes(items[0])|, records[1..]);
    }
  }

  /** What the encoder puts on the wire, as the C reader finds it. */
  lemma EncodedOnWire(records: seq<SerRecord>)
    requires |Content(ItemsOf(records))| < SIZE_LIMIT
    ensures OnWire(Encode(records), records)
  {
    hide Tlv, NextTlv, Content, RecordOnWire;
    var content, data := Content(ItemsOf(records)), Encode(records);
    assert data[0..|data|] == data;
    AppendedFound(data, 0, |data|, PDU_TAG, content);
    var top := NextTlv(data, |data|, 0).value;
    assert Elements(data, |data|, |data|) == [];
    RecordElements(data, top.value, records);
  }
}
