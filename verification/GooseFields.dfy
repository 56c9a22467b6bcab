/** The named fields of a GOOSE PDU: what goose_parse_pdu makes of the elements that
    IEC 61850-8-1, Annex A, puts into one. */
module GooseFields {
  import opened Wrappers
  import opened Bytes
  import opened Ber
  import opened SerCodec
  import opened BerReaders
  import opened Goose
  import opened GoosePdu

  /** The field recorded for an element with this tag octet and value. */
  ghost predicate Records(buf: seq<Byte>, r: GooseFieldRef, f: Field) {
    && r.tagOctet == f.tag
    && r.value + r.valueLen <= |buf| && buf[r.value..r.value + r.valueLen] == f.value
    && r.id == NameOf(f.tag) && r.vtype == if 0x80 <= f.tag < 0xC0 then ExpectedType(NameOf(f.tag)) else VUnknown
  }

  function NameOf(tag: Byte): GooseFieldId {
    if 0x80 <= tag < 0xC0 then FieldFromTagNumber(tag % 32) else UnknownField
  }

  lemma HeadRecorded(buf: seq<Byte>, off: nat, f: Field)
    requires |f.value| < SIZE_LIMIT && f.tag % 32 != 31 && StandsAt(buf, off, Tlv(f.tag, f.value))
    ensures NextTlv(buf, |buf|, off).Some?
    ensures var t := NextTlv(buf, |buf|, off).value;
      t.tlvLen == |Tlv(f.tag, f.value)| && t.value + t.valueLen <= |buf| && Records(buf, FieldOf(t), f)
  {
    hide NextTlv, TlvAt, LengthField;
    BothInvertAppend(buf, off, f.tag, f.value);
    TagMeans(buf, |buf|, off);
  }

  /** Any run of at most fieldCap elements in low-tag form of which only the last may be
      allData: each is recorded, in order, whatever becomes of the data. */
  lemma {:induction false} RunRecorded(buf: seq<Byte>, off: nat, fields: seq<Field>, fieldCap: nat, mmsCap: nat)
    requires StandsAt(buf, off, FieldBytes(fields)) && off + |FieldBytes(fields)| == |buf| < SIZE_LIMIT
    requires |fields| <= fieldCap && forall k :: 0 <= k < |fields| ==> fields[k].tag % 32 != 31
    requires forall k :: 0 <= k < |fields| - 1 ==> NameOf(fields[k].tag) != AllData
    ensures var r := ParseFields(buf, |buf|, off, fieldCap, mmsCap).fields;
      |r| == |fields| && forall k :: 0 <= k < |fields| ==> Records(buf, r[k], fields[k])
    decreases |fields|
  {
    hide NextTlv, Records, FieldOf, ParseMms, Tlv, NameOf;
    if fields != [] {
      HeadFieldStands(buf, off, fields);
      FieldInside(fields);
      HeadRecorded(buf, off, fields[0]);
      var t := NextTlv(buf, |buf|, off).value;
      NamesHead(buf, t, fields[0]);
      var m := MmsOf(buf, t, mmsCap);
      if |fields| > 1 || m.status == GooseOk {
        RunRecorded(buf, off + t.tlvLen, fields[1..], fieldCap - 1, mmsCap - |m.entries|);
      }
    }
  }

  lemma FieldInside(fields: seq<Field>)
    requires fields != []
    ensures |fields[0].value| < |FieldBytes(fields)|
  {
  }

  lemma NamesHead(buf: seq<Byte>, t: BerTlv, f: Field)
    requires Records(buf, FieldOf(t), f)
    ensures FieldOf(t).id == NameOf(f.tag)
  {
  }

  function Standard(values: seq<Octets>): (fields: seq<Field>)
    requires |values| == 12
    ensures |fields| == 12
  {
    [Field(0x80, values[0]), Field(0x81, values[1]), Field(0x82, values[2]), Field(0x83, values[3]),
     Field(0x84, values[4]), Field(0x85, values[5]), Field(0x86, values[6]), Field(0x87, values[7]),
     Field(0x88, values[8]), Field(0x89, values[9]), Field(0x8A, values[10]), Field(0xAB, values[11])]
  }

  /** The fields of a GOOSE PDU in their order, and the types of their values. */
  const NAMES: seq<GooseFieldId> :=
    [GocbRef, TimeAllowedToLive, DatSet, GoId, T, StNum, SqNum, Test, ConfRev, NdsCom, NumDatSetEntries, AllData]

  const TYPES: seq<GooseValueType> :=
    [VVisibleString, VUint, VVisibleString, VVisibleString, VUtcTime, VUint, VUint, VBoolean, VUint, VBoolean,
     VUint, VMmsDataSeq]

  /** Of any element: a context-specific one numbered 0 to 11 has the name and type of its
      number, any other has none. */
  lemma FieldNamed(t: BerTlv)
    ensures var f := FieldOf(t);
      if t.tag.cls == Context && t.tag.number <= 11
      then f.id == NAMES[t.tag.number] && f.vtype == TYPES[t.tag.number]
      else f.id == UnknownField && f.vtype == VUnknown
  {
  }

  lemma StandardNames(values: seq<Octets>, k: nat)
    requires |values| == 12 && k < 12
    ensures var f := Standard(values)[k];
      && f.value == values[k] && 0x80 <= f.tag < 0xC0 && f.tag % 32 != 31
      && NameOf(f.tag) == NAMES[k] && ExpectedType(NAMES[k]) == TYPES[k]
      && (k < 11 ==> NAMES[k] != AllData)
  {
  }

  /** A 0x61 element around such a run of elements. */
  lemma RunPdu(fields: seq<Field>, fieldCap: nat, mmsCap: nat)
    requires |Tlv(0x61, FieldBytes(fields))| < SIZE_LIMIT && |fields| <= fieldCap
    requires forall k :: 0 <= k < |fields| ==> fields[k].tag % 32 != 31
    requires forall k :: 0 <= k < |fields| - 1 ==> NameOf(fields[k].tag) != AllData
    ensures var pdu := Tlv(0x61, FieldBytes(fields)); var r := ParsePdu(pdu, fieldCap, mmsCap).fields;
      |r| == |fields| && forall k :: 0 <= k < |fields| ==> Records(pdu, r[k], fields[k])
  {
    hide *;
    var content := FieldBytes(fields);
    var pdu := Tlv(0x61, content);
    EnvelopeParsed(content, fieldCap, mmsCap);
    RunRecorded(pdu, |pdu| - |content|, fields, fieldCap, mmsCap);
  }

  lemma EnvelopeParsed(content: Octets, fieldCap: nat, mmsCap: nat)
    requires |Tlv(0x61, content)| < SIZE_LIMIT
    ensures var pdu := Tlv(0x61, content);
      && |content| <= |pdu| && StandsAt(pdu, |pdu| - |content|, content)
      && ParsePdu(pdu, fieldCap, mmsCap) == ParseFields(pdu, |pdu|, |pdu| - |content|, fieldCap, mmsCap)
  {
    hide Tlv, ParseFields, NextTlv, Envelope;
    EnvelopeRead(content);
  }

  /** Field k is recorded under its name, with its type and value. */
  ghost predicate Named(pdu: seq<Byte>, r: GooseFieldRef, k: nat, value: Octets) {
    && k < 12 && r.id == NAMES[k] && r.vtype == TYPES[k]
    && r.value + r.valueLen <= |pdu| && pdu[r.value..r.value + r.valueLen] == value
  }

  lemma RecordsNamed(pdu: seq<Byte>, r: GooseFieldRef, values: seq<Octets>, k: nat)
    requires |values| == 12 && k < 12 && Records(pdu, r, Standard(values)[k])
    ensures Named(pdu, r, k, values[k])
  {
    StandardNames(values, k);
    hide Standard, NameOf, ExpectedType;
  }

  /** A PDU of the twelve standard elements, with any values: the twelve named fields are
      recorded in order, with their value types and values. */
  lemma NamedFields(values: seq<Octets>, fieldCap: nat, mmsCap: nat)
    requires |values| == 12 <= fieldCap && |Tlv(0x61, FieldBytes(Standard(values)))| < SIZE_LIMIT
    ensures var pdu := Tlv(0x61, FieldBytes(Standard(values))); var r := ParsePdu(pdu, fieldCap, mmsCap).fields;
      |r| == 12 && forall k :: 0 <= k < 12 ==> Named(pdu, r[k], k, values[k])
  {
    hide *;
    var fields := Standard(values);
    forall k | 0 <= k < 12
      ensures fields[k].tag % 32 != 31 && (k < 11 ==> NameOf(fields[k].tag) != AllData)
    {
      StandardNames(values, k);
    }
    RunPdu(fields, fieldCap, mmsCap);
    var pdu := Tlv(0x61, FieldBytes(fields));
    var r := ParsePdu(pdu, fieldCap, mmsCap).fields;
    forall k | 0 <= k < 12
      ensures Named(pdu, r[k], k, values[k])
    {
      RecordsNamed(pdu, r[k], values, k);
    }
  }

  lemma EnvelopeRead(content: Octets)
    requires |Tlv(0x61, content)| < SIZE_LIMIT
    ensures var pdu := Tlv(0x61, content); var off := |pdu| - |content|;
      && NextTlv(pdu, |pdu|, 0).Some? && Envelope(NextTlv(pdu, |pdu|, 0).value.tag)
      && NextTlv(pdu, |pdu|, 0).value.value == off && NextTlv(pdu, |pdu|, 0).value.valueLen == |content|
      && 0 <= off && StandsAt(pdu, off, content)
  {
    hide NextTlv, TlvAt, LengthField;
    var pdu := Tlv(0x61, content);
    assert pdu[0..|pdu|] == pdu;
    BothInvertAppend(pdu, 0, 0x61, content);
    TagMeans(pdu, |pdu|, 0);
    assert 0x61 % 32 == 1;
  }
}
