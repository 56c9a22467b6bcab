/** asn_tlv_codec.hpp: which octets the record decoder takes apart properly.  The
    decoder holds each element to the end of the buffer only; here is exactly when every
    element it reads also ends inside its parent. */
module SerPayload {
  import opened Wrappers
  import opened Bytes
  import opened Ber
  import opened SerCodec

  // ---- The grammar ------------------------------------------------------------------

  /** An element with the length octets its sender chose. */
  datatype Leaf = Leaf(tag: Byte, len: Octets, value: Octets)

  /** Length octets as the decoder reads them: short form, or long form of any number
      of octets, of which it keeps the last 64 bits. */
  predicate Spells(len: Octets, n: nat) {
    || (|len| == 1 && len[0] < 128 && n == len[0])
    || (|len| >= 2 && len[0] == 128 + (|len| - 1) && n == BigEndianWrapped(len[1..]))
  }

  predicate WellFormedLeaf(l: Leaf) {
    Spells(l.len, |l.value|)
  }

  function LeafBytes(l: Leaf): Octets {
    [l.tag] + l.len + l.value
  }

  function RunBytes(ls: seq<Leaf>): Octets {
    if ls == [] then [] else LeafBytes(ls[0]) + RunBytes(ls[1..])
  }

  predicate WellFormedRun(ls: seq<Leaf>) {
    forall k :: 0 <= k < |ls| ==> WellFormedLeaf(ls[k])
  }

  /** Some run of elements fills the value exactly. */
  ghost predicate Exact(value: Octets) {
    exists ls :: WellFormedRun(ls) && RunBytes(ls) == value
  }

  /** Every record among the elements has an exact value. */
  ghost predicate RecordsExact(ls: seq<Leaf>) {
    forall k :: 0 <= k < |ls| && ls[k].tag == RECORD_TAG ==> Exact(ls[k].value)
  }

  /** The octets start with a payload element, whose value is an exact run of elements,
      the records among them being exact runs of fields; anything may follow it. */
  ghost predicate StartsPayload(data: Octets, len: Octets, ls: seq<Leaf>) {
    && Spells(len, |RunBytes(ls)|) && WellFormedRun(ls) && RecordsExact(ls)
    && StandsAt(data, 0, LeafBytes(Leaf(PDU_TAG, len, RunBytes(ls))))
  }

  /** X.690 length octets of at most 8 octets spell what they mean. */
  lemma SpellsLengthOctets(len: Octets, n: nat)
    requires LengthOctets(len, n)
    ensures Spells(len, n)
  {
    if |len| >= 2 {
      NoWrap(len[1..], 8);
    }
  }

  // ---- One element ---------------------------------------------------------------------

  lemma LengthRead(data: Octets, off: nat, len: Octets, n: nat)
    requires Spells(len, n) && StandsAt(data, off, len)
    ensures LengthAt(data, off) == Ok((n, off + |len|))
  {
    hide BigEndianWrapped;
    assert data[off] == data[off..off + |len|][0];
    if |len| >= 2 {
      SubSlice(data, off, |len|, 1, |len|);
    }
  }

  lemma LeafReads(data: Octets, off: nat, l: Leaf)
    requires WellFormedLeaf(l) && StandsAt(data, off, LeafBytes(l))
    ensures var at := off + 1 + |l.len|;
      && TlvAt(data, off) == Ok(TlvInfo(l.tag, ConstructedBit(l.tag), at, |l.value|, at + |l.value|))
      && StandsAt(data, at, l.value)
      && at + |l.value| == off + |LeafBytes(l)|
  {
    hide LengthAt, Spells;
    StandsThree(data, off, [l.tag], l.len, l.value);
    assert data[off] == l.tag by {
      assert data[off..off + 1] == [l.tag];
    }
    LengthRead(data, off + 1, l.len, |l.value|);
    TlvFromLength(data, off, |l.value|, off + 1 + |l.len|);
  }

  /** The element that readTlv found. */
  function LeafAt(data: Octets, off: nat, f: TlvInfo): Leaf
    requires off < f.valueStart <= f.nextOffset <= |data|
  {
    Leaf(data[off], data[off + 1..f.valueStart], data[f.valueStart..f.nextOffset])
  }

  lemma LeafRead(data: Octets, off: nat)
    requires TlvAt(data, off).Ok?
    ensures var f := TlvAt(data, off).value; var l := LeafAt(data, off, f);
      && f.tag == l.tag && WellFormedLeaf(l) && LeafBytes(l) == data[off..f.nextOffset]
  {
    hide BigEndianWrapped;
    var f := TlvAt(data, off).value;
    var len := data[off + 1..f.valueStart];
    assert len[0] == data[off + 1];
    if |len| >= 2 {
      assert len[1..] == data[off + 2..f.valueStart];
    }
    assert [data[off]] + len + data[f.valueStart..f.nextOffset] == data[off..f.nextOffset];
  }

  // ---- Runs of elements ------------------------------------------------------------------

  /** The run of elements that fills data[off..end] exactly, if there is one. */
  function RunAt(data: Octets, off: nat, end: nat): (r: Option<seq<Leaf>>)
    requires off <= end <= |data|
    decreases end - off
  {
    if off == end then Some([])
    else
      match TlvAt(data, off)
      case Err(_) => None
      case Ok(f) =>
        if f.nextOffset > end then None
        else
          var rest := RunAt(data, f.nextOffset, end);
          if rest.None? then None else Some([LeafAt(data, off, f)] + rest.value)
  }

  lemma {:induction false} RunDecoded(data: Octets, off: nat, end: nat)
    requires off <= end <= |data| && RunAt(data, off, end).Some?
    ensures var ls := RunAt(data, off, end).value; WellFormedRun(ls) && RunBytes(ls) == data[off..end]
    decreases end - off
  {
    hide TlvAt, LeafBytes, LeafAt, WellFormedLeaf;
    if off < end {
      var f := TlvAt(data, off).value;
      LeafRead(data, off);
      RunDecoded(data, f.nextOffset, end);
      var ls := RunAt(data, off, end).value;
      assert ls[1..] == RunAt(data, f.nextOffset, end).value;
      assert data[off..end] == data[off..f.nextOffset] + data[f.nextOffset..end];
    }
  }

  lemma {:induction false} RunEncoded(data: Octets, off: nat, ls: seq<Leaf>)
    requires WellFormedRun(ls) && StandsAt(data, off, RunBytes(ls))
    ensures RunAt(data, off, off + |RunBytes(ls)|) == Some(ls)
    decreases |ls|
  {
    hide TlvAt, LeafBytes, WellFormedLeaf;
    if ls != [] {
      StandsParts(data, off, LeafBytes(ls[0]), RunBytes(ls[1..]));
      HeadLeaf(data, off, ls[0]);
      RunEncoded(data, off + |LeafBytes(ls[0])|, ls[1..]);
      assert [ls[0]] + ls[1..] == ls;
    }
  }

  lemma HeadLeaf(data: Octets, off: nat, l: Leaf)
    requires WellFormedLeaf(l) && StandsAt(data, off, LeafBytes(l))
    ensures TlvAt(data, off).Ok? && TlvAt(data, off).value.nextOffset == off + |LeafBytes(l)| > off
    ensures LeafAt(data, off, TlvAt(data, off).value) == l
  {
    hide TlvAt, Spells;
    LeafReads(data, off, l);
    StandsThree(data, off, [l.tag], l.len, l.value);
    assert data[off..off + 1] == [l.tag];
  }

  /** A window is decoded exactly as the run that fills it, which is unique. */
  lemma RunAtIff(data: Octets, off: nat, end: nat, ls: seq<Leaf>)
    requires off <= end <= |data|
    ensures RunAt(data, off, end) == Some(ls) <==> WellFormedRun(ls) && RunBytes(ls) == data[off..end]
  {
    hide RunAt, RunBytes, WellFormedRun;
    if RunAt(data, off, end) == Some(ls) {
      RunDecoded(data, off, end);
    } else if WellFormedRun(ls) && RunBytes(ls) == data[off..end] {
      RunEncoded(data, off, ls);
    }
  }

  lemma ExactIff(data: Octets, off: nat, end: nat)
    requires off <= end <= |data|
    ensures Exact(data[off..end]) <==> RunAt(data, off, end).Some?
  {
    hide RunAt, RunBytes, WellFormedRun;
    if RunAt(data, off, end).Some? {
      RunDecoded(data, off, end);
    } else if Exact(data[off..end]) {
      var ls :| WellFormedRun(ls) && RunBytes(ls) == data[off..end];
      RunAtIff(data, off, end, ls);
    }
  }

  // ---- The decoder's walk ------------------------------------------------------------------

  /** Every element the field loop reads ends inside the record. */
  predicate FieldsStay(data: Octets, off: nat, end: nat)
    decreases |data| - off
  {
    off >= end || TlvAt(data, off).Err? ||
    (TlvAt(data, off).value.nextOffset <= end && FieldsStay(data, TlvAt(data, off).value.nextOffset, end))
  }

  /** Every element the record loop reads ends inside the payload, and every field of a
      record inside the record. */
  predicate RecordsStay(data: Octets, off: nat, end: nat)
    decreases |data| - off
  {
    off >= end || TlvAt(data, off).Err? ||
    var r := TlvAt(data, off).value;
    && r.nextOffset <= end
    && (r.tag == RECORD_TAG ==> FieldsStay(data, r.valueStart, r.nextOffset))
    && RecordsStay(data, r.nextOffset, end)
  }

  predicate ChildrenStay(data: Octets) {
    TlvAt(data, 0).Ok? ==> RecordsStay(data, TlvAt(data, 0).value.valueStart, TlvAt(data, 0).value.nextOffset)
  }

  // ---- What a payload means --------------------------------------------------------------------

  function FieldsIn(ls: seq<Leaf>): seq<Field> {
    if ls == [] then [] else [Field(ls[0].tag, ls[0].value)] + FieldsIn(ls[1..])
  }

  function RecordIn(l: Leaf): seq<SerRecord> {
    if l.tag != RECORD_TAG then []
    else
      var fields := RunAt(l.value, 0, |l.value|);
      if fields.None? then [] else [Meant(FieldsIn(fields.value), EMPTY_RECORD)]
  }

  function RecordsMeant(ls: seq<Leaf>): seq<SerRecord> {
    if ls == [] then [] else RecordIn(ls[0]) + RecordsMeant(ls[1..])
  }

  lemma {:induction false} FieldsStayIff(data: Octets, off: nat, end: nat, rec: SerRecord)
    requires off <= end <= |data|
    ensures FieldsAt(data, off, end, rec).Ok? && FieldsStay(data, off, end) <==> RunAt(data, off, end).Some?
    ensures RunAt(data, off, end).Some? ==>
      FieldsAt(data, off, end, rec) == Ok(Meant(FieldsIn(RunAt(data, off, end).value), rec))
    decreases end - off
  {
    hide TlvAt, SetField;
    if off < end && TlvAt(data, off).Ok? && TlvAt(data, off).value.nextOffset <= end {
      var f := TlvAt(data, off).value;
      var next := SetField(rec, f.tag, data[f.valueStart..f.valueStart + f.length]);
      LeafRead(data, off);
      FieldsStayIff(data, f.nextOffset, end, next);
      if RunAt(data, f.nextOffset, end).Some? {
        FieldsInHead(LeafAt(data, off, f), RunAt(data, f.nextOffset, end).value, rec);
      }
    }
  }

  lemma FieldsInHead(l: Leaf, rest: seq<Leaf>, rec: SerRecord)
    ensures Meant(FieldsIn([l] + rest), rec) == Meant(FieldsIn(rest), SetField(rec, l.tag, l.value))
  {
    hide SetField;
    assert ([l] + rest)[1..] == rest;
    assert ([Field(l.tag, l.value)] + FieldsIn(rest))[1..] == FieldsIn(rest);
  }

  /** A record's own fields, taken from its value or from where it stands. */
  lemma RecordFields(data: Octets, off: nat, end: nat)
    requires off <= end <= |data| && RunAt(data, off, end).Some?
    ensures RunAt(data[off..end], 0, end - off) == RunAt(data, off, end)
  {
    hide RunAt, RunBytes, WellFormedRun;
    var value, ls := data[off..end], RunAt(data, off, end).value;
    RunAtIff(data, off, end, ls);
    assert value[0..end - off] == value;
    RunAtIff(value, 0, end - off, ls);
  }

  /** One element of the record loop, the loop going on with a known outcome. */
  lemma PartStep(data: Octets, off: nat, end: nat, out: seq<SerRecord>)
    requires off < end <= |data| && TlvAt(data, off).Ok? && TlvAt(data, off).value.nextOffset <= end
    ensures var r := TlvAt(data, off).value; var l := LeafAt(data, off, r);
      && ((l.tag == RECORD_TAG ==> Exact(l.value)) <==>
           (r.tag == RECORD_TAG ==>
             FieldsAt(data, r.valueStart, r.nextOffset, EMPTY_RECORD).Ok?
               && FieldsStay(data, r.valueStart, r.nextOffset)))
      && ((l.tag == RECORD_TAG ==> Exact(l.value)) ==>
           RecordsAt(data, off, end, out) == RecordsAt(data, r.nextOffset, end, out + RecordIn(l)))
  {
    hide FieldsStay, FieldsAt, RunAt, Exact;
    var r := TlvAt(data, off).value;
    LeafRead(data, off);
    if r.tag == RECORD_TAG {
      FieldsStayIff(data, r.valueStart, r.nextOffset, EMPTY_RECORD);
      ExactIff(data, r.valueStart, r.nextOffset);
      if RunAt(data, r.valueStart, r.nextOffset).Some? {
        RecordFields(data, r.valueStart, r.nextOffset);
      }
    } else {
      assert out + [] == out;
    }
  }

  lemma {:induction false} RecordsStayIff(data: Octets, off: nat, end: nat, out: seq<SerRecord>)
    requires off <= end <= |data|
    ensures RecordsAt(data, off, end, out).result.Ok? && RecordsStay(data, off, end)
      <==> RunAt(data, off, end).Some? && RecordsExact(RunAt(data, off, end).value)
    ensures RunAt(data, off, end).Some? && RecordsExact(RunAt(data, off, end).value) ==>
      RecordsAt(data, off, end, out) == Decoded(out + RecordsMeant(RunAt(data, off, end).value), Ok(()))
    decreases end - off
  {
    hide TlvAt, FieldsStay, FieldsAt, Exact, RecordIn, LeafAt;
    if off == end {
      assert out + [] == out;
    } else if TlvAt(data, off).Ok? && TlvAt(data, off).value.nextOffset <= end {
      var r := TlvAt(data, off).value;
      var l := LeafAt(data, off, r);
      PartStep(data, off, end, out);
      RecordsStayIff(data, r.nextOffset, end, out + RecordIn(l));
      var rest := RunAt(data, r.nextOffset, end);
      if rest.Some? {
        HeadExact(l, rest.value);
        assert (out + RecordIn(l)) + RecordsMeant(rest.value) == out + RecordsMeant([l] + rest.value);
      }
    }
  }

  lemma HeadExact(l: Leaf, rest: seq<Leaf>)
    ensures RecordsExact([l] + rest) <==> (l.tag == RECORD_TAG ==> Exact(l.value)) && RecordsExact(rest)
    ensures RecordsMeant([l] + rest) == RecordIn(l) + RecordsMeant(rest)
  {
    hide Exact, RecordIn;
    var ls := [l] + rest;
    assert ls[1..] == rest && ls[0] == l;
    assert forall k :: 0 <= k < |rest| ==> rest[k] == ls[k + 1];
  }

  // ---- The theorem ----------------------------------------------------------------------------

  /** A successful decode keeps every element inside its parent exactly when the octets
      start with a payload element made of exact runs.  Then the records are those the
      runs mean, whatever follows the payload. */
  lemma ContainedIff(data: Octets)
    ensures Decode(data).result.Ok? && ChildrenStay(data) <==> exists len, ls :: StartsPayload(data, len, ls)
    ensures forall len, ls :: StartsPayload(data, len, ls) ==> Decode(data) == Decoded(RecordsMeant(ls), Ok(()))
  {
    hide RecordsStay, RecordsAt, RunAt, RunBytes, WellFormedRun, RecordsExact, RecordsMeant;
    if Decode(data).result.Ok? && ChildrenStay(data) {
      PayloadFound(data);
    }
    forall len, ls | StartsPayload(data, len, ls)
      ensures ChildrenStay(data) && Decode(data) == Decoded(RecordsMeant(ls), Ok(()))
    {
      PayloadDecodes(data, len, ls);
    }
  }

  lemma PayloadFound(data: Octets)
    requires Decode(data).result.Ok? && ChildrenStay(data)
    ensures exists len, ls :: StartsPayload(data, len, ls)
  {
    hide RecordsStay, RecordsAt, RunAt, RunBytes, WellFormedRun, RecordsExact, TlvAt, Spells;
    var top := TlvAt(data, 0).value;
    RecordsStayIff(data, top.valueStart, top.nextOffset, []);
    RunDecoded(data, top.valueStart, top.nextOffset);
    LeafRead(data, 0);
    var l := LeafAt(data, 0, top);
    var ls := RunAt(data, top.valueStart, top.nextOffset).value;
    assert StartsPayload(data, l.len, ls);
  }

  lemma PayloadDecodes(data: Octets, len: Octets, ls: seq<Leaf>)
    requires StartsPayload(data, len, ls)
    ensures ChildrenStay(data) && Decode(data) == Decoded(RecordsMeant(ls), Ok(()))
  {
    hide RecordsStay, RecordsAt, RunAt, RunBytes, WellFormedRun, RecordsExact, TlvAt, Spells, RecordsMeant;
    LeafReads(data, 0, Leaf(PDU_TAG, len, RunBytes(ls)));
    var top := TlvAt(data, 0).value;
    RunEncoded(data, top.valueStart, ls);
    RecordsStayIff(data, top.valueStart, top.nextOffset, []);
    assert [] + RecordsMeant(ls) == RecordsMeant(ls);
  }

  /** An input on which the decoder succeeds although a child leaves its parent: the one
      field's value lies past both the record and the payload. */
  lemma ChildLeavesParent()
    ensures var data: Octets := [PDU_TAG, 4, RECORD_TAG, 2, 0x80, 1, 65];
      Decode(data) == Decoded([EMPTY_RECORD.(recordId := [65])], Ok(())) && !ChildrenStay(data)
  {
    var data: Octets := [PDU_TAG, 4, RECORD_TAG, 2, 0x80, 1, 65];
    assert TlvAt(data, 0) == Ok(TlvInfo(PDU_TAG, true, 2, 4, 6));
    assert TlvAt(data, 2) == Ok(TlvInfo(RECORD_TAG, true, 4, 2, 6));
    assert TlvAt(data, 4) == Ok(TlvInfo(0x80, false, 6, 1, 7)) && data[6..7] == [65];
    var rec := EMPTY_RECORD.(recordId := [65]);
    assert FieldsAt(data, 4, 6, EMPTY_RECORD) == FieldsAt(data, 7, 6, rec) == Ok(rec);
    RecordStep(data, 2, 6, [], TlvInfo(RECORD_TAG, true, 4, 2, 6), rec);
    assert [] + [rec] == [rec];
    assert !FieldsStay(data, 4, 6);
  }
}
