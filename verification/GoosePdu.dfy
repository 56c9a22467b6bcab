/** asn/goose_parser.c: goose_find_pdu, goose_parse_pdu and the value helper. */
module GoosePdu {
  import opened Wrappers
  import opened Bytes
  import opened Ber
  import opened BerForest
  import opened Goose
  import opened GooseTrees

  function FieldOf(t: BerTlv): GooseFieldRef {
    var id := if t.tag.cls == Context then FieldFromTagNumber(t.tag.number) else UnknownField;
    var vtype := if t.tag.cls == Context then ExpectedType(id) else VUnknown;
    GooseFieldRef(id, vtype, t.tag.firstOctet, t.value, t.valueLen)
  }

  predicate Envelope(tag: BerTag) {
    tag.cls == Application && tag.constructed && tag.number == 1
  }

  datatype PduParse = PduParse(status: GooseStatus, fields: seq<GooseFieldRef>, entries: seq<MmsDataRef>)

  function MmsOf(buf: seq<Byte>, t: BerTlv, capacity: nat): (r: MmsParse)
    requires t.value + t.valueLen <= |buf|
    ensures |r.entries| <= capacity
  {
    if FieldOf(t).id == AllData then ParseMms(buf, t.value + t.valueLen, t.value, capacity, 0, -1)
    else MmsParse(GooseOk, [])
  }

  function ParseFields(buf: seq<Byte>, limit: nat, off: nat, fieldCap: nat, mmsCap: nat): (r: PduParse)
    requires limit <= |buf|
    ensures |r.fields| <= fieldCap && |r.entries| <= mmsCap
    decreases limit - off
  {
    if off >= limit || NextTlv(buf, limit, off).None? then PduParse(GooseOk, [], [])
    else if fieldCap == 0 then PduParse(ErrTooManyFields, [], [])
    else
      var t := NextTlv(buf, limit, off).value;
      var m := MmsOf(buf, t, mmsCap);
      if m.status != GooseOk then PduParse(m.status, [FieldOf(t)], m.entries)
      else
        var rest := ParseFields(buf, limit, off + t.tlvLen, fieldCap - 1, mmsCap - |m.entries|);
        PduParse(rest.status, [FieldOf(t)] + rest.fields, m.entries + rest.entries)
  }

  function ParsePdu(buf: seq<Byte>, fieldCap: nat, mmsCap: nat): PduParse {
    var outer := NextTlv(buf, |buf|, 0);
    if outer.None? then PduParse(ErrBer, [], [])
    else if !Envelope(outer.value.tag) then PduParse(ErrNotGoose, [], [])
    else ParseFields(buf, outer.value.value + outer.value.valueLen, outer.value.value, fieldCap, mmsCap)
  }

  ghost predicate FilledUp(before: seq<GooseFieldRef>, after: seq<GooseFieldRef>, fields: seq<GooseFieldRef>) {
    && |fields| <= |before| == |after|
    && after[..|fields|] == fields && after[|fields|..] == before[|fields|..]
  }

  lemma FilledOneMore(before: seq<GooseFieldRef>, after: seq<GooseFieldRef>, fields: seq<GooseFieldRef>,
      f: GooseFieldRef)
    requires FilledUp(before, after, fields) && |fields| < |before|
    ensures FilledUp(before, after[|fields| := f], fields + [f])
  {
    var next := after[|fields| := f];
    assert next[..|fields| + 1] == after[..|fields|] + [f];
    assert forall i :: |fields| + 1 <= i < |before| ==> next[i] == after[|fields|..][i - |fields|] == before[i];
  }

  /** Returns the status, the field count (the capacity when it fails) and the MMS
      capacity that is left. */
  method GooseParsePdu(buf: seq<Byte>, fields: array<GooseFieldRef>, fieldCapacity: nat, mms: array<MmsDataRef>,
      mmsCapacity: nat)
      returns (st: GooseStatus, fieldCount: nat, mmsLeft: nat)
    requires fieldCapacity <= fields.Length && mmsCapacity <= mms.Length
    modifies fields, mms
    ensures var r := ParsePdu(buf, fieldCapacity, mmsCapacity);
      && st == r.status
      && fieldCount == (if st == GooseOk then |r.fields| else fieldCapacity)
      && mmsLeft == mmsCapacity - |r.entries|
      && FilledUp(old(fields[..]), fields[..], r.fields)
      && FilledDown(old(mms[..]), mms[..], mmsCapacity, r.entries)
    ensures mmsLeft <= mmsCapacity
    ensures forall i :: mmsLeft <= i < mmsCapacity ==>
      SlotRooted(mms[..], i, mmsCapacity, ParsePdu(buf, fieldCapacity, mmsCapacity).fields)
  {
    hide ParseFields, NextTlv, FilledDown, SlotRooted, AllRooted;
    FilledNone(mms[..], mmsCapacity);
    PduRooted(buf, fieldCapacity, mmsCapacity);
    var outer, off := BerNextTlv(buf, |buf|, 0);
    if outer.None? {
      return ErrBer, fieldCapacity, mmsCapacity;
    }
    if !(outer.value.tag.cls == Application && outer.value.tag.constructed && outer.value.tag.number == 1) {
      return ErrNotGoose, fieldCapacity, mmsCapacity;
    }
    st, fieldCount, mmsLeft :=
      ParseInner(buf, outer.value.value, outer.value.valueLen, fields, fieldCapacity, mms, mmsCapacity);
    ghost var r := ParsePdu(buf, fieldCapacity, mmsCapacity);
    SlotsRooted(old(mms[..]), mms[..], mmsCapacity, r.entries, r.fields);
  }

  ghost function Continue(fields: seq<GooseFieldRef>, entries: seq<MmsDataRef>, r: PduParse): PduParse {
    PduParse(r.status, fields + r.fields, entries + r.entries)
  }

  /** One turn of the field loop. */
  lemma FieldStep(buf: seq<Byte>, limit: nat, off: nat, fieldCap: nat, mmsCap: nat, fields: seq<GooseFieldRef>,
      entries: seq<MmsDataRef>)
    requires limit <= |buf|
    ensures Continue(fields, entries, ParseFields(buf, limit, off, fieldCap, mmsCap)) ==
      if off >= limit || NextTlv(buf, limit, off).None? then PduParse(GooseOk, fields, entries)
      else if fieldCap == 0 then PduParse(ErrTooManyFields, fields, entries)
      else
        var t := NextTlv(buf, limit, off).value;
        var m := MmsOf(buf, t, mmsCap);
        if m.status != GooseOk then PduParse(m.status, fields + [FieldOf(t)], entries + m.entries)
        else Continue(fields + [FieldOf(t)], entries + m.entries,
                      ParseFields(buf, limit, off + t.tlvLen, fieldCap - 1, mmsCap - |m.entries|))
  {
    hide NextTlv, MmsOf, FieldOf;
    assert fields + [] == fields && entries + [] == entries;
    if off < limit && NextTlv(buf, limit, off).Some? && fieldCap > 0 {
      var t := NextTlv(buf, limit, off).value;
      var m := MmsOf(buf, t, mmsCap);
      if m.status == GooseOk {
        var rest := ParseFields(buf, limit, off + t.tlvLen, fieldCap - 1, mmsCap - |m.entries|);
        assert fields + ([FieldOf(t)] + rest.fields) == (fields + [FieldOf(t)]) + rest.fields;
        assert entries + (m.entries + rest.entries) == (entries + m.entries) + rest.entries;
      }
    }
  }

  /** The window loop over the envelope's value. */
  method ParseInner(buf: seq<Byte>, start: nat, length: nat, fields: array<GooseFieldRef>, fieldCapacity: nat,
                    mms: array<MmsDataRef>, mmsCapacity: nat)
      returns (st: GooseStatus, fieldCount: nat, mmsLeft: nat)
    requires start + length <= |buf| && fieldCapacity <= fields.Length && mmsCapacity <= mms.Length
    modifies fields, mms
    ensures var r := ParseFields(buf, start + length, start, fieldCapacity, mmsCapacity);
      && st == r.status
      && fieldCount == (if st == GooseOk then |r.fields| else fieldCapacity)
      && mmsLeft == mmsCapacity - |r.entries|
      && FilledUp(old(fields[..]), fields[..], r.fields)
      && FilledDown(old(mms[..]), mms[..], mmsCapacity, r.entries)
  {
    hide ParseFields, NextTlv, FilledDown, FilledUp, FieldOf, ParseMms, MmsOf, Continue;
    FilledNone(mms[..], mmsCapacity);
    NoneFilled(fields[..]);
    var inner, innerLen := start, length;
    var fieldUsed := 0;
    mmsLeft := mmsCapacity;
    ghost var done: seq<GooseFieldRef> := [];
    ghost var entries: seq<MmsDataRef> := [];
    ghost var whole := ParseFields(buf, start + length, start, fieldCapacity, mmsCapacity);
    NothingBefore(whole);
    while true
      invariant start <= inner && inner + innerLen == start + length
      invariant fieldUsed == |done| <= fieldCapacity && mmsLeft == mmsCapacity - |entries| <= mmsCapacity
      invariant FilledUp(old(fields[..]), fields[..], done)
      invariant FilledDown(old(mms[..]), mms[..], mmsCapacity, entries)
      invariant whole == Continue(done, entries,
        ParseFields(buf, start + length, inner, fieldCapacity - fieldUsed, mmsLeft))
      decreases innerLen
    {
      FieldStep(buf, start + length, inner, fieldCapacity - fieldUsed, mmsLeft, done, entries);
      if innerLen == 0 {
        break;
      }
      var tlv, next := BerNextTlv(buf, inner + innerLen, inner);
      if tlv.None? {
        break;
      }
      var t := tlv.value;
      innerLen := innerLen - t.tlvLen;
      inner := inner + t.tlvLen;
      if fieldUsed >= fieldCapacity {
        return ErrTooManyFields, fieldCapacity, mmsLeft;
      }
      FilledOneMore(old(fields[..]), fields[..], done, FieldOf(t));
      ghost var was := mms[..];
      ghost var m := MmsOf(buf, t, mmsLeft);
      st, mmsLeft := StoreField(buf, t, fields, fieldUsed, mms, mmsLeft);
      fieldUsed := fieldUsed + 1;
      FilledTwice(old(mms[..]), was, mms[..], mmsCapacity, entries, m.entries);
      done := done + [FieldOf(t)];
      entries := entries + m.entries;
      if st != GooseOk {
        return st, fieldCapacity, mmsLeft;
      }
    }
    return GooseOk, fieldUsed, mmsLeft;
  }

  lemma NothingBefore(r: PduParse)
    ensures Continue([], [], r) == r
  {
    assert [] + r.fields == r.fields && [] + r.entries == r.entries;
  }

  lemma NoneFilled(fields: seq<GooseFieldRef>)
    ensures FilledUp(fields, fields, [])
  {
  }

  /** The loop body past the capacity check. */
  method StoreField(buf: seq<Byte>, t: BerTlv, fields: array<GooseFieldRef>, used: nat, mms: array<MmsDataRef>,
      capacity: nat)
      returns (st: GooseStatus, left: nat)
    requires t.value + t.valueLen <= |buf| && used < fields.Length && capacity <= mms.Length
    modifies fields, mms
    ensures fields[..] == old(fields[..])[used := FieldOf(t)]
    ensures var m := MmsOf(buf, t, capacity);
      st == m.status && left == capacity - |m.entries| && FilledDown(old(mms[..]), mms[..], capacity, m.entries)
  {
    hide FilledDown, ParseMms, FieldFromTagNumber, ExpectedType;
    FilledNone(mms[..], capacity);
    var id, vtype := UnknownField, VUnknown;
    if t.tag.cls == Context {
      id := FieldFromTagNumber(t.tag.number);
      vtype := ExpectedType(id);
    }
    fields[used] := GooseFieldRef(id, vtype, t.tag.firstOctet, t.value, t.valueLen);
    st, left := GooseOk, capacity;
    if id == AllData {
      st, left := ParseMmsSequence(buf, t.value + t.valueLen, t.value, mms, capacity, 0, -1);
    }
  }

  // ---- What a parse on arbitrary octets records ----------------------------------

  predicate Inside(buf: seq<Byte>, ts: seq<BerTlv>) {
    forall k :: 0 <= k < |ts| ==> ts[k].value + ts[k].valueLen <= |buf|
  }

  /** The elements that stand one after the other from `off`, as far as they go. */
  function Chain(buf: seq<Byte>, limit: nat, off: nat): (ts: seq<BerTlv>)
    requires limit <= |buf|
    ensures Inside(buf, ts)
    decreases limit - off
  {
    if off >= limit || NextTlv(buf, limit, off).None? then []
    else [NextTlv(buf, limit, off).value] + Chain(buf, limit, off + NextTlv(buf, limit, off).value.tlvLen)
  }

  ghost predicate Consecutive(buf: seq<Byte>, limit: nat, off: nat, ts: seq<BerTlv>)
    requires limit <= |buf|
  {
    && (forall k :: 0 <= k < |ts| ==> ElementAt(buf, limit, ts[k].start, ts[k]))
    && (ts != [] ==> ts[0].start == off)
    && forall k :: 0 <= k < |ts| - 1 ==> ts[k + 1].start == ts[k].start + ts[k].tlvLen
  }

  function EndOf(off: nat, ts: seq<BerTlv>): nat {
    if ts == [] then off else ts[|ts| - 1].start + ts[|ts| - 1].tlvLen
  }

  /** The chain is a run of elements with adjacent, so disjoint, spans, and no
      element follows it. */
  lemma {:induction false} ChainMaximal(buf: seq<Byte>, limit: nat, off: nat)
    requires off <= limit <= |buf|
    ensures var ts := Chain(buf, limit, off); var end := EndOf(off, ts);
      && Consecutive(buf, limit, off, ts)
      && end <= limit
      && (end == limit || forall t :: !ElementAt(buf, limit, end, t))
    decreases limit - off
  {
    hide NextTlv, ElementAt;
    if off < limit {
      if NextTlv(buf, limit, off).Some? {
        var t := NextTlv(buf, limit, off).value;
        NextTlvIff(buf, limit, off, t);
        ChainMaximal(buf, limit, off + t.tlvLen);
      } else {
        forall t
          ensures !ElementAt(buf, limit, off, t)
        {
          NextTlvIff(buf, limit, off, t);
        }
      }
    }
  }

  /** Octets of all elements below the allData fields of ts, if all decode. */
  function MmsNodes(buf: seq<Byte>, ts: seq<BerTlv>): Option<nat>
    requires Inside(buf, ts)
  {
    if ts == [] then Some(0)
    else
      var rest := MmsNodes(buf, ts[1..]);
      var f := if FieldOf(ts[0]).id == AllData then ForestAt(buf, ts[0].value + ts[0].valueLen, ts[0].value)
        else Some([]);
      if rest.None? || f.None? then None else Some(Size(f.value) + rest.value)
  }

  lemma MmsOfOkIff(buf: seq<Byte>, t: BerTlv, capacity: nat)
    requires t.value + t.valueLen <= |buf|
    ensures var m := MmsOf(buf, t, capacity);
      var f := if FieldOf(t).id == AllData then ForestAt(buf, t.value + t.valueLen, t.value) else Some([]);
      && (m.status == GooseOk <==> f.Some? && Size(f.value) <= capacity)
      && (m.status == GooseOk ==> |m.entries| == Size(f.value))
  {
    hide ParseMms, ForestAt;
    MmsOkIff(buf, t.value + t.valueLen, t.value, capacity, 0, -1);
  }

  /** Success, exactly: the longest run of elements fits the field array, every
      allData among them holds a data forest, and all their nodes fit the MMS array.
      Then the fields are that run in order, and the MMS capacity consumed is the
      number of nodes. */
  lemma {:induction false} FieldsOkIff(buf: seq<Byte>, limit: nat, off: nat, fieldCap: nat, mmsCap: nat)
    requires limit <= |buf|
    ensures var r := ParseFields(buf, limit, off, fieldCap, mmsCap); var ts := Chain(buf, limit, off);
      var n := MmsNodes(buf, ts);
      && (r.status == GooseOk <==> |ts| <= fieldCap && n.Some? && n.value <= mmsCap)
      && (r.status == GooseOk ==>
            && |r.fields| == |ts| && |r.entries| == n.value
            && forall k :: 0 <= k < |ts| ==> r.fields[k] == FieldOf(ts[k]))
    decreases limit - off
  {
    hide NextTlv, MmsOf, FieldOf, ForestAt, Size;
    if off < limit && NextTlv(buf, limit, off).Some? {
      var t := NextTlv(buf, limit, off).value;
      var ts := Chain(buf, limit, off);
      assert ts[0] == t && ts[1..] == Chain(buf, limit, off + t.tlvLen);
      if fieldCap > 0 {
        MmsOfOkIff(buf, t, mmsCap);
        var m := MmsOf(buf, t, mmsCap);
        FieldsOkIff(buf, limit, off + t.tlvLen, fieldCap - 1, mmsCap - |m.entries|);
      }
    }
  }

  // ---- The entries of a whole PDU --------------------------------------------------

  /** The listing of one field: that of its data forest, if it is an allData. */
  function ListingOfField(buf: seq<Byte>, t: BerTlv, slots: int): seq<MmsDataRef>
    requires t.value + t.valueLen <= |buf|
  {
    if FieldOf(t).id != AllData then []
    else
      var f := ForestAt(buf, t.value + t.valueLen, t.value);
      if f.Some? && WellFormedForest(f.value) then Listing(f.value, t.value, slots, 0, -1) else []
  }

  /** The listings of all fields, one after the other, slots running on. */
  function Listings(buf: seq<Byte>, ts: seq<BerTlv>, slots: int): seq<MmsDataRef>
    requires Inside(buf, ts)
  {
    if ts == [] then []
    else
      var first := ListingOfField(buf, ts[0], slots);
      first + Listings(buf, ts[1..], slots - |first|)
  }

  lemma FieldFlattens(buf: seq<Byte>, t: BerTlv, capacity: nat)
    requires t.value + t.valueLen <= |buf|
    requires FieldOf(t).id == AllData ==> ForestAt(buf, t.value + t.valueLen, t.value).Some?
    ensures MmsOf(buf, t, capacity) == Outcome(ListingOfField(buf, t, capacity), capacity)
  {
    hide ParseMms, ForestAt, Listing, FieldOf, WellFormedForest;
    MmsOkIff(buf, t.value + t.valueLen, t.value, capacity, 0, -1);
  }

  /** Where the fields fit and every allData is a forest, the entries are the listings
      of all of them in order; short of MMS capacity, its first entries. */
  lemma {:induction false} FieldsFlatten(buf: seq<Byte>, limit: nat, off: nat, fieldCap: nat, mmsCap: nat)
    requires limit <= |buf| && |Chain(buf, limit, off)| <= fieldCap
    requires MmsNodes(buf, Chain(buf, limit, off)).Some?
    ensures var r := ParseFields(buf, limit, off, fieldCap, mmsCap);
      MmsParse(r.status, r.entries) == Outcome(Listings(buf, Chain(buf, limit, off), mmsCap), mmsCap)
    decreases limit - off
  {
    hide NextTlv, MmsOf, FieldOf, ForestAt, Size, ListingOfField, Outcome;
    if off < limit && NextTlv(buf, limit, off).Some? {
      var t := NextTlv(buf, limit, off).value;
      var ts := Chain(buf, limit, off);
      var rest := Chain(buf, limit, off + t.tlvLen);
      assert ts[0] == t && ts[1..] == rest;
      FieldFlattens(buf, t, mmsCap);
      var first := ListingOfField(buf, t, mmsCap);
      OutcomeIs(first, mmsCap);
      var second := Listings(buf, rest, mmsCap - |first|);
      if |first| <= mmsCap {
        FieldsFlatten(buf, limit, off + t.tlvLen, fieldCap - 1, mmsCap - |first|);
        OutcomeSplits(first, second, mmsCap);
      } else {
        OutcomeStops(first, second, mmsCap);
      }
    } else {
      OutcomeIs([], mmsCap);
    }
  }

  predicate InField(e: MmsDataRef, f: GooseFieldRef) {
    f.id == AllData && WithinSpan(e, f.value, f.value + f.valueLen)
  }

  /** Entry k names its own slot and lies in the value of field f, at top level or as a
      child of an earlier entry of that same field. */
  ghost predicate Rooted(entries: seq<MmsDataRef>, k: nat, capacity: int, f: GooseFieldRef)
    requires k < |entries|
  {
    && entries[k].index == capacity - 1 - k
    && InField(entries[k], f)
    && ( || (entries[k].parentIndex == -1 && entries[k].depth == 0)
         || exists j :: 0 <= j < k && ChildOf(entries[k], entries[j]) && InField(entries[j], f))
  }

  ghost predicate AllRooted(entries: seq<MmsDataRef>, capacity: int, fields: seq<GooseFieldRef>) {
    forall k :: 0 <= k < |entries| ==> RootedIn(entries, k, capacity, fields)
  }

  ghost predicate RootedIn(entries: seq<MmsDataRef>, k: nat, capacity: int, fields: seq<GooseFieldRef>)
    requires k < |entries|
  {
    exists i :: 0 <= i < |fields| && Rooted(entries, k, capacity, fields[i])
  }

  /** Whatever the octets, and however the parse ends: slots run on over all allData
      fields, and every entry is rooted in one of them. */
  lemma {:induction false} FieldsRooted(buf: seq<Byte>, limit: nat, off: nat, fieldCap: nat, mmsCap: nat)
    requires limit <= |buf|
    ensures var r := ParseFields(buf, limit, off, fieldCap, mmsCap); AllRooted(r.entries, mmsCap, r.fields)
    decreases limit - off
  {
    hide NextTlv, MmsOf, FieldOf, AllRooted;
    if off < limit && NextTlv(buf, limit, off).Some? && fieldCap > 0 {
      var t := NextTlv(buf, limit, off).value;
      var m := MmsOf(buf, t, mmsCap);
      FieldRooted(buf, t, mmsCap);
      if m.status == GooseOk {
        var rest := ParseFields(buf, limit, off + t.tlvLen, fieldCap - 1, mmsCap - |m.entries|);
        FieldsRooted(buf, limit, off + t.tlvLen, fieldCap - 1, mmsCap - |m.entries|);
        JoinRooted(m.entries, rest.entries, mmsCap, FieldOf(t), rest.fields);
      }
    } else {
      NothingRooted(mmsCap, []);
    }
  }

  lemma NothingRooted(capacity: int, fields: seq<GooseFieldRef>)
    ensures AllRooted([], capacity, fields)
  {
  }

  lemma FieldRooted(buf: seq<Byte>, t: BerTlv, capacity: nat)
    requires t.value + t.valueLen <= |buf|
    ensures AllRooted(MmsOf(buf, t, capacity).entries, capacity, [FieldOf(t)])
  {
    hide ParseMms, AllAnchored;
    var f := FieldOf(t);
    if f.id == AllData {
      var entries := MmsOf(buf, t, capacity).entries;
      EntriesAnchored(buf, t.value + t.valueLen, t.value, capacity, 0, -1);
      forall k | 0 <= k < |entries|
        ensures RootedIn(entries, k, capacity, [f])
      {
        AnchoredRooted(entries, k, capacity, f);
        assert Rooted(entries, k, capacity, [f][0]);
      }
    }
  }

  lemma AnchoredRooted(entries: seq<MmsDataRef>, k: nat, capacity: nat, f: GooseFieldRef)
    requires k < |entries| && f.id == AllData && AllAnchored(entries, capacity, f.value + f.valueLen, f.value, 0, -1)
    ensures Rooted(entries, k, capacity, f)
  {
    var limit := f.value + f.valueLen;
    EntriesInside(entries, k, capacity, limit, f.value, 0, -1);
    assert Anchored(entries, k, capacity, limit, f.value, 0, -1);
    if j :| 0 <= j < k && ChildOf(entries[k], entries[j]) {
      EntriesInside(entries, j, capacity, limit, f.value, 0, -1);
    }
  }

  lemma JoinRooted(first: seq<MmsDataRef>, second: seq<MmsDataRef>, capacity: int, f: GooseFieldRef,
      fields: seq<GooseFieldRef>)
    requires AllRooted(first, capacity, [f]) && AllRooted(second, capacity - |first|, fields)
    ensures AllRooted(first + second, capacity, [f] + fields)
  {
    var all, both := first + second, [f] + fields;
    forall k | 0 <= k < |all|
      ensures RootedIn(all, k, capacity, both)
    {
      if k < |first| {
        assert RootedIn(first, k, capacity, [f]);
        RootedEarlier(first, second, k, capacity, f);
        assert Rooted(all, k, capacity, both[0]);
      } else {
        assert RootedIn(second, k - |first|, capacity - |first|, fields);
        var i :| 0 <= i < |fields| && Rooted(second, k - |first|, capacity - |first|, fields[i]);
        RootedLater(first, second, k - |first|, capacity, fields[i]);
        assert Rooted(all, k, capacity, both[i + 1]);
      }
    }
  }

  lemma RootedEarlier(first: seq<MmsDataRef>, second: seq<MmsDataRef>, k: nat, capacity: int, f: GooseFieldRef)
    requires k < |first| && Rooted(first, k, capacity, f)
    ensures Rooted(first + second, k, capacity, f)
  {
    if j :| 0 <= j < k && ChildOf(first[k], first[j]) && InField(first[j], f) {
      assert ChildOf((first + second)[k], (first + second)[j]);
    }
  }

  lemma RootedLater(first: seq<MmsDataRef>, second: seq<MmsDataRef>, k: nat, capacity: int, f: GooseFieldRef)
    requires k < |second| && Rooted(second, k, capacity - |first|, f)
    ensures Rooted(first + second, k + |first|, capacity, f)
  {
    if j :| 0 <= j < k && ChildOf(second[k], second[j]) && InField(second[j], f) {
      assert ChildOf((first + second)[k + |first|], (first + second)[j + |first|]);
    }
  }

  /** Slot i as the caller finds it: it names itself, lies in the value of a recorded
      allData field, and is a top entry or its parent slot holds its parent. */
  ghost predicate SlotRooted(mms: seq<MmsDataRef>, i: nat, capacity: nat, fields: seq<GooseFieldRef>)
    requires i < capacity <= |mms|
  {
    var e := mms[i];
    && e.index == i
    && (exists j :: 0 <= j < |fields| && InField(e, fields[j]))
    && ( || (e.parentIndex == -1 && e.depth == 0)
         || (i < e.parentIndex < capacity && ChildOf(e, mms[e.parentIndex])))
  }

  lemma SlotsRooted(before: seq<MmsDataRef>, mms: seq<MmsDataRef>, capacity: nat, entries: seq<MmsDataRef>,
      fields: seq<GooseFieldRef>)
    requires FilledDown(before, mms, capacity, entries) && AllRooted(entries, capacity, fields)
    ensures forall i :: capacity - |entries| <= i < capacity ==> SlotRooted(mms, i, capacity, fields)
  {
    forall i | capacity - |entries| <= i < capacity
      ensures SlotRooted(mms, i, capacity, fields)
    {
      var k := capacity - 1 - i;
      assert mms[capacity - 1 - k] == entries[k];
      assert RootedIn(entries, k, capacity, fields);
      var n :| 0 <= n < |fields| && Rooted(entries, k, capacity, fields[n]);
      if j :| 0 <= j < k && ChildOf(entries[k], entries[j]) && InField(entries[j], fields[n]) {
        assert RootedIn(entries, j, capacity, fields);
        assert mms[capacity - 1 - j] == entries[j];
      }
    }
  }

  /** The elements of the envelope's value, as far as they go. */
  function PduFields(buf: seq<Byte>): (ts: seq<BerTlv>)
    ensures Inside(buf, ts)
  {
    var outer := NextTlv(buf, |buf|, 0);
    if outer.None? then [] else Chain(buf, outer.value.value + outer.value.valueLen, outer.value.value)
  }

  predicate HasEnvelope(buf: seq<Byte>) {
    var outer := NextTlv(buf, |buf|, 0);
    outer.Some? && Envelope(outer.value.tag)
  }

  /** goose_parse_pdu succeeds exactly on a constructed APPLICATION 1 element whose
      longest run of elements fits the field array, each allData of which is a forest,
      with all nodes fitting the MMS array; then the fields are that run and the
      entries the listings of all its allData. */
  lemma PduOkIff(buf: seq<Byte>, fieldCap: nat, mmsCap: nat)
    ensures var r := ParsePdu(buf, fieldCap, mmsCap); var ts := PduFields(buf); var n := MmsNodes(buf, ts);
      && (r.status == GooseOk <==> HasEnvelope(buf) && |ts| <= fieldCap && n.Some? && n.value <= mmsCap)
      && (r.status == GooseOk ==> |r.fields| == |ts| && (forall k :: 0 <= k < |ts| ==> r.fields[k] == FieldOf(ts[k])))
      && (r.status == GooseOk ==> r.entries == Listings(buf, ts, mmsCap))
  {
    hide ParseFields, NextTlv, Chain, MmsNodes, Listings, FieldOf, Inside;
    var outer := NextTlv(buf, |buf|, 0);
    if HasEnvelope(buf) {
      var off, limit := outer.value.value, outer.value.value + outer.value.valueLen;
      FieldsOkIff(buf, limit, off, fieldCap, mmsCap);
      var ts := Chain(buf, limit, off);
      if |ts| <= fieldCap && MmsNodes(buf, ts).Some? {
        FieldsFlatten(buf, limit, off, fieldCap, mmsCap);
        OutcomeIs(Listings(buf, ts, mmsCap), mmsCap);
      }
    }
  }

  /** The same soundness for the whole PDU, on arbitrary octets. */
  lemma PduRooted(buf: seq<Byte>, fieldCap: nat, mmsCap: nat)
    ensures var r := ParsePdu(buf, fieldCap, mmsCap); AllRooted(r.entries, mmsCap, r.fields)
  {
    hide ParseFields, NextTlv;
    var outer := NextTlv(buf, |buf|, 0);
    if outer.Some? && Envelope(outer.value.tag) {
      FieldsRooted(buf, outer.value.value + outer.value.valueLen, outer.value.value, fieldCap, mmsCap);
    }
  }

  // ---- Which error -------------------------------------------------------------------

  /** Too many fields is reported exactly if there are, and the data of all those that
      fit the field array is in order. */
  lemma {:induction false} TooManyFieldsIff(buf: seq<Byte>, limit: nat, off: nat, fieldCap: nat, mmsCap: nat)
    requires limit <= |buf|
    ensures var ts := Chain(buf, limit, off);
      ParseFields(buf, limit, off, fieldCap, mmsCap).status == ErrTooManyFields <==>
        |ts| > fieldCap && MmsNodes(buf, ts[..fieldCap]).Some? && MmsNodes(buf, ts[..fieldCap]).value <= mmsCap
    decreases limit - off
  {
    hide NextTlv, MmsOf, FieldOf, ForestAt, Size;
    if off < limit && NextTlv(buf, limit, off).Some? {
      var t := NextTlv(buf, limit, off).value;
      var ts := Chain(buf, limit, off);
      assert ts[0] == t && ts[1..] == Chain(buf, limit, off + t.tlvLen);
      if fieldCap > 0 {
        MmsOfOkIff(buf, t, mmsCap);
        MmsErrorKind(buf, t, mmsCap);
        var m := MmsOf(buf, t, mmsCap);
        TooManyFieldsIff(buf, limit, off + t.tlvLen, fieldCap - 1, mmsCap - |m.entries|);
        if |ts| > fieldCap {
          assert ts[..fieldCap][0] == t && ts[..fieldCap][1..] == ts[1..][..fieldCap - 1];
        }
      }
    }
  }

  lemma MmsErrorKind(buf: seq<Byte>, t: BerTlv, capacity: nat)
    requires t.value + t.valueLen <= |buf|
    ensures MmsOf(buf, t, capacity).status in {GooseOk, ErrBer, ErrTooManyMms}
  {
    if FieldOf(t).id == AllData {
      MmsErrorKinds(buf, t.value + t.valueLen, t.value, capacity, 0, -1);
    }
  }

  lemma {:induction false} MmsErrorKinds(buf: seq<Byte>, limit: nat, off: nat, capacity: nat, depth: nat, parent: int)
    requires limit <= |buf|
    ensures ParseMms(buf, limit, off, capacity, depth, parent).status in {GooseOk, ErrBer, ErrTooManyMms}
    decreases limit - off
  {
    hide NextTlv, EntryOf;
    if off < limit && NextTlv(buf, limit, off).Some? && capacity > 0 {
      var t := NextTlv(buf, limit, off).value;
      if t.tag.constructed {
        MmsErrorKinds(buf, t.value + t.valueLen, t.value, capacity - 1, depth + 1, capacity - 1);
      }
      var used := 1 + |ChildrenOf(buf, t, capacity - 1, depth).entries|;
      MmsErrorKinds(buf, limit, off + t.tlvLen, capacity - used, depth, parent);
    }
  }

  /** No element at the start of the buffer is a BER error; any element but a constructed
      APPLICATION 1 is not GOOSE, and only that; in either case nothing is recorded. */
  lemma EnvelopeErrors(buf: seq<Byte>, fieldCap: nat, mmsCap: nat)
    ensures NextTlv(buf, |buf|, 0).None? ==> ParsePdu(buf, fieldCap, mmsCap) == PduParse(ErrBer, [], [])
    ensures ParsePdu(buf, fieldCap, mmsCap).status == ErrNotGoose <==> NextTlv(buf, |buf|, 0).Some? && !HasEnvelope(buf)
    ensures ParsePdu(buf, fieldCap, mmsCap).status == ErrNotGoose ==>
      ParsePdu(buf, fieldCap, mmsCap).fields == [] && ParsePdu(buf, fieldCap, mmsCap).entries == []
  {
    hide NextTlv, ParseFields;
    var outer := NextTlv(buf, |buf|, 0);
    if outer.Some? {
      FieldsNeverNotGoose(buf, outer.value.value + outer.value.valueLen, outer.value.value, fieldCap, mmsCap);
    }
  }

  /** The envelope by its octets: tag 0x61, or number 1 written in high-tag form. */
  lemma EnvelopeIs(buf: seq<Byte>)
    ensures HasEnvelope(buf) <==>
      NextTlv(buf, |buf|, 0).Some? &&
      (buf[0] == 0x61 || (buf[0] == 0x7F && NextTlv(buf, |buf|, 0).value.tag.number == 1))
  {
    hide NextTlv;
    TagMeans(buf, |buf|, 0);
  }

  // ---- goose_find_pdu ---------------------------------------------------------------

  /** A complete constructed APPLICATION 1 element starts at i. */
  predicate PduAt(buf: seq<Byte>, i: nat) {
    i < |buf| && buf[i] == 0x61 && NextTlv(buf, |buf|, i).Some?
  }

  /** The result is the offset of the tag octet and the length of the element. */
  method GooseFindPdu(buf: seq<Byte>) returns (st: GooseStatus, pdu: nat, pduLen: nat)
    ensures st == GooseOk || st == ErrNotGoose
    ensures st == GooseOk ==> pdu + 2 < |buf| && PduAt(buf, pdu) && pduLen == NextTlv(buf, |buf|, pdu).value.tlvLen
    ensures st == GooseOk ==> forall j :: 0 <= j < pdu ==> !PduAt(buf, j)
    ensures st == ErrNotGoose ==> forall j :: 0 <= j && j + 2 < |buf| ==> !PduAt(buf, j)
  {
    var i := 0;
    while i + 2 < |buf|
      invariant 0 <= i
      invariant forall j :: 0 <= j < i && j + 2 < |buf| ==> !PduAt(buf, j)
      decreases |buf| - i
    {
      if buf[i] != 0x61 {
        i := i + 1;
        continue;
      }
      var tlv, off := BerNextTlv(buf, |buf|, i);
      if tlv.None? {
        i := i + 1;
        continue;
      }
      if tlv.value.tag.cls == Application && tlv.value.tag.constructed && tlv.value.tag.number == 1 {
        return GooseOk, i, tlv.value.tlvLen;
      }
      i := i + 1;
    }
    return ErrNotGoose, 0, 0;
  }

  /** Parsing exactly the span that was found never rejects the envelope: the
      result is that of the field loop over the element's value. */
  lemma FindThenParse(buf: seq<Byte>, pdu: nat, fieldCap: nat, mmsCap: nat)
    requires PduAt(buf, pdu)
    ensures var t := NextTlv(buf, |buf|, pdu).value; var span := buf[pdu..pdu + t.tlvLen]; var v := t.value - pdu;
      && ParsePdu(span, fieldCap, mmsCap) == ParseFields(span, |span|, v, fieldCap, mmsCap)
      && ParsePdu(span, fieldCap, mmsCap).status != ErrNotGoose
  {
    hide ParseFields, NextTlv;
    var t := NextTlv(buf, |buf|, pdu).value;
    var span := buf[pdu..pdu + t.tlvLen];
    assert span[0..t.tlvLen] == span;
    Locality(buf, |buf|, pdu, t, span, |span|, 0);
    PduTag(buf, pdu);
    FieldsNeverNotGoose(span, |span|, t.value - pdu, fieldCap, mmsCap);
  }

  lemma PduTag(buf: seq<Byte>, i: nat)
    requires PduAt(buf, i)
    ensures Envelope(NextTlv(buf, |buf|, i).value.tag)
  {
  }

  lemma {:induction false} FieldsNeverNotGoose(buf: seq<Byte>, limit: nat, off: nat, fieldCap: nat, mmsCap: nat)
    requires limit <= |buf|
    ensures ParseFields(buf, limit, off, fieldCap, mmsCap).status != ErrNotGoose
    decreases limit - off
  {
    hide NextTlv, ParseMms;
    if off < limit && NextTlv(buf, limit, off).Some? && fieldCap > 0 {
      var t := NextTlv(buf, limit, off).value;
      MmsNeverNotGoose(buf, t.value + t.valueLen, t.value, mmsCap, 0, -1);
      FieldsNeverNotGoose(buf, limit, off + t.tlvLen, fieldCap - 1, mmsCap - |MmsOf(buf, t, mmsCap).entries|);
    }
  }

  lemma {:induction false} MmsNeverNotGoose(buf: seq<Byte>, limit: nat, off: nat, capacity: nat, depth: nat,
      parent: int)
    requires limit <= |buf|
    ensures ParseMms(buf, limit, off, capacity, depth, parent).status != ErrNotGoose
    decreases limit - off
  {
    hide NextTlv;
    if off < limit && NextTlv(buf, limit, off).Some? && capacity > 0 {
      var t := NextTlv(buf, limit, off).value;
      MmsNeverNotGoose(buf, t.value + t.valueLen, t.value, capacity - 1, depth + 1, capacity - 1);
      MmsNeverNotGoose(buf, limit, off + t.tlvLen, capacity - 1 - |ChildrenOf(buf, t, capacity - 1, depth).entries|,
        depth, parent);
    }
  }

  // ---- goose_decode_unsigned ----------------------------------------------------------

  method GooseDecodeUnsigned(value: seq<Byte>) returns (r: Option<nat>)
    ensures r == if 1 <= |value| <= 8 then Some(BigEndian(value)) else None
  {
    if |value| == 0 || |value| > 8 {
      return None;
    }
    var x: nat := 0;
    for i := 0 to |value|
      invariant x == BigEndian(value[..i])
    {
      assert value[..i + 1][..i] == value[..i];
      x := x * 256 + value[i];
    }
    assert value[..|value|] == value;
    return Some(x);
  }
}
