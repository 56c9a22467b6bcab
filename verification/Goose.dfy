/** asn/goose_parser.c: the GOOSE PDU walker (IEC 61850-8-1, Annex A) on top of the
    C BER reader.  Value pointers are offsets into the caller's buffer. */
module Goose {
  import opened Wrappers
  import opened Bytes
  import opened Ber

  datatype GooseStatus = GooseOk | ErrBer | ErrNotGoose | ErrTooManyFields | ErrTooManyMms

  datatype MmsDataType =
    | MmsUnknown | MmsArray | MmsStructure | MmsBoolean | MmsBitString | MmsInteger | MmsUnsigned | MmsFloatingPoint
    | MmsOctetString | MmsVisibleString | MmsTimeOfDay | MmsBcd | MmsBooleanArray | MmsUtcTime

  datatype GooseFieldId =
    | GocbRef | TimeAllowedToLive | DatSet | GoId | T | StNum | SqNum | Test | ConfRev | NdsCom | NumDatSetEntries
    | AllData | UnknownField

  datatype GooseValueType =
    | VUnknown | VVisibleString | VUint | VBoolean | VUtcTime | VMmsDataSeq

  datatype MmsDataRef = MmsDataRef(
    index: int, depth: nat, parentIndex: int, mmsType: MmsDataType, tagOctet: Byte, value: nat, valueLen: nat)

  datatype GooseFieldRef = GooseFieldRef(
    id: GooseFieldId, vtype: GooseValueType, tagOctet: Byte, value: nat, valueLen: nat)

  function FieldFromTagNumber(n: nat): GooseFieldId {
    match n
    case 0 => GocbRef case 1 => TimeAllowedToLive case 2 => DatSet case 3 => GoId
    case 4 => T case 5 => StNum case 6 => SqNum case 7 => Test
    case 8 => ConfRev case 9 => NdsCom case 10 => NumDatSetEntries case 11 => AllData
    case _ => UnknownField
  }

  function ExpectedType(id: GooseFieldId): GooseValueType {
    match id
    case GocbRef => VVisibleString case DatSet => VVisibleString case GoId => VVisibleString
    case TimeAllowedToLive => VUint case StNum => VUint case SqNum => VUint case ConfRev => VUint
    case NumDatSetEntries => VUint
    case Test => VBoolean case NdsCom => VBoolean
    case T => VUtcTime
    case AllData => VMmsDataSeq
    case UnknownField => VUnknown
  }

  function MmsTypeFromTagOctet(tag: Byte): MmsDataType {
    match tag
    case 0x81 => MmsArray case 0x82 => MmsStructure case 0x83 => MmsBoolean case 0x84 => MmsBitString
    case 0x85 => MmsInteger case 0x86 => MmsUnsigned case 0x87 => MmsFloatingPoint case 0x89 => MmsOctetString
    case 0x8A => MmsVisibleString case 0x8C => MmsTimeOfDay case 0x8D => MmsBcd case 0x8E => MmsBooleanArray
    case 0x91 => MmsUtcTime
    case _ => MmsUnknown
  }

  function EntryOf(t: BerTlv, slot: int, depth: nat, parent: int): MmsDataRef {
    MmsDataRef(slot, depth, parent, MmsTypeFromTagOctet(t.tag.firstOctet), t.tag.firstOctet, t.value, t.valueLen)
  }

  // ---- parse_mms_sequence -------------------------------------------------------

  /** The status, and the entries in the order written: entry k goes to slot
      capacity - 1 - k. */
  datatype MmsParse = MmsParse(status: GooseStatus, entries: seq<MmsDataRef>)

  function ParseMms(buf: seq<Byte>, limit: nat, off: nat, capacity: nat, depth: nat, parent: int): (r: MmsParse)
    requires limit <= |buf|
    ensures |r.entries| <= capacity
    decreases limit - off, 0
  {
    if off >= limit then MmsParse(GooseOk, [])
    else
      var next := NextTlv(buf, limit, off);
      if next.None? then MmsParse(ErrBer, [])
      else if capacity == 0 then MmsParse(ErrTooManyMms, [])
      else
        var t := next.value;
        var children := ChildrenOf(buf, t, capacity - 1, depth);
        var upToHere := [EntryOf(t, capacity - 1, depth, parent)] + children.entries;
        if children.status != GooseOk then MmsParse(children.status, upToHere)
        else
          var rest := ParseMms(buf, limit, off + t.tlvLen, capacity - |upToHere|, depth, parent);
          MmsParse(rest.status, upToHere + rest.entries)
  }

  function ChildrenOf(buf: seq<Byte>, t: BerTlv, capacity: nat, depth: nat): (r: MmsParse)
    requires t.start < t.value && t.value + t.valueLen == t.start + t.tlvLen <= |buf|
    ensures |r.entries| <= capacity
    decreases t.valueLen, 1
  {
    if t.tag.constructed then ParseMms(buf, t.value + t.valueLen, t.value, capacity, depth + 1, capacity)
    else MmsParse(GooseOk, [])
  }

  /** `entries` occupy the slots of `after` below `capacity` from the top down, and
      all other slots are as before. */
  ghost predicate FilledDown(before: seq<MmsDataRef>, after: seq<MmsDataRef>, capacity: nat, entries: seq<MmsDataRef>) {
    && |after| == |before| && |entries| <= capacity <= |before|
    && (forall k :: 0 <= k < |entries| ==> after[capacity - 1 - k] == entries[k])
    && forall i :: 0 <= i < |before| && !(capacity - |entries| <= i < capacity) ==> after[i] == before[i]
  }

  lemma FilledTwice(a: seq<MmsDataRef>, b: seq<MmsDataRef>, c: seq<MmsDataRef>, capacity: nat,
                    first: seq<MmsDataRef>, second: seq<MmsDataRef>)
    requires FilledDown(a, b, capacity, first) && FilledDown(b, c, capacity - |first|, second)
    ensures FilledDown(a, c, capacity, first + second)
  {
    forall k | 0 <= k < |first + second|
      ensures c[capacity - 1 - k] == (first + second)[k]
    {
      if k >= |first| {
        assert c[capacity - |first| - 1 - (k - |first|)] == second[k - |first|];
      }
    }
  }

  lemma FilledNone(mms: seq<MmsDataRef>, capacity: nat)
    requires capacity <= |mms|
    ensures FilledDown(mms, mms, capacity, [])
  {
  }

  /** The entries written so far, and what the rest of the walk comes to. */
  ghost function Continue(done: seq<MmsDataRef>, r: MmsParse): MmsParse {
    MmsParse(r.status, done + r.entries)
  }

  /** One turn of the loop, `done` being the entries written so far. */
  lemma ParseStep(buf: seq<Byte>, limit: nat, off: nat, left: nat, depth: nat, parent: int, done: seq<MmsDataRef>)
    requires limit <= |buf|
    ensures Continue(done, ParseMms(buf, limit, off, left, depth, parent)) ==
      if off >= limit then MmsParse(GooseOk, done)
      else if NextTlv(buf, limit, off).None? then MmsParse(ErrBer, done)
      else if left == 0 then MmsParse(ErrTooManyMms, done)
      else
        var t := NextTlv(buf, limit, off).value;
        var r := ChildrenOf(buf, t, left - 1, depth);
        var done' := done + ([EntryOf(t, left - 1, depth, parent)] + r.entries);
        if r.status != GooseOk then MmsParse(r.status, done')
        else Continue(done', ParseMms(buf, limit, off + t.tlvLen, left - 1 - |r.entries|, depth, parent))
  {
    hide NextTlv, ChildrenOf, EntryOf;
    assert done + [] == done;
    if off < limit && NextTlv(buf, limit, off).Some? && left > 0 {
      var t := NextTlv(buf, limit, off).value;
      var r := ChildrenOf(buf, t, left - 1, depth);
      var head := [EntryOf(t, left - 1, depth, parent)] + r.entries;
      if r.status == GooseOk {
        var rest := ParseMms(buf, limit, off + t.tlvLen, left - |head|, depth, parent);
        assert done + (head + rest.entries) == (done + head) + rest.entries;
      }
    }
  }

  /** *p_mms_cnt goes in as the remaining capacity and comes out as what is left. */
  method ParseMmsSequence(buf: seq<Byte>, limit: nat, start: nat, mms: array<MmsDataRef>, capacity: nat, depth: nat,
      parent: int)
      returns (st: GooseStatus, left: nat)
    requires limit <= |buf| && capacity <= mms.Length
    modifies mms
    ensures var r := ParseMms(buf, limit, start, capacity, depth, parent);
      && st == r.status && left == capacity - |r.entries|
      && FilledDown(old(mms[..]), mms[..], capacity, r.entries)
    decreases limit - start, 0
  {
    hide NextTlv, ParseMms, ChildrenOf, FilledDown, EntryOf;
    FilledNone(mms[..], capacity);
    var off := start;
    left := capacity;
    ghost var done: seq<MmsDataRef> := [];
    while off < limit
      invariant start <= off && left == capacity - |done| <= capacity
      invariant FilledDown(old(mms[..]), mms[..], capacity, done)
      invariant ParseMms(buf, limit, start, capacity, depth, parent) ==
        Continue(done, ParseMms(buf, limit, off, left, depth, parent))
      decreases limit - off
    {
      var before := off;
      ghost var was := mms[..];
      var tlv;
      tlv, off := BerNextTlv(buf, limit, off);
      ParseStep(buf, limit, before, left, depth, parent, done);
      if tlv.None? {
        return ErrBer, left;
      }
      if left == 0 {
        return ErrTooManyMms, left;
      }
      var t := tlv.value;
      ghost var r := ChildrenOf(buf, t, left - 1, depth);
      ghost var upToHere := [EntryOf(t, left - 1, depth, parent)] + r.entries;
      st, left := ParseElement(buf, t, mms, left, depth, parent);
      FilledTwice(old(mms[..]), was, mms[..], capacity, done, upToHere);
      done := done + upToHere;
      if st != GooseOk {
        return;
      }
      if off == before {
        return ErrBer, left;
      }
    }
    st := GooseOk;
    ParseStep(buf, limit, off, left, depth, parent, done);
  }

  /** The loop body past ber_next_tlv: one entry, then its children. */
  method ParseElement(buf: seq<Byte>, t: BerTlv, mms: array<MmsDataRef>, capacity: nat, depth: nat, parent: int)
      returns (st: GooseStatus, left: nat)
    requires t.start < t.value && t.value + t.valueLen == t.start + t.tlvLen <= |buf|
    requires 0 < capacity <= mms.Length
    modifies mms
    ensures var r := ChildrenOf(buf, t, capacity - 1, depth);
      && st == r.status && left == capacity - 1 - |r.entries|
      && FilledDown(old(mms[..]), mms[..], capacity, [EntryOf(t, capacity - 1, depth, parent)] + r.entries)
    decreases t.valueLen, 1
  {
    hide ParseMms, NextTlv, MmsTypeFromTagOctet;
    var idx := capacity - 1;
    mms[idx] := MmsDataRef(idx, depth, parent, MmsTypeFromTagOctet(t.tag.firstOctet), t.tag.firstOctet, t.value,
      t.valueLen);
    left := capacity - 1;
    st := GooseOk;
    ghost var was := mms[..];
    assert FilledDown(old(mms[..]), was, capacity, [EntryOf(t, capacity - 1, depth, parent)]);
    if t.tag.constructed {
      var thisParent := left;
      st, left := ParseMmsSequence(buf, t.value + t.valueLen, t.value, mms, left, depth + 1, thisParent);
    }
    FilledTwice(old(mms[..]), was, mms[..], capacity, [EntryOf(t, capacity - 1, depth, parent)],
      ChildrenOf(buf, t, capacity - 1, depth).entries);
  }

  // ---- The type table ---------------------------------------------------------------------

  /** The type recorded for a tag octet, value by value (IEC 61850-8-1). */
  predicate TypedByTable(e: MmsDataRef) {
    && (e.mmsType == MmsArray <==> e.tagOctet == 0x81)
    && (e.mmsType == MmsStructure <==> e.tagOctet == 0x82)
    && (e.mmsType == MmsBoolean <==> e.tagOctet == 0x83)
    && (e.mmsType == MmsBitString <==> e.tagOctet == 0x84)
    && (e.mmsType == MmsInteger <==> e.tagOctet == 0x85)
    && (e.mmsType == MmsUnsigned <==> e.tagOctet == 0x86)
    && (e.mmsType == MmsFloatingPoint <==> e.tagOctet == 0x87)
    && (e.mmsType == MmsOctetString <==> e.tagOctet == 0x89)
    && (e.mmsType == MmsVisibleString <==> e.tagOctet == 0x8A)
    && (e.mmsType == MmsTimeOfDay <==> e.tagOctet == 0x8C)
    && (e.mmsType == MmsBcd <==> e.tagOctet == 0x8D)
    && (e.mmsType == MmsBooleanArray <==> e.tagOctet == 0x8E)
    && (e.mmsType == MmsUtcTime <==> e.tagOctet == 0x91)
  }

  lemma EntryTyped(t: BerTlv, slot: int, depth: nat, parent: int)
    ensures TypedByTable(EntryOf(t, slot, depth, parent))
  {
  }

  /** Whatever the octets, every entry has the type of its tag octet. */
  lemma {:induction false} EntriesTyped(buf: seq<Byte>, limit: nat, off: nat, capacity: nat, depth: nat, parent: int)
    requires limit <= |buf|
    ensures forall e :: e in ParseMms(buf, limit, off, capacity, depth, parent).entries ==> TypedByTable(e)
    decreases limit - off
  {
    hide NextTlv, TypedByTable, EntryOf;
    if off < limit && NextTlv(buf, limit, off).Some? && capacity > 0 {
      var t := NextTlv(buf, limit, off).value;
      EntryTyped(t, capacity - 1, depth, parent);
      if t.tag.constructed {
        EntriesTyped(buf, t.value + t.valueLen, t.value, capacity - 1, depth + 1, capacity - 1);
      }
      var used := 1 + |ChildrenOf(buf, t, capacity - 1, depth).entries|;
      EntriesTyped(buf, limit, off + t.tlvLen, capacity - used, depth, parent);
    }
  }
}
