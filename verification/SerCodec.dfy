/** asn_tlv_codec.hpp: the BER codec for SER records.  A C++ string or byte vector
    is a sequence of octets; an appended-to output vector is passed in and out. */
module SerCodec {
  import opened Bytes
  import opened Sequences
  import opened Ber

  type Octets = seq<Byte>

  /** size_t is 64 bits wide. */
  const SIZE_LIMIT: nat := 0x1_0000_0000_0000_0000

  datatype DecodeError =
    | EmptyBuffer | UnexpectedTag | InvalidTlvOffset | LengthExceedsBuffer
    | InvalidLengthOffset | InvalidLengthEncoding

  datatype Result<+T> = Ok(value: T) | Err(error: DecodeError)

  datatype TlvInfo = TlvInfo(tag: Byte, constructed: bool, valueStart: nat, length: nat, nextOffset: nat)

  datatype SerRecord = SerRecord(
    recordId: Octets, timestamp: Octets, status: Octets, description: Octets, relayId: Octets, relayName: Octets)

  const EMPTY_RECORD := SerRecord([], [], [], [], [], [])

  const PDU_TAG: Byte := 0x61
  const RECORD_TAG: Byte := 0x30

  // ---- Encoding ---------------------------------------------------------------

  /** Base-256 digits of n, most significant first, none for 0. */
  function Digits(n: nat): (d: Octets)
    ensures n > 0 ==> |d| > 0
  {
    if n == 0 then [] else Digits(n / 256) + [n % 256]
  }

  function LengthField(len: nat): (field: Octets)
    ensures |field| >= 1
  {
    if len < 128 then [len]
    else
      var d := Digits(len);
      [(0x80 + |d|) % 256] + d
  }

  function Tlv(tag: Byte, value: Octets): (tlv: Octets)
    ensures |tlv| == 1 + |LengthField(|value|)| + |value|
  {
    [tag] + LengthField(|value|) + value
  }

  function Power256(k: nat): nat { if k == 0 then 1 else 256 * Power256(k - 1) }

  lemma {:induction false} DigitsSound(n: nat, k: nat)
    requires n < Power256(k)
    ensures |Digits(n)| <= k && BigEndian(Digits(n)) == n
    decreases k
  {
    if n > 0 {
      DigitsSound(n / 256, k - 1);
      var d := Digits(n);
      assert d[..|d| - 1] == Digits(n / 256);
    }
  }

  lemma PowerEight()
    ensures Power256(8) == SIZE_LIMIT
  {
    assert Power256(4) == 0x1_0000_0000;
    assert Power256(8) == 256 * Power256(7) == 256 * 256 * Power256(6) == 256 * 256 * 256 * Power256(5);
  }

  lemma DigitsFit(len: nat)
    requires 0 < len < SIZE_LIMIT
    ensures 1 <= |Digits(len)| <= 8 && BigEndian(Digits(len)) == len
  {
    PowerEight();
    hide Power256, BigEndian, Digits;
    DigitsSound(len, 8);
  }

  lemma LongFormValid(d: Octets)
    requires 1 <= |d| <= 8
    ensures LengthOctets([0x80 + |d|] + d, BigEndian(d))
  {
    hide BigEndian;
    assert ([0x80 + |d|] + d)[1..] == d;
  }

  /** X.690 section 8.1.3: the length field is valid definite length octets. */
  lemma LengthFieldValid(len: nat)
    requires len < SIZE_LIMIT
    ensures LengthOctets(LengthField(len), len)
  {
    hide BigEndian, Digits;
    if len >= 128 {
      hide LengthOctets;
      DigitsFit(len);
      LongFormValid(Digits(len));
    }
  }

  ghost function Reversed(s: Octets): (r: Octets)
    ensures |r| == |s|
  {
    if s == [] then [] else [s[|s| - 1]] + Reversed(s[..|s| - 1])
  }

  lemma ReversedGrows(s: Octets, k: nat)
    requires k < |s|
    ensures Reversed(s[..k + 1]) == [s[k]] + Reversed(s[..k])
  {
    assert s[..k + 1][..k] == s[..k];
  }

  method BerAppendLength(out: Octets, len: nat) returns (r: Octets)
    requires len < SIZE_LIMIT
    ensures r == out + LengthField(len)
  {
    if len < 128 {
      return out + [len];
    }
    DigitsFit(len);
    ghost var d := Digits(len);
    assert LengthField(len) == [(0x80 + |d|) % 256] + d;
    hide *;
    var buf := new Byte[8](_ => 0);
    var count := CollectDigits(buf, len);
    r := out + [(0x80 + count) % 256];
    r := AppendReversed(r, buf, count);
    Regroup(out, [(0x80 + count) % 256], d);
  }

  /** The first loop of berAppendLength: the digits, least significant first. */
  method CollectDigits(buf: array<Byte>, len: nat) returns (count: nat)
    requires buf.Length == 8 && |Digits(len)| <= 8
    modifies buf
    ensures count <= 8 && Reversed(buf[..count]) == Digits(len)
  {
    var tmp := len;
    count := 0;
    assert Digits(len) == Digits(tmp) + [];
    while tmp > 0 && count < 8
      invariant 0 <= count <= 8
      invariant Digits(len) == Digits(tmp) + Reversed(buf[..count])
      decreases tmp
    {
      ghost var before := buf[..count];
      buf[count] := tmp % 256;
      assert buf[..count] == before;
      ReversedGrows(buf[..], count);
      assert buf[..][..count + 1] == buf[..count + 1] && buf[..][..count] == before;
      assert Digits(tmp) + Reversed(before) == Digits(tmp / 256) + ([tmp % 256] + Reversed(before));
      count := count + 1;
      tmp := tmp / 256;
    }
    assert |Digits(len)| == |Digits(tmp)| + count;
    assert [] + Reversed(buf[..count]) == Reversed(buf[..count]);
  }

  /** The second loop of berAppendLength. */
  method AppendReversed(out: Octets, buf: array<Byte>, n: nat) returns (r: Octets)
    requires n <= buf.Length
    ensures r == out + Reversed(buf[..n])
  {
    r := out;
    var count := n;
    while count > 0
      invariant 0 <= count <= n
      invariant r + Reversed(buf[..count]) == out + Reversed(buf[..n])
    {
      ReversedGrows(buf[..], count - 1);
      assert buf[..][..count] == buf[..count] && buf[..][..count - 1] == buf[..count - 1];
      assert (r + [buf[count - 1]]) + Reversed(buf[..count - 1]) == r + ([buf[count - 1]] + Reversed(buf[..count - 1]));
      r := r + [buf[count - 1]];
      count := count - 1;
    }
    assert r + [] == r;
  }

  method BerAppendTlv(out: Octets, tag: Byte, value: Octets) returns (r: Octets)
    requires |value| < SIZE_LIMIT
    ensures r == out + Tlv(tag, value)
  {
    r := out + [tag];
    r := BerAppendLength(r, |value|);
    if |value| > 0 {
      r := r + value;
    }
  }

  // ---- Reading one element ------------------------------------------------------

  /** Big-endian accumulation in a 64-bit size_t. */
  function BigEndianWrapped(s: Octets): nat {
    if s == [] then 0 else (BigEndianWrapped(s[..|s| - 1]) * 256 + s[|s| - 1]) % SIZE_LIMIT
  }

  lemma {:induction false} NoWrap(s: Octets, k: nat)
    requires |s| <= k <= 8
    ensures BigEndianWrapped(s) == BigEndian(s) < Power256(k) <= SIZE_LIMIT
    decreases k
  {
    if k > 0 {
      if s != [] {
        NoWrap(s[..|s| - 1], k - 1);
      }
      PowerBound(k);
    }
  }

  lemma {:induction false} PowerBound(k: nat)
    requires k <= 8
    ensures 0 < Power256(k) <= SIZE_LIMIT
    ensures k < 8 ==> 256 * Power256(k) <= SIZE_LIMIT
  {
    assert Power256(1) == 256;
    assert Power256(2) == 0x1_0000;
    assert Power256(3) == 256 * Power256(2);
    assert Power256(4) == 256 * Power256(3);
    assert Power256(5) == 256 * Power256(4);
    assert Power256(6) == 256 * Power256(5);
    assert Power256(7) == 256 * Power256(6);
    assert Power256(8) == 256 * Power256(7);
  }

  function LengthAt(buffer: Octets, offset: nat): Result<(nat, nat)> {
    if offset >= |buffer| then Err(InvalidLengthOffset)
    else if buffer[offset] < 128 then Ok((buffer[offset] as nat, offset + 1))
    else
      var count := buffer[offset] - 128;
      if count == 0 || offset + count >= |buffer| then Err(InvalidLengthEncoding)
      else Ok((BigEndianWrapped(buffer[offset + 1..offset + 1 + count]), offset + 1 + count))
  }

  function TlvAt(buffer: Octets, offset: nat): (r: Result<TlvInfo>)
    ensures r.Ok? ==>
      offset + 2 <= r.value.valueStart && r.value.valueStart + r.value.length == r.value.nextOffset <= |buffer|
  {
    if offset >= |buffer| then Err(InvalidTlvOffset)
    else
      match LengthAt(buffer, offset + 1)
      case Err(e) => Err(e)
      case Ok((length, next)) =>
        if next + length > |buffer| then Err(LengthExceedsBuffer)
        else Ok(TlvInfo(buffer[offset], ConstructedBit(buffer[offset]), next, length, next + length))
  }

  method ReadLength(buffer: Octets, offset: nat) returns (r: Result<(nat, nat)>)
    ensures r == LengthAt(buffer, offset)
  {
    if offset >= |buffer| {
      return Err(InvalidLengthOffset);
    }
    var first := buffer[offset];
    if first < 128 {
      return Ok((first as nat, offset + 1));
    }
    var count := first - 128;
    if count == 0 || offset + count >= |buffer| {
      return Err(InvalidLengthEncoding);
    }
    var value: nat := 0;
    for i := 0 to count
      invariant value == BigEndianWrapped(buffer[offset + 1..offset + 1 + i])
    {
      assert buffer[offset + 1..offset + 1 + i + 1][..i] == buffer[offset + 1..offset + 1 + i];
      value := (value * 256 + buffer[offset + 1 + i]) % SIZE_LIMIT;
    }
    return Ok((value, offset + 1 + count));
  }

  method ReadTlv(buffer: Octets, offset: nat) returns (r: Result<TlvInfo>)
    ensures r == TlvAt(buffer, offset)
  {
    if offset >= |buffer| {
      return Err(InvalidTlvOffset);
    }
    var tag := buffer[offset];
    var constructed := ConstructedBit(tag);
    var l := ReadLength(buffer, offset + 1);
    if l.Err? {
      return Err(l.error);
    }
    var (length, nextOffset) := l.value;
    if nextOffset + length > |buffer| {
      return Err(LengthExceedsBuffer);
    }
    return Ok(TlvInfo(tag, constructed, nextOffset, length, nextOffset + length));
  }

  lemma LengthReadsBack(data: Octets, off: nat, len: nat)
    requires len < SIZE_LIMIT && StandsAt(data, off, LengthField(len))
    ensures LengthAt(data, off) == Ok((len, off + |LengthField(len)|))
  {
    var field := LengthField(len);
    LengthFieldValid(len);
    assert data[off] == field[0];
    if len >= 128 {
      SubSlice(data, off, |field|, 1, |field|);
      assert data[off + 1..off + |field|] == field[1..];
      NoWrap(field[1..], 8);
    }
  }

  lemma TlvFromLength(data: Octets, off: nat, len: nat, at: nat)
    requires off < at && at + len <= |data| && LengthAt(data, off + 1) == Ok((len, at))
    ensures TlvAt(data, off) == Ok(TlvInfo(data[off], ConstructedBit(data[off]), at, len, at + len))
  {
  }

  lemma StandsThree(data: Octets, off: nat, a: Octets, b: Octets, c: Octets)
    requires StandsAt(data, off, a + b + c)
    ensures StandsAt(data, off, a) && StandsAt(data, off + |a|, b) && StandsAt(data, off + |a| + |b|, c)
  {
    StandsParts(data, off, a + b, c);
    StandsParts(data, off, a, b);
  }

  /** An appended element reads back wherever it stands. */
  lemma TlvReadsBack(data: Octets, off: nat, tag: Byte, value: Octets)
    requires |value| < SIZE_LIMIT && StandsAt(data, off, Tlv(tag, value))
    ensures var at := off + 1 + |LengthField(|value|)|;
      && TlvAt(data, off) == Ok(TlvInfo(tag, ConstructedBit(tag), at, |value|, at + |value|))
      && StandsAt(data, at, value)
      && at + |value| == off + |Tlv(tag, value)|
  {
    hide LengthField;
    var field := LengthField(|value|);
    StandsThree(data, off, [tag], field, value);
    assert data[off] == tag by {
      assert data[off..off + 1] == [tag];
    }
    LengthReadsBack(data, off + 1, |value|);
    TlvFromLength(data, off, |value|, off + 1 + |field|);
  }

  // ---- Records --------------------------------------------------------------------

  function SetField(rec: SerRecord, tag: Byte, value: Octets): SerRecord {
    if tag == 0x80 then rec.(recordId := value)
    else if tag == 0x81 then rec.(timestamp := value)
    else if tag == 0x82 then rec.(status := value)
    else if tag == 0x83 then rec.(description := value)
    else if tag == 0x84 then rec.(relayId := value)
    else if tag == 0x85 then rec.(relayName := value)
    else rec
  }

  /** The fields of one record element, from `offset` on. */
  function FieldsAt(data: Octets, offset: nat, recordEnd: nat, rec: SerRecord): Result<SerRecord>
    decreases |data| - offset
  {
    if offset >= recordEnd then Ok(rec)
    else
      match TlvAt(data, offset)
      case Err(e) => Err(e)
      case Ok(f) => FieldsAt(data, f.nextOffset, recordEnd,
        SetField(rec, f.tag, data[f.valueStart..f.valueStart + f.length]))
  }

  /** What the decoder leaves in its output vector, and the error if it fails. */
  datatype Decoded = Decoded(records: seq<SerRecord>, result: Result<()>)

  function RecordsAt(data: Octets, offset: nat, end: nat, out: seq<SerRecord>): Decoded
    decreases |data| - offset
  {
    if offset >= end then Decoded(out, Ok(()))
    else
      match TlvAt(data, offset)
      case Err(e) => Decoded(out, Err(e))
      case Ok(r) =>
        if r.tag != RECORD_TAG then RecordsAt(data, r.nextOffset, end, out)
        else
          match FieldsAt(data, r.valueStart, r.valueStart + r.length, EMPTY_RECORD)
          case Err(e) => Decoded(out, Err(e))
          case Ok(rec) => RecordsAt(data, r.nextOffset, end, out + [rec])
  }

  function Decode(data: Octets): Decoded {
    if data == [] then Decoded([], Err(EmptyBuffer))
    else
      match TlvAt(data, 0)
      case Err(e) => Decoded([], Err(e))
      case Ok(top) =>
        if top.tag != PDU_TAG then Decoded([], Err(UnexpectedTag))
        else RecordsAt(data, top.valueStart, top.valueStart + top.length, [])
  }

  method DecodeRecordFields(data: Octets, valueStart: nat, recordEnd: nat) returns (r: Result<SerRecord>)
    ensures r == FieldsAt(data, valueStart, recordEnd, EMPTY_RECORD)
  {
    var rec := EMPTY_RECORD;
    var fieldOffset := valueStart;
    while fieldOffset < recordEnd
      invariant FieldsAt(data, valueStart, recordEnd, EMPTY_RECORD) == FieldsAt(data, fieldOffset, recordEnd, rec)
      decreases |data| - fieldOffset
    {
      var field := ReadTlv(data, fieldOffset);
      if field.Err? {
        return Err(field.error);
      }
      var value := data[field.value.valueStart..field.value.valueStart + field.value.length];
      if field.value.tag == 0x80 {
        rec := rec.(recordId := value);
      } else if field.value.tag == 0x81 {
        rec := rec.(timestamp := value);
      } else if field.value.tag == 0x82 {
        rec := rec.(status := value);
      } else if field.value.tag == 0x83 {
        rec := rec.(description := value);
      } else if field.value.tag == 0x84 {
        rec := rec.(relayId := value);
      } else if field.value.tag == 0x85 {
        rec := rec.(relayName := value);
      }
      fieldOffset := field.value.nextOffset;
    }
    return Ok(rec);
  }

  method DecodeSerRecordsFromTlv(data: Octets) returns (d: Decoded)
    ensures d == Decode(data)
  {
    if |data| == 0 {
      return Decoded([], Err(EmptyBuffer));
    }
    var top := ReadTlv(data, 0);
    if top.Err? {
      return Decoded([], Err(top.error));
    }
    if top.value.tag != PDU_TAG {
      return Decoded([], Err(UnexpectedTag));
    }
    d := DecodeRecords(data, top.value.valueStart, top.value.valueStart + top.value.length);
  }

  /** The record loop of decodeSerRecordsFromTlv. */
  method DecodeRecords(data: Octets, start: nat, end: nat) returns (d: Decoded)
    ensures d == RecordsAt(data, start, end, [])
  {
    var out: seq<SerRecord> := [];
    var offset := start;
    while offset < end
      invariant RecordsAt(data, start, end, []) == RecordsAt(data, offset, end, out)
      decreases |data| - offset
    {
      var record := ReadTlv(data, offset);
      if record.Err? {
        return Decoded(out, Err(record.error));
      }
      if record.value.tag != RECORD_TAG {
        offset := record.value.nextOffset;
        continue;
      }
      var rec := DecodeRecordFields(data, record.value.valueStart, record.value.valueStart + record.value.length);
      if rec.Err? {
        return Decoded(out, Err(rec.error));
      }
      out := out + [rec.value];
      offset := record.value.nextOffset;
    }
    return Decoded(out, Ok(()));
  }

  // ---- Round trip -------------------------------------------------------------------

  datatype Field = Field(tag: Byte, value: Octets)

  /** What may stand in a payload: a record of any fields in any order, or an
      element that is not a record. */
  datatype Item = Record(fields: seq<Field>) | Foreign(tag: Byte, value: Octets)

  function FieldBytes(fields: seq<Field>): Octets {
    if fields == [] then [] else Tlv(fields[0].tag, fields[0].value) + FieldBytes(fields[1..])
  }

  function ItemBytes(item: Item): (b: Octets)
    ensures |b| >= 2
  {
    match item
    case Record(fields) => Tlv(RECORD_TAG, FieldBytes(fields))
    case Foreign(tag, value) => Tlv(tag, value)
  }

  function Content(items: seq<Item>): Octets {
    if items == [] then [] else ItemBytes(items[0]) + Content(items[1..])
  }

  predicate Genuine(items: seq<Item>) {
    forall k :: 0 <= k < |items| && items[k].Foreign? ==> items[k].tag != RECORD_TAG
  }

  /** A record as its fields say: the last of several wins, none means empty, and
      tags outside 0x80..0x85 mean nothing. */
  function Meant(fields: seq<Field>, rec: SerRecord): SerRecord {
    if fields == [] then rec else Meant(fields[1..], SetField(rec, fields[0].tag, fields[0].value))
  }

  function RecordsIn(item: Item): seq<SerRecord> {
    if item.Record? then [Meant(item.fields, EMPTY_RECORD)] else []
  }

  function RecordsOf(items: seq<Item>): seq<SerRecord> {
    if items == [] then [] else RecordsIn(items[0]) + RecordsOf(items[1..])
  }

  lemma HeadFieldStands(data: Octets, off: nat, fields: seq<Field>)
    requires fields != [] && StandsAt(data, off, FieldBytes(fields))
    ensures var head := Tlv(fields[0].tag, fields[0].value);
      && StandsAt(data, off, head) && StandsAt(data, off + |head|, FieldBytes(fields[1..]))
      && |FieldBytes(fields)| == |head| + |FieldBytes(fields[1..])|
  {
    hide Tlv, StandsAt;
    var head, rest := Tlv(fields[0].tag, fields[0].value), FieldBytes(fields[1..]);
    assert FieldBytes(fields) == head + rest;
    hide FieldBytes;
    StandsParts(data, off, head, rest);
  }

  lemma FieldStep(data: Octets, off: nat, f: Field, end: nat, rec: SerRecord)
    requires |f.value| < SIZE_LIMIT && StandsAt(data, off, Tlv(f.tag, f.value)) && off < end
    ensures FieldsAt(data, off, end, rec) ==
      FieldsAt(data, off + |Tlv(f.tag, f.value)|, end, SetField(rec, f.tag, f.value))
  {
    hide Tlv, LengthField;
    TlvReadsBack(data, off, f.tag, f.value);
  }

  lemma {:induction false} FieldsReadBack(data: Octets, off: nat, fields: seq<Field>, rec: SerRecord)
    requires |FieldBytes(fields)| < SIZE_LIMIT && StandsAt(data, off, FieldBytes(fields))
    ensures FieldsAt(data, off, off + |FieldBytes(fields)|, rec) == Ok(Meant(fields, rec))
    decreases |fields|
  {
    hide Tlv, TlvAt;
    if fields != [] {
      hide FieldsAt, StandsAt, FieldBytes, SetField;
      var f := fields[0];
      HeadFieldStands(data, off, fields);
      FieldStep(data, off, f, off + |FieldBytes(fields)|, rec);
      FieldsReadBack(data, off + |Tlv(f.tag, f.value)|, fields[1..], SetField(rec, f.tag, f.value));
    }
  }

  lemma HeadItemStands(data: Octets, off: nat, items: seq<Item>)
    requires items != [] && StandsAt(data, off, Content(items))
    ensures StandsAt(data, off, ItemBytes(items[0])) && StandsAt(data, off + |ItemBytes(items[0])|, Content(items[1..]))
    ensures |Content(items)| == |ItemBytes(items[0])| + |Content(items[1..])| && |ItemBytes(items[0])| > 0
  {
    hide ItemBytes;
    StandsParts(data, off, ItemBytes(items[0]), Content(items[1..]));
  }

  /** The record loop on one element: its value decoded as fields, if a record. */
  lemma RecordStep(data: Octets, off: nat, end: nat, out: seq<SerRecord>, r: TlvInfo, rec: SerRecord)
    requires off < end && TlvAt(data, off) == Ok(r) && r.tag == RECORD_TAG
    requires FieldsAt(data, r.valueStart, r.valueStart + r.length, EMPTY_RECORD) == Ok(rec)
    ensures RecordsAt(data, off, end, out) == RecordsAt(data, r.nextOffset, end, out + [rec])
  {
    hide FieldsAt, TlvAt;
  }

  lemma ItemStep(data: Octets, off: nat, item: Item, end: nat, out: seq<SerRecord>)
    requires |ItemBytes(item)| < SIZE_LIMIT && StandsAt(data, off, ItemBytes(item)) && off < end
    requires item.Foreign? ==> item.tag != RECORD_TAG
    ensures RecordsAt(data, off, end, out) == RecordsAt(data, off + |ItemBytes(item)|, end, out + RecordsIn(item))
  {
    hide LengthField, Tlv, TlvAt, FieldBytes, FieldsAt, StandsAt, Meant;
    match item {
      case Foreign(tag, value) =>
        TlvReadsBack(data, off, tag, value);
        assert out + [] == out;
      case Record(fields) =>
        var value := FieldBytes(fields);
        TlvReadsBack(data, off, RECORD_TAG, value);
        FieldsReadBack(data, off + 1 + |LengthField(|value|)|, fields, EMPTY_RECORD);
        RecordStep(data, off, end, out, TlvAt(data, off).value, Meant(fields, EMPTY_RECORD));
    }
  }

  /** The record loop over whole items, whatever follows them in its range. */
  lemma {:induction false} ItemsDecode(data: Octets, off: nat, items: seq<Item>, end: nat, out: seq<SerRecord>)
    requires Genuine(items) && |Content(items)| < SIZE_LIMIT && StandsAt(data, off, Content(items))
    requires off + |Content(items)| <= end
    ensures RecordsAt(data, off, end, out) ==
      RecordsAt(data, off + |Content(items)|, end, out + RecordsOf(items))
    decreases |items|
  {
    hide ItemBytes, RecordsAt, RecordsIn;
    if items == [] {
      assert out + [] == out;
    } else {
      hide Content, StandsAt;
      HeadItemStands(data, off, items);
      ItemStep(data, off, items[0], end, out);
      ItemsDecode(data, off + |ItemBytes(items[0])|, items[1..], end, out + RecordsIn(items[0]));
      assert (out + RecordsIn(items[0])) + RecordsOf(items[1..]) == out + RecordsOf(items);
    }
  }

  lemma ItemsReadBack(data: Octets, off: nat, items: seq<Item>, out: seq<SerRecord>)
    requires Genuine(items) && |Content(items)| < SIZE_LIMIT && StandsAt(data, off, Content(items))
    ensures RecordsAt(data, off, off + |Content(items)|, out) == Decoded(out + RecordsOf(items), Ok(()))
  {
    hide Content, RecordsOf, TlvAt, FieldsAt, StandsAt;
    ItemsDecode(data, off, items, off + |Content(items)|, out);
  }

  /** Any payload of records and foreign elements, followed by any trailing
      octets, decodes to exactly the records, in order. */
  lemma TolerantRoundTrip(items: seq<Item>, trailing: Octets)
    requires Genuine(items) && |Content(items)| < SIZE_LIMIT
    ensures Decode(Tlv(PDU_TAG, Content(items)) + trailing) == Decoded(RecordsOf(items), Ok(()))
  {
    hide LengthField, Content, RecordsAt, RecordsOf, TlvAt;
    var content := Content(items);
    var pdu := Tlv(PDU_TAG, content);
    var data := pdu + trailing;
    assert data[0..|pdu|] == pdu;
    TlvReadsBack(data, 0, PDU_TAG, content);
    ItemsReadBack(data, |pdu| - |content|, items, []);
    assert [] + RecordsOf(items) == RecordsOf(items);
  }

  /** The element at `at` cannot be read, or is a record with a field that cannot. */
  predicate FailsAt(data: Octets, at: nat, e: DecodeError) {
    || TlvAt(data, at) == Err(e)
    || (TlvAt(data, at).Ok?
        && var r := TlvAt(data, at).value;
           r.tag == 0x30 && FieldsAt(data, r.valueStart, r.valueStart + r.length, EMPTY_RECORD) == Err(e))
  }

  /** A payload that goes wrong after some items fails with the error of the element it
      goes wrong at, and leaves exactly the records before it. */
  lemma FailureKeeps(items: seq<Item>, rest: Octets, trailing: Octets, e: DecodeError)
    requires Genuine(items) && rest != [] && |Content(items) + rest| < SIZE_LIMIT
    requires var data := Tlv(0x61, Content(items) + rest) + trailing;
      FailsAt(data, |data| - |trailing| - |rest|, e)
    ensures Decode(Tlv(0x61, Content(items) + rest) + trailing) == Decoded(RecordsOf(items), Err(e))
  {
    hide LengthField, Content, RecordsAt, RecordsOf, TlvAt, FieldsAt;
    var content := Content(items) + rest;
    var pdu := Tlv(PDU_TAG, content);
    var data := pdu + trailing;
    assert data[0..|pdu|] == pdu;
    TlvReadsBack(data, 0, PDU_TAG, content);
    var start := |pdu| - |content|;
    StandsParts(data, start, Content(items), rest);
    ItemsDecode(data, start, items, |pdu|, []);
    assert [] + RecordsOf(items) == RecordsOf(items);
    FailsThere(data, |pdu| - |rest|, |pdu|, RecordsOf(items), e);
  }

  lemma FailsThere(data: Octets, at: nat, end: nat, out: seq<SerRecord>, e: DecodeError)
    requires at < end && FailsAt(data, at, e)
    ensures RecordsAt(data, at, end, out) == Decoded(out, Err(e))
  {
    hide TlvAt, FieldsAt;
  }

  /** When decoding fails before the records, and how a whole element can fail. */
  lemma EnvelopeErrors(data: Octets)
    ensures Decode(data).result == Err(EmptyBuffer) <==> data == []
    ensures Decode(data).result == Err(UnexpectedTag) <==> data != [] && TlvAt(data, 0).Ok? && data[0] != 0x61
    ensures data != [] && TlvAt(data, 0).Err? ==> Decode(data) == Decoded([], Err(TlvAt(data, 0).error))
  {
    if data != [] && TlvAt(data, 0).Ok? {
      var top := TlvAt(data, 0).value;
      RecordErrors(data, top.valueStart, top.valueStart + top.length, []);
    }
  }

  /** Inside the payload neither of these errors is reported. */
  predicate OfElement(r: Result<()>) {
    r.Err? ==> r.error !in {EmptyBuffer, UnexpectedTag}
  }

  lemma {:induction false} FieldErrors(data: Octets, off: nat, end: nat, rec: SerRecord)
    ensures var r := FieldsAt(data, off, end, rec); r.Err? ==> r.error !in {EmptyBuffer, UnexpectedTag}
    decreases |data| - off
  {
    if off < end && TlvAt(data, off).Ok? {
      var f := TlvAt(data, off).value;
      FieldErrors(data, f.nextOffset, end, SetField(rec, f.tag, data[f.valueStart..f.valueStart + f.length]));
    }
  }

  lemma {:induction false} RecordErrors(data: Octets, off: nat, end: nat, out: seq<SerRecord>)
    ensures OfElement(RecordsAt(data, off, end, out).result)
    decreases |data| - off
  {
    if off < end && TlvAt(data, off).Ok? {
      var r := TlvAt(data, off).value;
      FieldErrors(data, r.valueStart, r.valueStart + r.length, EMPTY_RECORD);
      RecordErrors(data, r.nextOffset, end, out);
      var fields := FieldsAt(data, r.valueStart, r.valueStart + r.length, EMPTY_RECORD);
      if fields.Ok? {
        RecordErrors(data, r.nextOffset, end, out + [fields.value]);
      }
    }
  }

  /** How reading one element fails: nothing there, no length octet, no definite length in
      full, or a value that does not fit. */
  lemma TlvErrors(data: Octets, off: nat)
    ensures TlvAt(data, off) == Err(InvalidTlvOffset) <==> off >= |data|
    ensures TlvAt(data, off) == Err(InvalidLengthOffset) <==> off + 1 == |data|
    ensures TlvAt(data, off) == Err(InvalidLengthEncoding) <==>
      off + 1 < |data| && data[off + 1] >= 0x80 && (data[off + 1] == 0x80 || off + 2 + (data[off + 1] - 0x80) > |data|)
  {
    hide BigEndianWrapped;
  }

  function FieldsOf(rec: SerRecord): seq<Field> {
    [Field(0x80, rec.recordId), Field(0x81, rec.timestamp), Field(0x82, rec.status),
     Field(0x83, rec.description), Field(0x84, rec.relayId), Field(0x85, rec.relayName)]
  }

  function ItemsOf(records: seq<SerRecord>): (items: seq<Item>)
    ensures Genuine(items)
  {
    seq(|records|, i requires 0 <= i < |records| => Record(FieldsOf(records[i])))
  }

  function Encode(records: seq<SerRecord>): Octets {
    Tlv(PDU_TAG, Content(ItemsOf(records)))
  }

  /** Fields of tags other than 0x80..0x85, wherever they stand, change nothing. */
  lemma {:induction false} ForeignFieldsIgnored(fields: seq<Field>, rec: SerRecord)
    ensures Meant(fields, rec) == Meant(Known(fields), rec)
    decreases |fields|
  {
    if fields != [] {
      var f := fields[0];
      ForeignFieldsIgnored(fields[1..], SetField(rec, f.tag, f.value));
      if 0x80 <= f.tag <= 0x85 {
        hide SetField;
        var rest := Known(fields[1..]);
        assert Known(fields) == [f] + rest && ([f] + rest)[1..] == rest && ([f] + rest)[0] == f;
      } else {
        assert [] + Known(fields[1..]) == Known(fields[1..]) && SetField(rec, f.tag, f.value) == rec;
      }
    }
  }

  function Known(fields: seq<Field>): seq<Field> {
    if fields == [] then []
    else (if 0x80 <= fields[0].tag <= 0x85 then [fields[0]] else []) + Known(fields[1..])
  }

  lemma FieldsMeanRecord(rec: SerRecord)
    ensures Meant(FieldsOf(rec), EMPTY_RECORD) == rec
  {
    var f := FieldsOf(rec);
    var r1 := EMPTY_RECORD.(recordId := rec.recordId);
    var r2 := r1.(timestamp := rec.timestamp);
    var r3 := r2.(status := rec.status);
    var r4 := r3.(description := rec.description);
    var r5 := r4.(relayId := rec.relayId);
    assert f[1..][1..] == f[2..] && f[2..][1..] == f[3..] && f[3..][1..] == f[4..] && f[4..][1..] == f[5..]
      && f[5..][1..] == [];
    assert Meant(f, EMPTY_RECORD) == Meant(f[1..], r1) == Meant(f[2..], r2);
    assert Meant(f[2..], r2) == Meant(f[3..], r3) == Meant(f[4..], r4);
    assert Meant(f[4..], r4) == Meant(f[5..], r5) == Meant([], rec);
  }

  lemma {:induction false} RecordsOfItems(records: seq<SerRecord>)
    ensures RecordsOf(ItemsOf(records)) == records
    decreases |records|
  {
    if records != [] {
      FieldsMeanRecord(records[0]);
      RecordsOfItems(records[1..]);
      assert ItemsOf(records)[1..] == ItemsOf(records[1..]);
    }
  }

  lemma RoundTrip(records: seq<SerRecord>)
    requires |Content(ItemsOf(records))| < SIZE_LIMIT
    ensures Decode(Encode(records)) == Decoded(records, Ok(()))
  {
    TolerantRoundTrip(ItemsOf(records), []);
    RecordsOfItems(records);
    assert Encode(records) + [] == Encode(records);
  }

  /** The record elements carry these records, in order, their fields in tag order with
      foreign ones anywhere between; other elements carry nothing. */
  predicate Carries(items: seq<Item>, records: seq<SerRecord>) {
    if items == [] then records == []
    else if items[0].Foreign? then Carries(items[1..], records)
    else records != [] && Known(items[0].fields) == FieldsOf(records[0]) && Carries(items[1..], records[1..])
  }

  lemma {:induction false} CarriedRecords(items: seq<Item>, records: seq<SerRecord>)
    requires Carries(items, records)
    ensures RecordsOf(items) == records
    decreases |items|
  {
    hide Known, FieldsOf, Meant;
    if items != [] {
      if items[0].Foreign? {
        CarriedRecords(items[1..], records);
      } else {
        ForeignFieldsIgnored(items[0].fields, EMPTY_RECORD);
        FieldsMeanRecord(records[0]);
        CarriedRecords(items[1..], records[1..]);
        assert [records[0]] + records[1..] == records;
      }
    }
  }

  /** The codec promise in one piece: a payload that carries the records, interleaved
      with foreign elements and foreign fields and followed by anything, decodes to
      exactly those records in order. */
  lemma CarriedDecode(items: seq<Item>, records: seq<SerRecord>, trailing: Octets)
    requires Genuine(items) && Carries(items, records) && |Content(items)| < SIZE_LIMIT
    ensures Decode(Tlv(PDU_TAG, Content(items)) + trailing) == Decoded(records, Ok(()))
  {
    hide Decode, Tlv, Content, RecordsOf, Carries;
    TolerantRoundTrip(items, trailing);
    CarriedRecords(items, records);
  }

  lemma {:induction false} ContentBounds(items: seq<Item>, k: nat)
    requires k < |items|
    ensures |ItemBytes(items[k])| <= |Content(items)|
  {
    hide ItemBytes;
    if k > 0 {
      ContentBounds(items[1..], k - 1);
    }
  }

  lemma {:induction false} ContentGrows(items: seq<Item>, item: Item)
    ensures Content(items + [item]) == Content(items) + ItemBytes(item)
    decreases |items|
  {
    hide ItemBytes;
    if items == [] {
      assert ([] + [item])[1..] == [] && Content([]) == [];
    } else {
      ContentGrows(items[1..], item);
      assert (items + [item])[1..] == items[1..] + [item];
      assert ItemBytes(items[0]) + (Content(items[1..]) + ItemBytes(item)) ==
        (ItemBytes(items[0]) + Content(items[1..])) + ItemBytes(item);
    }
  }

  lemma {:induction false} FieldBytesGrow(fields: seq<Field>, f: Field)
    ensures FieldBytes(fields + [f]) == FieldBytes(fields) + Tlv(f.tag, f.value)
    decreases |fields|
  {
    hide Tlv;
    if fields == [] {
      assert ([] + [f])[1..] == [] && FieldBytes([]) == [];
    } else {
      FieldBytesGrow(fields[1..], f);
      assert (fields + [f])[1..] == fields[1..] + [f];
      var head := Tlv(fields[0].tag, fields[0].value);
      assert head + (FieldBytes(fields[1..]) + Tlv(f.tag, f.value)) ==
        (head + FieldBytes(fields[1..])) + Tlv(f.tag, f.value);
    }
  }

  /** Appends one string field; `fields` are those appended so far. */
  method BerAppendString(out: Octets, tag: Byte, value: Octets, ghost fields: seq<Field>) returns (r: Octets)
    requires |value| < SIZE_LIMIT && out == FieldBytes(fields)
    ensures r == FieldBytes(fields + [Field(tag, value)])
  {
    hide Tlv;
    FieldBytesGrow(fields, Field(tag, value));
    r := BerAppendTlv(out, tag, value);
  }

  lemma {:induction false} FieldBounds(fields: seq<Field>, k: nat)
    requires k < |fields|
    ensures |fields[k].value| <= |FieldBytes(fields)|
  {
    if k > 0 {
      FieldBounds(fields[1..], k - 1);
    }
  }

  method EncodeRecord(rec: SerRecord) returns (recordTlv: Octets)
    requires |ItemBytes(Record(FieldsOf(rec)))| < SIZE_LIMIT
    ensures recordTlv == ItemBytes(Record(FieldsOf(rec)))
  {
    var value := RecordValue(rec);
    recordTlv := BerAppendTlv([], RECORD_TAG, value);
    assert recordTlv == Tlv(RECORD_TAG, value);
  }

  method RecordValue(rec: SerRecord) returns (value: Octets)
    requires |FieldBytes(FieldsOf(rec))| < SIZE_LIMIT
    ensures value == FieldBytes(FieldsOf(rec))
  {
    hide Tlv;
    ghost var f := FieldsOf(rec);
    FieldBounds(f, 0);
    FieldBounds(f, 1);
    FieldBounds(f, 2);
    FieldBounds(f, 3);
    FieldBounds(f, 4);
    FieldBounds(f, 5);
    ghost var g := [];
    value := BerAppendString([], 0x80, rec.recordId, g);
    g := g + [f[0]];
    value := BerAppendString(value, 0x81, rec.timestamp, g);
    g := g + [f[1]];
    value := BerAppendString(value, 0x82, rec.status, g);
    g := g + [f[2]];
    value := BerAppendString(value, 0x83, rec.description, g);
    g := g + [f[3]];
    value := BerAppendString(value, 0x84, rec.relayId, g);
    g := g + [f[4]];
    value := BerAppendString(value, 0x85, rec.relayName, g);
    g := g + [f[5]];
    assert g == f;
  }

  method EncodeSerRecordsToTlv(records: seq<SerRecord>) returns (payload: Octets)
    requires |Content(ItemsOf(records))| < SIZE_LIMIT
    ensures payload == Encode(records)
    ensures Decode(payload) == Decoded(records, Ok(()))
  {
    hide Tlv, ItemBytes;
    ghost var items := ItemsOf(records);
    var content: Octets := [];
    for k := 0 to |records|
      invariant content == Content(items[..k])
    {
      ContentBounds(items, k);
      ContentGrows(items[..k], items[k]);
      assert items[..k] + [items[k]] == items[..k + 1];
      var recordTlv := EncodeRecord(records[k]);
      content := content + recordTlv;
    }
    assert items[..|records|] == items;
    payload := BerAppendTlv([], PDU_TAG, content);
    RoundTrip(records);
  }
}
