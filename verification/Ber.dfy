/** asn/asn1_ber.c: the C reader of BER elements, against the grammar of ITU-T
    X.690 (sections 8.1.2 and 8.1.3) as far as the reader supports it.  A C pointer
    with a length is an offset and an end offset into one octet sequence. */
module Ber {
  import opened Wrappers
  import opened Bytes

  datatype TagClass = Universal | Application | Context | Private

  datatype BerTag = BerTag(cls: TagClass, constructed: bool, number: nat, firstOctet: Byte, encodedLen: nat)

  /** start, value: offsets of the first tag octet and of the first value octet. */
  datatype BerTlv = BerTlv(tag: BerTag, start: nat, tlvLen: nat, value: nat, valueLen: nat)

  const UINT32: nat := 0x1_0000_0000
  const SIZE_OCTETS: nat := 8
  const MAX_HIGH_TAG_OCTETS: nat := 5

  // ---- The grammar ----------------------------------------------------------

  function ClassOf(b: Byte): TagClass {
    if b / 64 == 0 then Universal else if b / 64 == 1 then Application else if b / 64 == 2 then Context else Private
  }

  predicate ConstructedBit(b: Byte) { b / 32 % 2 == 1 }

  /** Base-128 digits appended to a 32-bit accumulator. */
  function Accumulate(acc: nat, s: seq<Byte>): nat
    decreases |s|
  {
    if s == [] then acc else Accumulate((acc * 128 + s[0] % 128) % UINT32, s[1..])
  }

  /** Subsequent identifier octets, at most `most`: the last one alone has bit 8 clear. */
  predicate HighTagOctets(s: seq<Byte>, most: nat) {
    && 1 <= |s| <= most
    && (forall k :: 0 <= k < |s| - 1 ==> s[k] >= 128)
    && s[|s| - 1] < 128
  }

  /** Identifier octets, in low-tag or high-tag-number form. */
  predicate Identifier(s: seq<Byte>) {
    |s| >= 1 && if s[0] % 32 != 31 then |s| == 1 else HighTagOctets(s[1..], 5)
  }

  function TagOf(s: seq<Byte>): BerTag
    requires Identifier(s)
  {
    BerTag(ClassOf(s[0]), ConstructedBit(s[0]),
           if s[0] % 32 != 31 then s[0] % 32 else Accumulate(0, s[1..]), s[0], |s|)
  }

  function BigEndian(s: seq<Byte>): nat {
    if s == [] then 0 else BigEndian(s[..|s| - 1]) * 256 + s[|s| - 1]
  }

  /** Definite length octets for n: short form, or long form of up to 8 octets. */
  predicate LengthOctets(s: seq<Byte>, n: nat) {
    || (|s| == 1 && s[0] < 128 && n == s[0])
    || (2 <= |s| <= 9 && s[0] == 128 + (|s| - 1) && n == BigEndian(s[1..]))
  }

  /** buf[off..limit] starts with the element t: identifier, length, value. */
  ghost predicate ElementAt(buf: seq<Byte>, limit: nat, off: nat, t: BerTlv)
    requires limit <= |buf|
  {
    && t.start == off && off + t.tag.encodedLen < t.value && t.value + t.valueLen <= limit
    && t.tlvLen == t.value + t.valueLen - off
    && Identifier(buf[off..off + t.tag.encodedLen])
    && t.tag == TagOf(buf[off..off + t.tag.encodedLen])
    && LengthOctets(buf[off + t.tag.encodedLen..t.value], t.valueLen)
  }

  // ---- What the reader computes ---------------------------------------------

  function HighNumber(buf: seq<Byte>, limit: nat, off: nat, seen: nat, acc: nat): (r: Option<(nat, nat)>)
    requires limit <= |buf| && seen <= MAX_HIGH_TAG_OCTETS
    ensures r.Some? ==> off < r.value.1 <= limit
    decreases MAX_HIGH_TAG_OCTETS - seen
  {
    if off >= limit || seen == MAX_HIGH_TAG_OCTETS then None
    else
      var next := (acc * 128 + buf[off] % 128) % UINT32;
      if buf[off] < 128 then Some((next, off + 1)) else HighNumber(buf, limit, off + 1, seen + 1, next)
  }

  lemma {:induction false} HighNumberSound(buf: seq<Byte>, limit: nat, off: nat, seen: nat, acc: nat)
    requires limit <= |buf| && seen <= MAX_HIGH_TAG_OCTETS && HighNumber(buf, limit, off, seen, acc).Some?
    ensures var (number, end) := HighNumber(buf, limit, off, seen, acc).value;
      HighTagOctets(buf[off..end], MAX_HIGH_TAG_OCTETS - seen) && number == Accumulate(acc, buf[off..end])
    decreases MAX_HIGH_TAG_OCTETS - seen
  {
    var (number, end) := HighNumber(buf, limit, off, seen, acc).value;
    var s := buf[off..end];
    if buf[off] < 128 {
      assert s[1..] == [];
    } else {
      HighNumberSound(buf, limit, off + 1, seen + 1, (acc * 128 + buf[off] % 128) % UINT32);
      assert s[1..] == buf[off + 1..end];
      assert forall k :: 0 < k < |s| ==> s[k] == s[1..][k - 1];
    }
  }

  lemma {:induction false} HighNumberComplete(buf: seq<Byte>, limit: nat, off: nat, seen: nat, acc: nat, end: nat)
    requires limit <= |buf| && seen <= MAX_HIGH_TAG_OCTETS && off <= end <= limit
    requires HighTagOctets(buf[off..end], MAX_HIGH_TAG_OCTETS - seen)
    ensures HighNumber(buf, limit, off, seen, acc) == Some((Accumulate(acc, buf[off..end]), end))
    decreases end - off
  {
    var s := buf[off..end];
    assert s[0] == buf[off] && s[|s| - 1] == buf[end - 1];
    assert s[1..] == buf[off + 1..end];
    if end - off > 1 {
      assert forall k :: 0 <= k < |s[1..]| - 1 ==> s[1..][k] == s[k + 1];
      HighNumberComplete(buf, limit, off + 1, seen + 1, (acc * 128 + buf[off] % 128) % UINT32, end);
    } else {
      assert s[1..] == [];
    }
  }

  function ReadTag(buf: seq<Byte>, limit: nat, off: nat): Option<BerTag>
    requires limit <= |buf|
  {
    if off >= limit then None
    else
      var b := buf[off];
      if b % 32 != 31 then Some(BerTag(ClassOf(b), ConstructedBit(b), b % 32, b, 1))
      else
        var high := HighNumber(buf, limit, off + 1, 0, 0);
        if high.None? then None
        else Some(BerTag(ClassOf(b), ConstructedBit(b), high.value.0, b, high.value.1 - off))
  }

  /** The decoded length and the offset after the length octets. */
  function ReadLength(buf: seq<Byte>, limit: nat, off: nat): Option<(nat, nat)>
    requires limit <= |buf|
  {
    if off >= limit then None
    else if buf[off] < 128 then Some((buf[off] as nat, off + 1))
    else
      var n := buf[off] - 128;
      if n == 0 || n > SIZE_OCTETS || off + 1 + n > limit then None
      else Some((BigEndian(buf[off + 1..off + 1 + n]), off + 1 + n))
  }

  function NextTlv(buf: seq<Byte>, limit: nat, off: nat): (r: Option<BerTlv>)
    requires limit <= |buf|
    ensures r.Some? ==> r.value.start == off && off < r.value.value && 2 <= r.value.tlvLen
                        && r.value.value + r.value.valueLen == off + r.value.tlvLen <= limit
  {
    var tag := ReadTag(buf, limit, off);
    if tag.None? then None
    else
      var length := ReadLength(buf, limit, off + tag.value.encodedLen);
      if length.None? then None
      else
        var (vlen, at) := length.value;
        if at + vlen > limit then None
        else Some(BerTlv(tag.value, off, at - off + vlen, at, vlen))
  }

  // ---- The reader recognises exactly the grammar ------------------------------

  lemma ReadTagIff(buf: seq<Byte>, limit: nat, off: nat, tag: BerTag)
    requires limit <= |buf|
    ensures ReadTag(buf, limit, off) == Some(tag) <==>
      off + tag.encodedLen <= limit && Identifier(buf[off..off + tag.encodedLen])
        && tag == TagOf(buf[off..off + tag.encodedLen])
  {
    if off + tag.encodedLen <= limit {
      var s := buf[off..off + tag.encodedLen];
      if Identifier(s) && s[0] % 32 == 31 {
        assert s[1..] == buf[off + 1..off + tag.encodedLen];
        HighNumberComplete(buf, limit, off + 1, 0, 0, off + tag.encodedLen);
      }
      if off < limit && buf[off] % 32 == 31 && HighNumber(buf, limit, off + 1, 0, 0).Some? {
        HighNumberSound(buf, limit, off + 1, 0, 0);
        if tag.encodedLen > 1 {
          assert s[1..] == buf[off + 1..off + tag.encodedLen];
        }
      }
    }
  }

  lemma ReadLengthIff(buf: seq<Byte>, limit: nat, off: nat, n: nat, next: nat)
    requires limit <= |buf|
    ensures ReadLength(buf, limit, off) == Some((n, next)) <==>
      off <= next <= limit && LengthOctets(buf[off..next], n)
  {
    if off < next <= limit {
      assert buf[off..next][1..] == buf[off + 1..next];
    }
  }

  lemma NextTlvSound(buf: seq<Byte>, limit: nat, off: nat)
    requires limit <= |buf| && NextTlv(buf, limit, off).Some?
    ensures ElementAt(buf, limit, off, NextTlv(buf, limit, off).value)
  {
    var t := NextTlv(buf, limit, off).value;
    ReadTagIff(buf, limit, off, t.tag);
    ReadLengthIff(buf, limit, off + t.tag.encodedLen, t.valueLen, t.value);
  }

  lemma NextTlvComplete(buf: seq<Byte>, limit: nat, off: nat, t: BerTlv)
    requires limit <= |buf| && ElementAt(buf, limit, off, t)
    ensures NextTlv(buf, limit, off) == Some(t)
  {
    ReadTagIff(buf, limit, off, t.tag);
    ReadLengthIff(buf, limit, off + t.tag.encodedLen, t.valueLen, t.value);
    NextTlvParts(buf, limit, off, t);
  }

  lemma NextTlvParts(buf: seq<Byte>, limit: nat, off: nat, t: BerTlv)
    requires limit <= |buf| && off <= t.value && t.start == off && t.value + t.valueLen == off + t.tlvLen <= limit
    requires ReadTag(buf, limit, off) == Some(t.tag)
    requires ReadLength(buf, limit, off + t.tag.encodedLen) == Some((t.valueLen, t.value))
    ensures NextTlv(buf, limit, off) == Some(t)
  {
  }

  /** ber_next_tlv succeeds exactly on the elements of the grammar that fit the
      window, and reports their parts. */
  lemma NextTlvIff(buf: seq<Byte>, limit: nat, off: nat, t: BerTlv)
    requires limit <= |buf|
    ensures NextTlv(buf, limit, off) == Some(t) <==> ElementAt(buf, limit, off, t)
  {
    if NextTlv(buf, limit, off) == Some(t) {
      NextTlvSound(buf, limit, off);
    } else if ElementAt(buf, limit, off, t) {
      NextTlvComplete(buf, limit, off, t);
    }
  }

  function MoveTo(t: BerTlv, off: nat): BerTlv
    requires t.start <= t.value
  {
    t.(start := off, value := off + (t.value - t.start))
  }

  lemma ElementMoves(buf: seq<Byte>, limit: nat, off: nat, t: BerTlv, other: seq<Byte>, otherLimit: nat, otherOff: nat)
    requires limit <= |buf| && otherLimit <= |other| && ElementAt(buf, limit, off, t)
    requires otherOff + t.tlvLen <= otherLimit && other[otherOff..otherOff + t.tlvLen] == buf[off..off + t.tlvLen]
    ensures ElementAt(other, otherLimit, otherOff, MoveTo(t, otherOff))
  {
    hide Identifier, LengthOctets, TagOf;
    var e, v := t.tag.encodedLen, t.value - off;
    SubSlice(buf, off, t.tlvLen, 0, e);
    SubSlice(buf, off, t.tlvLen, e, v);
    SubSlice(other, otherOff, t.tlvLen, 0, e);
    SubSlice(other, otherOff, t.tlvLen, e, v);
  }

  /** The result depends only on the octets of the element read. */
  lemma Locality(buf: seq<Byte>, limit: nat, off: nat, t: BerTlv, other: seq<Byte>, otherLimit: nat, otherOff: nat)
    requires limit <= |buf| && otherLimit <= |other| && NextTlv(buf, limit, off) == Some(t)
    requires otherOff + t.tlvLen <= otherLimit && other[otherOff..otherOff + t.tlvLen] == buf[off..off + t.tlvLen]
    ensures NextTlv(other, otherLimit, otherOff) == Some(MoveTo(t, otherOff))
  {
    hide NextTlv;
    NextTlvIff(buf, limit, off, t);
    ElementMoves(buf, limit, off, t, other, otherLimit, otherOff);
    NextTlvIff(other, otherLimit, otherOff, MoveTo(t, otherOff));
  }

  // ---- What an identifier means ---------------------------------------------------------

  /** X.690 section 8.1.2: class and primitive or constructed, by the first octet; the tag
      number in its low five bits, unless those are all set. */
  predicate IdentifierMeans(first: Byte, tag: BerTag) {
    && tag.firstOctet == first
    && (tag.cls == Universal <==> first < 0x40)
    && (tag.cls == Application <==> 0x40 <= first < 0x80)
    && (tag.cls == Context <==> 0x80 <= first < 0xC0)
    && (tag.cls == Private <==> first >= 0xC0)
    && (tag.constructed <==> first % 0x40 >= 0x20)
    && (first % 0x20 != 0x1F ==> tag.number == first % 0x20 && tag.encodedLen == 1)
  }

  lemma TagMeans(buf: seq<Byte>, limit: nat, off: nat)
    requires limit <= |buf|
    ensures ReadTag(buf, limit, off).Some? ==> off < limit && IdentifierMeans(buf[off], ReadTag(buf, limit, off).value)
    ensures NextTlv(buf, limit, off).Some? ==>
      off < limit && IdentifierMeans(buf[off], NextTlv(buf, limit, off).value.tag)
  {
    hide HighNumber, ReadLength;
  }

  /** Base-128 digits, the most significant first. */
  function Base128(s: seq<Byte>): nat {
    if s == [] then 0 else Base128(s[..|s| - 1]) * 128 + s[|s| - 1] % 128
  }

  lemma {:induction false} AccumulateGrows(acc: nat, s: seq<Byte>, b: Byte)
    ensures Accumulate(acc, s + [b]) == (Accumulate(acc, s) * 128 + b % 128) % UINT32
    decreases |s|
  {
    if s == [] {
      assert [b][1..] == [];
    } else {
      assert (s + [b])[1..] == s[1..] + [b];
      AccumulateGrows((acc * 128 + s[0] % 128) % UINT32, s[1..], b);
    }
  }

  /** The number of a tag in high form: the digits of its subsequent octets, in 32 bits. */
  lemma {:induction false} HighNumberMeans(s: seq<Byte>)
    ensures Accumulate(0, s) == Base128(s) % 0x1_0000_0000
  {
    if s != [] {
      var front, b := s[..|s| - 1], s[|s| - 1];
      HighNumberMeans(front);
      AccumulateGrows(0, front, b);
      assert front + [b] == s;
      hide Accumulate, Base128;
      ModStep(Base128(front), b % 128);
    }
  }

  lemma ModStep(n: nat, d: nat)
    ensures (n % 0x1_0000_0000 * 128 + d) % 0x1_0000_0000 == (n * 128 + d) % 0x1_0000_0000
  {
    var q, m := n / 0x1_0000_0000, n % 0x1_0000_0000;
    assert n * 128 + d == 0x1_0000_0000 * (q * 128) + (m * 128 + d);
  }

  // ---- The reader -------------------------------------------------------------

  method BerReadTag(buf: seq<Byte>, limit: nat, off: nat) returns (tag: Option<BerTag>, next: nat)
    requires limit <= |buf|
    ensures tag == ReadTag(buf, limit, off)
    ensures next == if tag.Some? then off + tag.value.encodedLen else off
    ensures tag.Some? ==> off < limit && IdentifierMeans(buf[off], tag.value)
  {
    next := off;
    if off >= limit {
      return None, off;
    }
    var b0 := buf[off];
    var tagnum: nat := b0 % 32;
    var at := off + 1;
    if tagnum != 31 {
      return Some(BerTag(ClassOf(b0), ConstructedBit(b0), tagnum, b0, at - off)), at;
    }
    var number;
    number, at := ReadHighTag(buf, limit, at);
    if number.None? {
      return None, off;
    }
    return Some(BerTag(ClassOf(b0), ConstructedBit(b0), number.value, b0, at - off)), at;
  }

  /** The high-tag-number loop of ber_read_tag. */
  method ReadHighTag(buf: seq<Byte>, limit: nat, off: nat) returns (number: Option<nat>, next: nat)
    requires limit <= |buf|
    ensures HighNumber(buf, limit, off, 0, 0) == if number.Some? then Some((number.value, next)) else None
    ensures number.Some? ==> off < next
  {
    var tagnum: nat := 0;
    var seen := 0;
    next := off;
    while next < limit
      invariant off <= next && 0 <= seen <= MAX_HIGH_TAG_OCTETS
      invariant HighNumber(buf, limit, off, 0, 0) == HighNumber(buf, limit, next, seen, tagnum)
    {
      var b := buf[next];
      next := next + 1;
      seen := seen + 1;
      if seen > MAX_HIGH_TAG_OCTETS {
        return None, next;
      }
      tagnum := (tagnum * 128 + b % 128) % UINT32;
      if b < 128 {
        return Some(tagnum), next;
      }
    }
    return None, next;
  }

  method BerReadLength(buf: seq<Byte>, limit: nat, off: nat) returns (len: Option<nat>, next: nat)
    requires limit <= |buf|
    ensures ReadLength(buf, limit, off) == if len.Some? then Some((len.value, next)) else None
    ensures len.None? ==> next == off
  {
    if off >= limit {
      return None, off;
    }
    var b0 := buf[off];
    var at := off + 1;
    if b0 < 128 {
      return Some(b0 as nat), at;
    }
    var nbytes := b0 - 128;
    if nbytes == 0 {
      return None, off;
    }
    if nbytes > SIZE_OCTETS {
      return None, off;
    }
    if at + nbytes > limit {
      return None, off;
    }
    var v: nat := 0;
    for i := 0 to nbytes
      invariant at == off + 1 + i
      invariant v == BigEndian(buf[off + 1..off + 1 + i])
    {
      assert buf[off + 1..off + 1 + i + 1][..i] == buf[off + 1..off + 1 + i];
      v := v * 256 + buf[at];
      at := at + 1;
    }
    return Some(v), at;
  }

  method BerNextTlv(buf: seq<Byte>, limit: nat, off: nat) returns (tlv: Option<BerTlv>, next: nat)
    requires limit <= |buf|
    ensures tlv == NextTlv(buf, limit, off)
    ensures next == if tlv.Some? then off + tlv.value.tlvLen else off
    ensures tlv.Some? ==> IdentifierMeans(buf[off], tlv.value.tag)
  {
    TagMeans(buf, limit, off);
    var tag, at := BerReadTag(buf, limit, off);
    if tag.None? {
      return None, off;
    }
    var vlen;
    vlen, at := BerReadLength(buf, limit, at);
    if vlen.None? {
      return None, off;
    }
    if at + vlen.value > limit {
      return None, off;
    }
    return Some(BerTlv(tag.value, off, at - off + vlen.value, at, vlen.value)), at + vlen.value;
  }
}
