/** The two BER readers of the system side by side: readTlv of asn_tlv_codec.hpp
    and ber_next_tlv of asn/asn1_ber.c. */
module BerReaders {
  import opened Wrappers
  import opened Bytes
  import opened Ber
  import opened SerCodec

  /** The identifier at `off` is in low-tag form. */
  predicate LowTag(data: Octets, off: nat) {
    off < |data| ==> data[off] % 32 != 31
  }

  /** The length field after it announces at most 8 further octets. */
  predicate ShortCount(data: Octets, off: nat) {
    off + 1 < |data| && data[off + 1] >= 128 ==> data[off + 1] - 128 <= SIZE_OCTETS
  }

  /** Both fail, or both report the same element. */
  predicate Agree(cpp: Result<TlvInfo>, c: Option<BerTlv>, off: nat) {
    if c.None? then cpp.Err?
    else
      && cpp.Ok?
      && cpp.value.tag == c.value.tag.firstOctet
      && cpp.value.constructed == c.value.tag.constructed
      && cpp.value.valueStart == c.value.value
      && cpp.value.length == c.value.valueLen
      && cpp.value.nextOffset == off + c.value.tlvLen
  }

  lemma LengthsAgree(data: Octets, off: nat)
    requires off < |data| && data[off] >= 128 ==> data[off] - 128 <= SIZE_OCTETS
    ensures LengthAt(data, off) == match Ber.ReadLength(data, |data|, off)
      case Some(r) => Ok(r)
      case None => Err(if off >= |data| then InvalidLengthOffset else InvalidLengthEncoding)
  {
    if off < |data| && data[off] >= 128 {
      var count := data[off] - 128;
      if off + count < |data| {
        NoWrap(data[off + 1..off + 1 + count], 8);
      }
    }
  }

  lemma {:induction false} BigEndianHead(x: Octets)
    requires x != []
    ensures BigEndian(x) == x[0] * Power256(|x| - 1) + BigEndian(x[1..])
  {
    if |x| > 1 {
      var front := x[..|x| - 1];
      BigEndianHead(front);
      assert front[1..] == x[1..][..|x| - 2];
      HeadTimes(x[0], |x| - 2);
    } else {
      assert x[..0] == [] && x[1..] == [];
    }
  }

  lemma HeadTimes(head: nat, k: nat)
    ensures head * Power256(k) * 256 == head * Power256(k + 1)
  {
  }

  /** The value of a window of 8 octets that moves on by one. */
  lemma WindowMoves(x: Octets, b: Byte)
    requires |x| == 8
    ensures (BigEndian(x) * 256 + b) % SIZE_LIMIT == BigEndian(x[1..] + [b])
  {
    PowerEight();
    HeadTimes(x[0], 7);
    BigEndianHead(x);
    var next := x[1..] + [b];
    assert next[..7] == x[1..];
    assert BigEndian(x) * 256 + b == x[0] * SIZE_LIMIT + BigEndian(next);
    NoWrap(next, 8);
    hide BigEndian, Power256;
    Remainder(x[0], BigEndian(next));
  }

  lemma Remainder(head: nat, rest: nat)
    requires rest < SIZE_LIMIT
    ensures (head * SIZE_LIMIT + rest) % SIZE_LIMIT == rest
  {
  }

  /** A length of 8 octets or more is, to the C++ reader, the value of the last 8. */
  lemma {:induction false} LastEightCount(s: Octets)
    requires |s| >= 8
    ensures BigEndianWrapped(s) == BigEndian(s[|s| - 8..])
  {
    var n := |s|;
    if n == 8 {
      NoWrap(s, 8);
      assert s[0..] == s;
    } else {
      var front, last := s[..n - 1], s[n - 1];
      hide BigEndian;
      LastEightCount(front);
      var x := front[n - 9..];
      assert x == s[n - 9..n - 1];
      assert x[1..] == s[n - 8..n - 1];
      assert s[n - 8..] == s[n - 8..n - 1] + [last];
      WindowMoves(x, last);
    }
  }

  /** The length octets, or the value whose length their last 8 spell, run past the
      end of the data. */
  predicate RunsOut(data: Octets, off: nat)
    requires off + 1 < |data| && data[off + 1] - 128 > SIZE_OCTETS
  {
    var next := off + 2 + (data[off + 1] - 128);
    next > |data| || next + BigEndian(data[next - SIZE_OCTETS..next]) > |data|
  }

  /** On low-tag elements the readers disagree in one case only, seen from the octets:
      a length field of more than 8 octets, all present, whose last 8 spell a length
      that fits.  The C++ reader accepts it, the C reader does not. */
  lemma ReadersAgree(data: Octets, off: nat)
    requires LowTag(data, off)
    ensures Agree(TlvAt(data, off), NextTlv(data, |data|, off), off) <==>
      ShortCount(data, off) || RunsOut(data, off)
  {
    hide BigEndian, BigEndianWrapped;
    if ShortCount(data, off) {
      ShortAgree(data, off);
    } else {
      LongAgree(data, off);
    }
  }

  lemma ShortAgree(data: Octets, off: nat)
    requires LowTag(data, off) && ShortCount(data, off)
    ensures Agree(TlvAt(data, off), NextTlv(data, |data|, off), off)
  {
    hide LengthAt, Ber.ReadLength;
    if off < |data| {
      LengthsAgree(data, off + 1);
    }
  }

  lemma LongAgree(data: Octets, off: nat)
    requires LowTag(data, off) && !ShortCount(data, off)
    ensures NextTlv(data, |data|, off).None?
    ensures TlvAt(data, off).Err? <==> RunsOut(data, off)
  {
    hide BigEndian, BigEndianWrapped;
    var count := data[off + 1] - 128;
    var next := off + 2 + count;
    if next <= |data| {
      var s := data[off + 2..next];
      LastEightCount(s);
      assert s[count - 8..] == data[next - 8..next];
    }
  }

  /** Such an element exists. */
  lemma LongCountDisagreement()
    ensures var data: Octets := [0x04, 0x89, 0, 0, 0, 0, 0, 0, 0, 0, 0];
      TlvAt(data, 0).Ok? && NextTlv(data, |data|, 0).None?
  {
    var data: Octets := [0x04, 0x89, 0, 0, 0, 0, 0, 0, 0, 0, 0];
    AllZero(data[2..11]);
  }

  lemma {:induction false} AllZero(s: Octets)
    requires forall k :: 0 <= k < |s| ==> s[k] == 0
    ensures BigEndianWrapped(s) == 0
  {
    if s != [] {
      AllZero(s[..|s| - 1]);
    }
  }

  /** Both readers invert berAppendTlv wherever the element stands. */
  lemma BothInvertAppend(data: Octets, off: nat, tag: Byte, value: Octets)
    requires |value| < SIZE_LIMIT && tag % 32 != 31 && StandsAt(data, off, Tlv(tag, value))
    ensures var at := off + 1 + |LengthField(|value|)|;
      && TlvAt(data, off) == Ok(TlvInfo(tag, ConstructedBit(tag), at, |value|, off + |Tlv(tag, value)|))
      && NextTlv(data, |data|, off) ==
           Some(BerTlv(BerTag(ClassOf(tag), ConstructedBit(tag), tag % 32, tag, 1), off, |Tlv(tag, value)|, at,
             |value|))
      && data[at..at + |value|] == value
  {
    hide TlvAt, NextTlv, LengthField, LengthOctets;
    TlvReadsBack(data, off, tag, value);
    AppendedIsShort(data, off, tag, value);
    ShortAgree(data, off);
    LowTagRead(data, off);
  }

  lemma LowTagRead(data: Octets, off: nat)
    requires off < |data| && data[off] % 32 != 31 && NextTlv(data, |data|, off).Some?
    ensures var b := data[off];
      NextTlv(data, |data|, off).value.tag == BerTag(ClassOf(b), ConstructedBit(b), b % 32, b, 1)
  {
  }

  lemma AppendedIsShort(data: Octets, off: nat, tag: Byte, value: Octets)
    requires |value| < SIZE_LIMIT && tag % 32 != 31 && StandsAt(data, off, Tlv(tag, value))
    ensures off < |data| && data[off] == tag && ShortCount(data, off)
  {
    hide LengthField, BigEndian;
    var field := LengthField(|value|);
    StandsThree(data, off, [tag], field, value);
    LengthFieldValid(|value|);
    assert data[off..off + 1] == [tag];
    assert data[off + 1..off + 1 + |field|][0] == field[0];
  }
}
