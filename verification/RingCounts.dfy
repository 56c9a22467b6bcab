/** How many drops the byte ring counts for one write: one per position dropped, however
    many readers stand there. */
module RingCounts {
  import opened Wrappers
  import opened Bytes
  import opened RingLayout
  import opened RingDrops

  /** The positions a reader is dropped from until `size` octets at w are free for it. */
  ghost function Passed(bytes: seq<Byte>, pos: nat, w: nat, size: nat): (s: set<nat>)
    requires HEADER_SIZE < |bytes| && pos < |bytes|
    requires HEADER_SIZE < size && w + size <= |bytes|
    ensures forall p :: p in s ==> p < |bytes| && Used(|bytes|, p, w) <= Used(|bytes|, Normalize(|bytes|, pos), w)
    decreases Used(|bytes|, Normalize(|bytes|, pos), w)
  {
    var at := Normalize(|bytes|, pos);
    if Used(|bytes|, at, w) + size <= |bytes| then {}
    else
      SkipShrinks(bytes, at, w, size);
      {at} + Passed(bytes, SkipTarget(bytes, at, w), w, size)
  }

  ghost function Union(sets: seq<set<nat>>): set<nat> {
    set i, p | 0 <= i < |sets| && p in sets[i] :: p
  }

  ghost function PassedEach(bytes: seq<Byte>, slots: seq<ReaderSlot>, w: nat, size: nat): seq<set<nat>>
    requires HEADER_SIZE < |bytes| && SlotsOk(|bytes|, slots)
    requires HEADER_SIZE < size && w + size <= |bytes|
  {
    seq(|slots|, i requires 0 <= i < |slots| =>
      if slots[i].active then Passed(bytes, slots[i].readPos, w, size) else {})
  }

  /** Those of all active readers together. */
  ghost function PassedBy(bytes: seq<Byte>, slots: seq<ReaderSlot>, w: nat, size: nat): set<nat>
    requires HEADER_SIZE < |bytes| && SlotsOk(|bytes|, slots)
    requires HEADER_SIZE < size && w + size <= |bytes|
  {
    Union(PassedEach(bytes, slots, w, size))
  }

  lemma UnionStep(before: seq<set<nat>>, after: seq<set<nat>>, at: nat, k: nat)
    requires |before| == |after| && k < |before| && at in before[k]
    requires forall i :: 0 <= i < |before| ==>
      at !in after[i] && (before[i] == after[i] || before[i] == {at} + after[i])
    ensures at !in Union(after) && Union(before) == {at} + Union(after)
  {
    forall p | p in Union(after)
      ensures p in Union(before)
    {
      var i :| 0 <= i < |after| && p in after[i];
      assert p in before[i];
    }
  }

  lemma PassedStep(bytes: seq<Byte>, slot: ReaderSlot, at: nat, w: nat, size: nat)
    requires HEADER_SIZE < |bytes| && slot.readPos < |bytes|
    requires at <= |bytes| - HEADER_SIZE
    requires HEADER_SIZE < size && w + size <= |bytes| && Used(|bytes|, at, w) + size > |bytes|
    requires slot.active && UsedOf(|bytes|, slot, w) <= Used(|bytes|, at, w)
    ensures var next := if IsAt(|bytes|, slot, at) then SkipTarget(bytes, at, w) else slot.readPos;
      var rest := Passed(bytes, next, w, size);
      && at !in rest
      && Passed(bytes, slot.readPos, w, size) == if IsAt(|bytes|, slot, at) then {at} + rest else rest
  {
    SkipShrinks(bytes, at, w, size);
  }

  /** One turn of the drop loop passes exactly the oldest position. */
  lemma AdvanceCounts(bytes: seq<Byte>, slots: seq<ReaderSlot>, at: nat, w: nat, size: nat, after: seq<ReaderSlot>)
    requires HEADER_SIZE < |bytes| && at <= |bytes| - HEADER_SIZE && SlotsOk(|bytes|, slots) && SlotsOk(|bytes|, after)
    requires HEADER_SIZE < size && w + size <= |bytes| && Used(|bytes|, at, w) + size > |bytes|
    requires Advanced(bytes, slots, at, w, after)
    requires exists i :: 0 <= i < |slots| && IsAt(|bytes|, slots[i], at)
    requires forall i :: 0 <= i < |slots| ==> UsedOf(|bytes|, slots[i], w) <= Used(|bytes|, at, w)
    ensures at !in PassedBy(bytes, after, w, size)
    ensures PassedBy(bytes, slots, w, size) == {at} + PassedBy(bytes, after, w, size)
    ensures |PassedBy(bytes, slots, w, size)| == |PassedBy(bytes, after, w, size)| + 1
  {
    var before, rest := PassedEach(bytes, slots, w, size), PassedEach(bytes, after, w, size);
    forall i | 0 <= i < |slots|
      ensures at !in rest[i] && (before[i] == rest[i] || before[i] == {at} + rest[i])
      ensures IsAt(|bytes|, slots[i], at) ==> at in before[i]
    {
      if slots[i].active {
        PassedStep(bytes, slots[i], at, w, size);
      }
    }
    var k :| 0 <= k < |slots| && IsAt(|bytes|, slots[k], at);
    UnionStep(before, rest, at, k);
  }

  lemma FitsPassesNone(bytes: seq<Byte>, slots: seq<ReaderSlot>, w: nat, size: nat)
    requires HEADER_SIZE < |bytes| && SlotsOk(|bytes|, slots)
    requires HEADER_SIZE < size && w + size <= |bytes|
    ensures Fits(|bytes|, slots, w, size) <==> PassedBy(bytes, slots, w, size) == {}
  {
    if !Fits(|bytes|, slots, w, size) {
      var i :| 0 <= i < |slots| && UsedOf(|bytes|, slots[i], w) + size > |bytes|;
      var each := PassedEach(bytes, slots, w, size);
      assert Normalize(|bytes|, slots[i].readPos) in each[i];
      assert Normalize(|bytes|, slots[i].readPos) in Union(each);
    } else {
      assert forall i :: 0 <= i < |slots| ==> UsedOf(|bytes|, slots[i], w) + size <= |bytes|;
    }
  }

  /** Where the messages c to p - 1 start. */
  ghost function Places(starts: seq<nat>, c: nat, p: nat): set<nat>
    requires p <= |starts|
  {
    set q | c <= q < p :: starts[q]
  }

  /** For a reader in step they are the places of the unread messages before the first it
      has room at, and what lies behind the last if it has room at none. */
  lemma {:induction false} PassedAlong(bytes: seq<Byte>, history: seq<Payload>, starts: seq<nat>, v: nat, c: nat,
                                       pos: nat, w: nat, size: nat)
    requires HEADER_SIZE < |bytes| < 0x1_0000_0000 && |starts| == |history| + 1
    requires Readable(bytes, history, starts, v, c) && starts[|history|] == v <= |bytes| - HEADER_SIZE
    requires pos < |bytes| && Normalize(|bytes|, pos) == starts[c]
    requires HEADER_SIZE < size && w + size <= |bytes|
    ensures var p := FirstFit(|bytes|, starts, w, size, c);
      && c <= p <= |history| && starts[p] < |bytes|
      && Passed(bytes, pos, w, size) ==
           Places(starts, c, p) + Passed(bytes, starts[p], w, size)
      && (p < |history| || w == v ==> Passed(bytes, starts[p], w, size) == {})
    decreases |history| - c
  {
    hide Readable, SkipTarget;
    StartsBounded(bytes, history, starts, v, c);
    if c == |history| || FitsAt(|bytes|, starts, w, size, c) {
      assert Places(starts, c, c) == {};
    } else {
      SkipsFrame(bytes, history, starts, v, c, w);
      var next := SkipTarget(bytes, starts[c], w);
      ReadableAfterRead(bytes, history, starts, v, c);
      PassedAlong(bytes, history, starts, v, c + 1, next, w, size);
      var p := FirstFit(|bytes|, starts, w, size, c);
      assert Places(starts, c, p) == {starts[c]} + Places(starts, c + 1, p);
    }
  }

  lemma PlacesDiffer(bytes: seq<Byte>, history: seq<Payload>, starts: seq<nat>, v: nat, c: nat, j: nat)
    requires HEADER_SIZE < |bytes| && |starts| == |history| + 1
    requires Readable(bytes, history, starts, v, c) && c < j < |history| && v <= |bytes| - HEADER_SIZE
    ensures starts[j] != starts[c]
  {
    assert Ahead(bytes, history, starts, v, c, c) && Ahead(bytes, history, starts, v, c + 1, j);
  }

  /** Unread messages start at different places. */
  lemma {:induction false} PlacesCount(bytes: seq<Byte>, history: seq<Payload>, starts: seq<nat>, v: nat, c: nat,
                                       p: nat)
    requires HEADER_SIZE < |bytes| && |starts| == |history| + 1
    requires Readable(bytes, history, starts, v, c) && c <= p <= |history| && v <= |bytes| - HEADER_SIZE
    ensures |Places(starts, c, p)| == p - c
    decreases p - c
  {
    hide Readable;
    if c < p {
      ReadableLater(bytes, history, starts, v, c, c + 1);
      PlacesCount(bytes, history, starts, v, c + 1, p);
      forall j | c < j < p
        ensures starts[j] != starts[c]
      {
        PlacesDiffer(bytes, history, starts, v, c, j);
      }
      assert Places(starts, c, p) == {starts[c]} + Places(starts, c + 1, p);
    } else {
      assert Places(starts, c, p) == {};
    }
  }

  /** With one reader, in step and left with room at message p, every message before p is
      dropped and counted once. */
  lemma LoneDrops(bytes: seq<Byte>, slots: seq<ReaderSlot>, history: seq<Payload>, starts: seq<nat>, v: nat, c: nat,
                  w: nat, size: nat)
    requires HEADER_SIZE < |bytes| < 0x1_0000_0000 && |starts| == |history| + 1
    requires SlotsOk(|bytes|, slots) && slots != [] && slots[0].active
    requires forall i :: 1 <= i < |slots| ==> !slots[i].active
    requires Readable(bytes, history, starts, v, c) && starts[|history|] == v <= |bytes| - HEADER_SIZE
    requires Normalize(|bytes|, slots[0].readPos) == starts[c]
    requires HEADER_SIZE < size && w + size <= |bytes|
    ensures var p := FirstFit(|bytes|, starts, w, size, c);
      && c <= p <= |history|
      && (FitsAt(|bytes|, starts, w, size, p) ==> |PassedBy(bytes, slots, w, size)| == p - c)
  {
    hide Readable, Passed, PassedBy, FirstFit;
    var p := FirstFit(|bytes|, starts, w, size, c);
    PassedAlong(bytes, history, starts, v, c, slots[0].readPos, w, size);
    StartsBounded(bytes, history, starts, v, c);
    LonePassed(bytes, slots, w, size);
    if FitsAt(|bytes|, starts, w, size, p) {
      PlacesCount(bytes, history, starts, v, c, p);
      FitPasses(bytes, starts[p], w, size);
      assert Places(starts, c, p) + {} == Places(starts, c, p);
    }
  }

  lemma LonePassed(bytes: seq<Byte>, slots: seq<ReaderSlot>, w: nat, size: nat)
    requires HEADER_SIZE < |bytes| && HEADER_SIZE < size && w + size <= |bytes|
    requires SlotsOk(|bytes|, slots) && slots != [] && slots[0].active
    requires forall i :: 1 <= i < |slots| ==> !slots[i].active
    ensures PassedBy(bytes, slots, w, size) == Passed(bytes, slots[0].readPos, w, size)
  {
    hide Passed;
    UnionOfOne(PassedEach(bytes, slots, w, size));
  }

  lemma FitPasses(bytes: seq<Byte>, pos: nat, w: nat, size: nat)
    requires HEADER_SIZE < |bytes| && pos <= |bytes| - HEADER_SIZE
    requires HEADER_SIZE < size && w + size <= |bytes| && Used(|bytes|, pos, w) + size <= |bytes|
    ensures Passed(bytes, pos, w, size) == {}
  {
  }

  lemma UnionOfOne(sets: seq<set<nat>>)
    requires sets != [] && forall i :: 1 <= i < |sets| ==> sets[i] == {}
    ensures Union(sets) == sets[0]
  {
  }
}
