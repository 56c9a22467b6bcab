/** What a write to the byte ring does to a reader that is in step: which unread
    messages it still gets, and which are lost to it. */
module RingDrops {
  import opened Wrappers
  import opened Bytes
  import opened RingLayout

  // ---- Where dropping leaves a reader ---------------------------------------------

  /** `size` octets at w are clear of a reader standing before frame p. */
  predicate FitsAt(capacity: nat, starts: seq<nat>, w: nat, size: nat, p: nat)
    requires p < |starts|
  {
    starts[p] < capacity && Used(capacity, starts[p], w) + size <= capacity
  }

  /** The first frame from c on before which a reader has room for the write; the
      place of the next frame if there is none. */
  function FirstFit(capacity: nat, starts: seq<nat>, w: nat, size: nat, c: nat): (p: nat)
    ensures c <= p
    ensures c < |starts| ==> p < |starts| && (p == |starts| - 1 || FitsAt(capacity, starts, w, size, p))
    ensures forall q :: c <= q < p ==> q < |starts| && !FitsAt(capacity, starts, w, size, q)
    decreases |starts| - c
  {
    if c + 1 >= |starts| || FitsAt(capacity, starts, w, size, c) then c else FirstFit(capacity, starts, w, size, c + 1)
  }

  /** The frame a reader is before after a write at w that left it at r: what was
      dropped for it is skipped, and a reader standing where the write wrapped to has
      lost everything it had unread. */
  function CursorAfter(capacity: nat, starts: seq<nat>, w: nat, size: nat, cursor: nat, r: nat): nat
    requires |starts| > 0
  {
    if w != starts[|starts| - 1] && r == w then |starts| - 1 else FirstFit(capacity, starts, w, size, cursor)
  }

  ghost function CursorsAfter(capacity: nat, after: seq<ReaderSlot>, starts: seq<nat>, w: nat, size: nat,
      cursors: seq<nat>)
      : (r: seq<nat>)
    requires |starts| > 0 && |cursors| == |after| && HEADER_SIZE < capacity
    ensures |r| == |cursors|
  {
    seq(|cursors|, i requires 0 <= i < |cursors| =>
      if after[i].active then CursorAfter(capacity, starts, w, size, cursors[i], Normalize(capacity, after[i].readPos))
      else cursors[i])
  }

  lemma SkipSame(bytes: seq<Byte>, pos: nat, other: nat, w: nat, size: nat)
    requires HEADER_SIZE < |bytes| && pos < |bytes| && other < |bytes|
    requires HEADER_SIZE < size && w + size <= |bytes| && Normalize(|bytes|, pos) == Normalize(|bytes|, other)
    ensures Normalize(|bytes|, SkipUntil(bytes, pos, w, size)) == Normalize(|bytes|, SkipUntil(bytes, other, w, size))
  {
  }

  /** Dropping moves a reader in step from frame to frame, to the first that fits. */
  lemma {:induction false} SkipAlong(bytes: seq<Byte>, history: seq<Payload>, starts: seq<nat>, v: nat, c: nat,
                                     pos: nat, w: nat, size: nat)
    requires HEADER_SIZE < |bytes| < 0x1_0000_0000 && |starts| == |history| + 1
    requires Readable(bytes, history, starts, v, c) && starts[|history|] == v <= |bytes| - HEADER_SIZE
    requires pos < |bytes| && Normalize(|bytes|, pos) == starts[c]
    requires HEADER_SIZE < size && w + size <= |bytes|
    ensures var p := FirstFit(|bytes|, starts, w, size, c);
      && p <= |history| && starts[p] < |bytes|
      && Normalize(|bytes|, SkipUntil(bytes, pos, w, size)) == Normalize(|bytes|, SkipUntil(bytes, starts[p], w, size))
    decreases |history| - c
  {
    hide Readable, SkipTarget;
    StartsBounded(bytes, history, starts, v, c);
    if c == |history| || FitsAt(|bytes|, starts, w, size, c) {
      SkipSame(bytes, pos, starts[c], w, size);
    } else {
      SkipsFrame(bytes, history, starts, v, c, w);
      var next := SkipTarget(bytes, starts[c], w);
      ReadableAfterRead(bytes, history, starts, v, c);
      SkipAlong(bytes, history, starts, v, c + 1, next, w, size);
    }
  }

  lemma StartsBounded(bytes: seq<Byte>, history: seq<Payload>, starts: seq<nat>, v: nat, c: nat)
    requires HEADER_SIZE < |bytes| && |starts| == |history| + 1
    requires Readable(bytes, history, starts, v, c) && starts[|history|] == v <= |bytes| - HEADER_SIZE
    ensures c <= |history| && forall p :: c <= p <= |history| ==> starts[p] <= |bytes| - HEADER_SIZE
  {
  }

  lemma SkipsFrame(bytes: seq<Byte>, history: seq<Payload>, starts: seq<nat>, v: nat, c: nat, w: nat)
    requires HEADER_SIZE < |bytes| < 0x1_0000_0000 && |starts| == |history| + 1 && w < |bytes|
    requires Readable(bytes, history, starts, v, c) && c < |history|
    ensures starts[c] <= |bytes| - HEADER_SIZE
    ensures Normalize(|bytes|, SkipTarget(bytes, starts[c], w)) == starts[c + 1]
  {
    NextFrame(bytes, history, starts, v, c);
    assert Ahead(bytes, history, starts, v, c, c);
  }

  // ---- A write, seen by one reader ---------------------------------------------------

  /** The reader is moved to the first frame that fits; there it stays in step with the
      ring unless the write skipped a tail it still has to cross, or filled the ring up
      to it. */
  ghost predicate StaysInStep(capacity: nat, starts: seq<nat>, w: nat, size: nat, r: nat)
    requires |starts| > 0 && HEADER_SIZE < capacity
  {
    && r != Normalize(capacity, Wrap(capacity, w + size))
    && (w == starts[|starts| - 1] || r == w)
  }

  /** The layout a write of `data` leaves to one reader moved to `after`. */
  ghost predicate InStepAfter(bytes: seq<Byte>, after: ReaderSlot, w: nat, history: seq<Payload>, starts: seq<nat>,
                              data: Payload, cursor: nat)
    requires HEADER_SIZE < |bytes| && |starts| == |history| + 1 && w + HEADER_SIZE + |data| <= |bytes|
  {
    var end := Wrap(|bytes|, w + HEADER_SIZE + |data|);
    InStep(bytes[..w] + Frame(data) + bytes[w + HEADER_SIZE + |data|..], after, end, history + [data],
           starts[|history| := w] + [Normalize(|bytes|, end)], cursor)
  }

  /** A reader in step, after a write: its cursor is known, and whether it is in step. */
  lemma WriteInStep(bytes: seq<Byte>, slot: ReaderSlot, writePos: nat,
                    history: seq<Payload>, starts: seq<nat>, cursor: nat, data: Payload, after: ReaderSlot)
    requires HEADER_SIZE < |bytes| < 0x1_0000_0000 && |starts| == |history| + 1 && 0 < |data| <= |bytes| - HEADER_SIZE
    requires slot.active && slot.readPos < |bytes| && starts[|history|] == Normalize(|bytes|, writePos)
    requires InStep(bytes, slot, writePos, history, starts, cursor)
    requires var size := HEADER_SIZE + |data|; after == SkipSlot(bytes, slot, FrameStart(|bytes|, writePos, size), size)
    ensures var size := HEADER_SIZE + |data|; var w := FrameStart(|bytes|, writePos, size);
      var r := Normalize(|bytes|, after.readPos); var c := CursorAfter(|bytes|, starts, w, size, cursor, r);
      && cursor <= c <= |history|
      && (InStepAfter(bytes, after, w, history, starts, data, c) <==> StaysInStep(|bytes|, starts, w, size, r))
  {
    var size := HEADER_SIZE + |data|;
    var w, v := FrameStart(|bytes|, writePos, size), Normalize(|bytes|, writePos);
    var p, r := FirstFit(|bytes|, starts, w, size, cursor), Normalize(|bytes|, after.readPos);
    FrameStartIs(|bytes|, writePos, size);
    SkipAlong(bytes, history, starts, v, cursor, slot.readPos, w, size);
    StartsBounded(bytes, history, starts, v, cursor);
    assert r == Normalize(|bytes|, SkipUntil(bytes, starts[p], w, size));
    hide Readable, SkipUntil, FirstFit, FrameStart, InStepAfter, InStep, Frame;
    if w == v {
      StraightInStep(bytes, history, starts, v, cursor, data, after, p);
    } else {
      WrappedInStep(bytes, history, starts, v, cursor, data, after);
    }
  }

  lemma StraightInStep(bytes: seq<Byte>, history: seq<Payload>, starts: seq<nat>, w: nat, c: nat, data: Payload,
                       after: ReaderSlot, p: nat)
    requires HEADER_SIZE < |bytes| && |starts| == |history| + 1 && 0 < |data|
    requires Readable(bytes, history, starts, w, c) && starts[|history|] == w <= |bytes| - HEADER_SIZE
    requires w + HEADER_SIZE + |data| <= |bytes| && p == FirstFit(|bytes|, starts, w, HEADER_SIZE + |data|, c)
    requires p <= |history| && starts[p] <= |bytes| - HEADER_SIZE
    requires Normalize(|bytes|, after.readPos) ==
      Normalize(|bytes|, SkipUntil(bytes, starts[p], w, HEADER_SIZE + |data|))
    ensures var next := Normalize(|bytes|, Wrap(|bytes|, w + HEADER_SIZE + |data|));
      InStepAfter(bytes, after, w, history, starts, data, p) <==> Normalize(|bytes|, after.readPos) != next
  {
    StraightWrite(bytes, history, starts, w, c, data, p);
    SkipStops(bytes, starts[p], w, HEADER_SIZE + |data|);
    InStepStraight(bytes, after, w, history, starts, data, p);
    hide Readable, SkipUntil, FirstFit, Frame, InStepAfter;
    assert Normalize(|bytes|, starts[p]) == starts[p];
  }

  lemma InStepStraight(bytes: seq<Byte>, after: ReaderSlot, w: nat, history: seq<Payload>, starts: seq<nat>,
                       data: Payload, p: nat)
    requires HEADER_SIZE < |bytes| && |starts| == |history| + 1 && w + HEADER_SIZE + |data| <= |bytes|
    requires starts[|history|] == w && p <= |history|
    ensures var next := Normalize(|bytes|, Wrap(|bytes|, w + HEADER_SIZE + |data|));
      var bytes' := bytes[..w] + Frame(data) + bytes[w + HEADER_SIZE + |data|..];
      InStepAfter(bytes, after, w, history, starts, data, p) <==>
        Readable(bytes', history + [data], starts + [next], next, p) && Normalize(|bytes|, after.readPos) == starts[p]
  {
    hide Readable, Frame;
    assert starts[|history| := w] == starts;
  }

  lemma WrappedInStep(bytes: seq<Byte>, history: seq<Payload>, starts: seq<nat>, v: nat, c: nat, data: Payload,
                      after: ReaderSlot)
    requires HEADER_SIZE < |bytes| && |starts| == |history| + 1 && 0 < |data|
    requires Readable(bytes, history, starts, v, c) && starts[|history|] == v <= |bytes| - HEADER_SIZE
    requires 0 < v && HEADER_SIZE + |data| <= |bytes|
    ensures var r := Normalize(|bytes|, after.readPos);
      var next := Normalize(|bytes|, Wrap(|bytes|, HEADER_SIZE + |data|));
      r == 0 && r != next <==>
        InStepAfter(bytes, after, 0, history, starts, data, CursorAfter(|bytes|, starts, 0, HEADER_SIZE + |data|, c, r))
  {
    hide Readable, Frame, CursorAfter;
    WrappedWrite(bytes, history, starts, v, c, data, 0, Normalize(|bytes|, after.readPos));
  }

  lemma FrameStartIs(capacity: nat, writePos: nat, size: nat)
    requires HEADER_SIZE < size <= capacity
    ensures var w, v := FrameStart(capacity, writePos, size), Normalize(capacity, writePos);
      w + size <= capacity && (w == v || w == 0 < v)
  {
  }

  lemma SkipStops(bytes: seq<Byte>, pos: nat, w: nat, size: nat)
    requires HEADER_SIZE < |bytes| && pos <= |bytes| - HEADER_SIZE && HEADER_SIZE < size && w + size <= |bytes|
    requires Used(|bytes|, pos, w) + size <= |bytes|
    ensures SkipUntil(bytes, pos, w, size) == pos
  {
  }

  /** A write that skips no tail, for a reader moved up to frame p. */
  lemma StraightWrite(bytes: seq<Byte>, history: seq<Payload>, starts: seq<nat>, w: nat, c: nat, data: Payload, p: nat)
    requires HEADER_SIZE < |bytes| && |starts| == |history| + 1 && 0 < |data|
    requires Readable(bytes, history, starts, w, c) && starts[|history|] == w <= |bytes| - HEADER_SIZE
    requires w + HEADER_SIZE + |data| <= |bytes| && p == FirstFit(|bytes|, starts, w, HEADER_SIZE + |data|, c)
    ensures p <= |history| && starts[p] <= |bytes| - HEADER_SIZE
    ensures Used(|bytes|, starts[p], w) + HEADER_SIZE + |data| <= |bytes|
    ensures var next := Normalize(|bytes|, Wrap(|bytes|, w + HEADER_SIZE + |data|));
      starts[p] != next <==>
        Readable(bytes[..w] + Frame(data) + bytes[w + HEADER_SIZE + |data|..], history + [data], starts + [next], next,
          p)
  {
    var next := Normalize(|bytes|, Wrap(|bytes|, w + HEADER_SIZE + |data|));
    StartsBounded(bytes, history, starts, w, c);
    ReadableLater(bytes, history, starts, w, c, p);
    assert (starts + [next])[p] == starts[p];
    if starts[p] != next {
      ReadableAfterWrite(bytes, history, starts, w, p, data);
    }
  }

  lemma ReadableLater(bytes: seq<Byte>, history: seq<Payload>, starts: seq<nat>, w: nat, c: nat, p: nat)
    requires HEADER_SIZE < |bytes| && |starts| == |history| + 1
    requires Readable(bytes, history, starts, w, c) && c <= p <= |history|
    ensures Readable(bytes, history, starts, w, p)
  {
  }

  /** A write that skips the tail at v, for a reader moved to r. */
  lemma WrappedWrite(bytes: seq<Byte>, history: seq<Payload>, starts: seq<nat>, v: nat, c: nat, data: Payload,
                     w: nat, r: nat)
    requires HEADER_SIZE < |bytes| && |starts| == |history| + 1 && 0 < |data|
    requires Readable(bytes, history, starts, v, c) && starts[|history|] == v <= |bytes| - HEADER_SIZE
    requires w == 0 < v && HEADER_SIZE + |data| <= |bytes|
    ensures var size := HEADER_SIZE + |data|; var next := Normalize(|bytes|, Wrap(|bytes|, size));
      var after := bytes[..w] + Frame(data) + bytes[w + size..]; var starts' := starts[|history| := w] + [next];
      var p := CursorAfter(|bytes|, starts, w, size, c, r);
      && p <= |history|
      && (Readable(after, history + [data], starts', next, p) && r == starts'[p] <==> r == w && r != next)
  {
    var size, n := HEADER_SIZE + |data|, |history|;
    var next := Normalize(|bytes|, Wrap(|bytes|, size));
    var after, starts' := bytes[..w] + Frame(data) + bytes[w + size..], starts[n := w] + [next];
    var p := CursorAfter(|bytes|, starts, w, size, c, r);
    if r == w && r != next {
      NewFrameReadable(bytes, history, starts, data, next);
    }
    if p < n {
      assert Ahead(bytes, history, starts, v, n - 1, n - 1);
      assert !Ahead(after, history + [data], starts', next, p, n - 1);
    }
  }

  lemma NewFrameReadable(bytes: seq<Byte>, history: seq<Payload>, starts: seq<nat>, data: Payload, next: nat)
    requires HEADER_SIZE < |bytes| && |starts| == |history| + 1 && 0 < |data| && HEADER_SIZE + |data| <= |bytes|
    requires next == Normalize(|bytes|, Wrap(|bytes|, HEADER_SIZE + |data|)) != 0
    ensures Readable(bytes[..0] + Frame(data) + bytes[HEADER_SIZE + |data|..], history + [data],
                     starts[|history| := 0] + [next], next, |history|)
  {
    var n, size := |history|, HEADER_SIZE + |data|;
    var after, starts' := bytes[..0] + Frame(data) + bytes[size..], starts[n := 0] + [next];
    assert after[0..size] == Frame(data);
    assert FrameAt(after, history + [data], starts', n);
  }

  // ---- A write, seen by all readers --------------------------------------------------------

  /** After any write to a ring in step: the cursors are those CursorsAfter says, and the
      ring is in step exactly if every active reader stays in step. */
  lemma WriteKeepsStep(bytes: seq<Byte>, slots: seq<ReaderSlot>, writePos: nat,
                       history: seq<Payload>, starts: seq<nat>, cursors: seq<nat>, data: Payload,
                         after: seq<ReaderSlot>)
    requires HEADER_SIZE < |bytes| < 0x1_0000_0000 && |starts| == |history| + 1 && |cursors| == |slots|
    requires SlotsOk(|bytes|, slots) && 0 < |data| <= |bytes| - HEADER_SIZE
    requires starts[|history|] == Normalize(|bytes|, writePos)
    requires Skipped(bytes, slots, FrameStart(|bytes|, writePos, HEADER_SIZE + |data|), HEADER_SIZE + |data|, after)
    ensures var size := HEADER_SIZE + |data|; var w := FrameStart(|bytes|, writePos, size);
      var cursors' := CursorsAfter(|bytes|, after, starts, w, size, cursors);
      forall i :: 0 <= i < |slots| && slots[i].active ==>
        InStep(bytes, slots[i], writePos, history, starts, cursors[i]) ==>
        && cursors[i] <= cursors'[i] <= |history|
        && (InStepAfter(bytes, after[i], w, history, starts, data, cursors'[i])
            <==> StaysInStep(|bytes|, starts, w, size, Normalize(|bytes|, after[i].readPos)))
  {
    hide InStep, InStepAfter, SkipSlot, CursorAfter, StaysInStep, Frame;
    var size := HEADER_SIZE + |data|;
    var w := FrameStart(|bytes|, writePos, size);
    var cursors' := CursorsAfter(|bytes|, after, starts, w, size, cursors);
    forall i | 0 <= i < |slots| && slots[i].active && InStep(bytes, slots[i], writePos, history, starts, cursors[i])
      ensures cursors[i] <= cursors'[i] <= |history|
      ensures InStepAfter(bytes, after[i], w, history, starts, data, cursors'[i])
        <==> StaysInStep(|bytes|, starts, w, size, Normalize(|bytes|, after[i].readPos))
    {
      assert after[i] == SkipSlot(bytes, slots[i], w, size);
      SkipActive(bytes, slots[i], w, size);
      WriteInStep(bytes, slots[i], writePos, history, starts, cursors[i], data, after[i]);
    }
  }

  /** A write that has room and skips no tail moves no cursor. */
  lemma FitsCursors(bytes: seq<Byte>, slots: seq<ReaderSlot>, writePos: nat,
                    history: seq<Payload>, starts: seq<nat>, cursors: seq<nat>, size: nat)
    requires HEADER_SIZE < |bytes| && |starts| == |history| + 1 && |cursors| == |slots| && HEADER_SIZE < size
    requires Implements(bytes, slots, writePos, history, starts, cursors)
    requires FrameStart(|bytes|, writePos, size) == starts[|history|]
    requires Fits(|bytes|, slots, FrameStart(|bytes|, writePos, size), size)
    ensures CursorsAfter(|bytes|, slots, starts, FrameStart(|bytes|, writePos, size), size, cursors) == cursors
  {
    forall i | 0 <= i < |slots| && slots[i].active
      ensures FitsAt(|bytes|, starts, FrameStart(|bytes|, writePos, size), size, cursors[i])
    {
      assert UsedOf(|bytes|, slots[i], FrameStart(|bytes|, writePos, size)) + size <= |bytes|;
    }
  }

  /** A clean write moves no cursor. */
  lemma CleanCursors(bytes: seq<Byte>, slots: seq<ReaderSlot>, writePos: nat,
                     history: seq<Payload>, starts: seq<nat>, cursors: seq<nat>, size: nat)
    requires HEADER_SIZE < |bytes| && |starts| == |history| + 1 && |cursors| == |slots| && HEADER_SIZE < size
    requires Implements(bytes, slots, writePos, history, starts, cursors) && CleanFor(|bytes|, slots, writePos, size)
    ensures CursorsAfter(|bytes|, slots, starts, FrameStart(|bytes|, writePos, size), size, cursors) == cursors
  {
  }

  lemma SkipActive(bytes: seq<Byte>, slot: ReaderSlot, w: nat, size: nat)
    requires HEADER_SIZE < |bytes| && slot.readPos < |bytes| && HEADER_SIZE < size && w + size <= |bytes|
    ensures SkipSlot(bytes, slot, w, size).active == slot.active
  {
  }

  // ---- What is left to read after a write that skipped a tail -----------------------------

  /** Reading on from `pos` hands out exactly `msgs` and leaves the reader at `end`. */
  ghost predicate Gets(bytes: seq<Byte>, pos: nat, writePos: nat, msgs: seq<Payload>, end: nat)
    requires HEADER_SIZE < |bytes|
    decreases |msgs|
  {
    if msgs == [] then Normalize(|bytes|, pos) == Normalize(|bytes|, end)
    else
      var r := Scan(bytes, pos, writePos);
      r.msg == Some(msgs[0]) && Gets(bytes, r.pos, writePos, msgs[1..], end)
  }

  /** The first frame from c on that does not lie wholly past the first `size` octets. */
  function Overwritten(starts: seq<nat>, size: nat, c: nat): (e: nat)
    ensures c <= e && (c < |starts| ==> e < |starts| && (e == |starts| - 1 || starts[e] <= size))
    ensures forall q :: c <= q < e ==> q < |starts| && starts[q] > size
    decreases |starts| - c
  {
    if c + 1 >= |starts| || starts[c] <= size then c else Overwritten(starts, size, c + 1)
  }

  lemma {:induction false} StillThere(bytes: seq<Byte>, history: seq<Payload>, starts: seq<nat>, v: nat, c: nat,
                                      pos: nat, data: Payload, e: nat)
    requires HEADER_SIZE < |bytes| < 0x1_0000_0000 && |starts| == |history| + 1
    requires Readable(bytes, history, starts, v, c) && c <= e <= |history|
    requires 0 < |data| && HEADER_SIZE + |data| <= |bytes| && Normalize(|bytes|, pos) == starts[c]
    requires forall q :: c <= q < e ==> starts[q] > HEADER_SIZE + |data|
    requires starts[e] <= |bytes| - HEADER_SIZE
    ensures var size := HEADER_SIZE + |data|;
      Gets(bytes[..0] + Frame(data) + bytes[size..], pos, Wrap(|bytes|, size), history[c..e], starts[e])
    decreases e - c
  {
    hide Readable, Frame, Scan;
    if c < e {
      OldFrameRead(bytes, history, starts, v, c, pos, data);
      ReadableAfterRead(bytes, history, starts, v, c);
      var size := HEADER_SIZE + |data|;
      var after := bytes[..0] + Frame(data) + bytes[size..];
      StillThere(bytes, history, starts, v, c + 1, Scan(after, pos, Wrap(|bytes|, size)).pos, data, e);
      assert history[c..e][1..] == history[c + 1..e];
    }
  }

  /** A frame past the octets just written reads as before. */
  lemma OldFrameRead(bytes: seq<Byte>, history: seq<Payload>, starts: seq<nat>, v: nat, c: nat, pos: nat, data: Payload)
    requires HEADER_SIZE < |bytes| < 0x1_0000_0000 && |starts| == |history| + 1
    requires Readable(bytes, history, starts, v, c) && c < |history|
    requires 0 < |data| && HEADER_SIZE + |data| <= |bytes| && Normalize(|bytes|, pos) == starts[c]
    requires starts[c] > HEADER_SIZE + |data|
    ensures var size := HEADER_SIZE + |data|;
      var r := Scan(bytes[..0] + Frame(data) + bytes[size..], pos, Wrap(|bytes|, size));
      r.msg == Some(history[c]) && Normalize(|bytes|, r.pos) == starts[c + 1]
  {
    NextFrame(bytes, history, starts, v, c);
    var size, at, end := HEADER_SIZE + |data|, starts[c], starts[c] + HEADER_SIZE + |history[c]|;
    var after := bytes[..0] + Frame(data) + bytes[size..];
    assert Ahead(bytes, history, starts, v, c, c);
    SuffixKept(bytes, data, at, at + HEADER_SIZE);
    SuffixKept(bytes, data, at + HEADER_SIZE, end);
    hide Frame, Readable, Le32;
  }

  lemma SuffixKept(bytes: seq<Byte>, data: Payload, from: nat, to: nat)
    requires HEADER_SIZE + |data| <= from <= to <= |bytes|
    ensures (bytes[..0] + Frame(data) + bytes[HEADER_SIZE + |data|..])[from..to] == bytes[from..to]
  {
    var after := bytes[..0] + Frame(data) + bytes[HEADER_SIZE + |data|..];
    assert forall i :: from <= i < to ==> after[i] == bytes[HEADER_SIZE + |data|..][i - HEADER_SIZE - |data|];
  }

  /** What a reader at the skipped tail `w` reads next: nothing, if the stale length
      there is implausible or the new frame ends where it stands; a complete old message
      again; the new one, if the stale length points past the end. */
  ghost function AfterTailSkip(bytes: seq<Byte>, w: nat, data: Payload): Option<Payload>
    requires HEADER_SIZE < |bytes| && w <= |bytes| - HEADER_SIZE
  {
    if HEADER_SIZE + |data| == w || !Plausible(bytes, w) then None
    else if Complete(bytes, w) then Some(bytes[w + HEADER_SIZE..w + HEADER_SIZE + LengthAt(bytes, w)])
    else Some(data)
  }

  lemma TailScan(bytes: seq<Byte>, w: nat, size: nat, data: Payload)
    requires HEADER_SIZE < |bytes| < 0x1_0000_0000 && w <= |bytes| - HEADER_SIZE && 0 < |data|
    requires size == HEADER_SIZE + |data| <= w && w + size > |bytes|
    ensures var after := Frame(data) + bytes[size..]; var r := Scan(after, w, Wrap(|bytes|, size));
      && after == bytes[..0] + Frame(data) + bytes[size..]
      && r.msg == AfterTailSkip(bytes, w, data)
  {
    TailOctets(bytes, w, size, data);
    assert Wrap(|bytes|, size) == size && Normalize(|bytes|, size) == size && Normalize(|bytes|, w) == w;
    hide Frame, LengthAt, Wrap, Normalize;
    var after := Frame(data) + bytes[size..];
    if Complete(bytes, w) {
      var n := LengthAt(bytes, w);
      assert after[w + HEADER_SIZE..w + HEADER_SIZE + n] == after[w..][HEADER_SIZE..HEADER_SIZE + n];
      assert bytes[w + HEADER_SIZE..w + HEADER_SIZE + n] == bytes[w..][HEADER_SIZE..HEADER_SIZE + n];
    }
  }

  lemma TailOctets(bytes: seq<Byte>, w: nat, size: nat, data: Payload)
    requires w + HEADER_SIZE <= |bytes| < 0x1_0000_0000 && 0 < |data| && size == HEADER_SIZE + |data| <= w
    ensures var after := Frame(data) + bytes[size..];
      && |after| == |bytes| && after == bytes[..0] + Frame(data) + bytes[size..]
      && LengthAt(after, w) == LengthAt(bytes, w)
      && LengthAt(after, 0) == |data| && after[HEADER_SIZE..size] == data
      && after[w..] == bytes[w..]
  {
    var after := Frame(data) + bytes[size..];
    assert after[w..w + HEADER_SIZE] == bytes[w..w + HEADER_SIZE];
    assert after[0..HEADER_SIZE] == ToLe32(|data|);
    Le32RoundTrip(|data|);
  }

  /** The message m lies complete at `at`. */
  ghost predicate Holds(bytes: seq<Byte>, at: nat, m: Payload) {
    Complete(bytes, at) && LengthAt(bytes, at) == |m| && bytes[at + HEADER_SIZE..at + HEADER_SIZE + |m|] == m
  }

  lemma FreshFrame(bytes: seq<Byte>, w: nat, data: Payload)
    requires HEADER_SIZE < |bytes| < 0x1_0000_0000 && 0 < |data| && w + HEADER_SIZE + |data| <= |bytes|
    ensures Holds(bytes[..w] + Frame(data) + bytes[w + HEADER_SIZE + |data|..], w, data)
  {
    var size := HEADER_SIZE + |data|;
    var after := bytes[..w] + Frame(data) + bytes[w + size..];
    assert after[w..w + HEADER_SIZE] == ToLe32(|data|);
    Le32RoundTrip(|data|);
  }

  /** A write that skips the tail, for a reader in step that is not left at 0: it still
      gets the frames from the first that fits up to the first overwritten one.  After
      those it stands at the tail; or at 0, where it finds the new message and thinks
      that is all; or at the writer, and thinks there is nothing.  What lies between is
      lost to it, though no drop is counted for it. */
  lemma WrappedGets(bytes: seq<Byte>, slot: ReaderSlot, writePos: nat,
                    history: seq<Payload>, starts: seq<nat>, cursor: nat, data: Payload, after: ReaderSlot)
    requires HEADER_SIZE < |bytes| < 0x1_0000_0000 && |starts| == |history| + 1 && 0 < |data| <= |bytes| - HEADER_SIZE
    requires slot.active && slot.readPos < |bytes| && starts[|history|] == Normalize(|bytes|, writePos)
    requires InStep(bytes, slot, writePos, history, starts, cursor)
    requires var size := HEADER_SIZE + |data|;
      FrameStart(|bytes|, writePos, size) != starts[|history|] && after == SkipSlot(bytes, slot, 0, size)
    requires Normalize(|bytes|, after.readPos) != 0
    ensures var size, n := HEADER_SIZE + |data|, |history|;
      var bytes', end := bytes[..0] + Frame(data) + bytes[size..], Wrap(|bytes|, size);
      var p := FirstFit(|bytes|, starts, 0, size, cursor); var e := Overwritten(starts, size, p);
      p <= n && (p < n || FitsAt(|bytes|, starts, 0, size, p) ==>
        && p <= e <= n && starts[e] <= |bytes| - HEADER_SIZE
        && Gets(bytes', after.readPos, end, history[p..e], starts[e])
        && Scan(bytes', starts[e], end).msg ==
             if e == n then AfterTailSkip(bytes, starts[n], data)
             else if starts[e] == 0 != Normalize(|bytes|, end) then Some(data) else None)
  {
    var size, n, v := HEADER_SIZE + |data|, |history|, starts[|history|];
    var p := FirstFit(|bytes|, starts, 0, size, cursor);
    var e := Overwritten(starts, size, p);
    FrameStartIs(|bytes|, writePos, size);
    SkipAlong(bytes, history, starts, v, cursor, slot.readPos, 0, size);
    StartsBounded(bytes, history, starts, v, cursor);
    hide Readable, Frame, Scan, SkipUntil, Gets, AfterTailSkip;
    if p < n || FitsAt(|bytes|, starts, 0, size, p) {
      SkipStops(bytes, starts[p], 0, size);
      ReadableLater(bytes, history, starts, v, cursor, p);
      StillThere(bytes, history, starts, v, p, after.readPos, data, e);
      OverwrittenAt(bytes, history, starts, v, p, size);
      if e == n {
        TailScan(bytes, v, size, data);
      } else {
        WrapScan(bytes, data, starts[e]);
      }
    }
  }

  /** The first overwritten frame starts at 0, or the reader stands right behind the
      new frame; or no unread frame is overwritten, and the tail comes next. */
  lemma OverwrittenAt(bytes: seq<Byte>, history: seq<Payload>, starts: seq<nat>, v: nat, p: nat, size: nat)
    requires HEADER_SIZE < |bytes| && |starts| == |history| + 1 && HEADER_SIZE < size <= |bytes|
    requires Readable(bytes, history, starts, v, p) && starts[|history|] == v <= |bytes| - HEADER_SIZE && 0 < v
    requires FitsAt(|bytes|, starts, 0, size, p) && 0 < starts[p]
    ensures var e := Overwritten(starts, size, p);
      p <= e <= |history| && (if e == |history| then size <= v else starts[e] == 0 || starts[e] == size)
  {
    var e := Overwritten(starts, size, p);
    if p < e {
      assert Ahead(bytes, history, starts, v, p, e - 1);
    }
  }

  /** A read right after a write of `data` at 0, from 0 or from right behind the frame. */
  lemma WrapScan(bytes: seq<Byte>, data: Payload, pos: nat)
    requires HEADER_SIZE < |bytes| < 0x1_0000_0000 && 0 < |data| && HEADER_SIZE + |data| <= |bytes|
    requires pos <= |bytes| - HEADER_SIZE && (pos == 0 || pos == HEADER_SIZE + |data|)
    ensures var size := HEADER_SIZE + |data|; var end := Wrap(|bytes|, size);
      Scan(bytes[..0] + Frame(data) + bytes[size..], pos, end).msg ==
        if pos == 0 != Normalize(|bytes|, end) then Some(data) else None
  {
    FreshFrame(bytes, 0, data);
    hide Frame, Le32;
  }
}
