/** How the byte ring of shared_memory/shared_ring_buffer.hpp lays length-prefixed
    messages out in its buffer, and what writes, drops and reads do to that layout. */
module RingLayout {
  import opened Wrappers
  import opened Bytes
  import opened BroadcastLog

  const HEADER_SIZE: nat := 4

  datatype ReaderSlot = ReaderSlot(active: bool, readPos: nat, totalReads: nat)

  type Payload = seq<Byte>

  /** A message as it lies in the buffer. */
  function Frame(data: Payload): (f: seq<Byte>)
    ensures |f| == HEADER_SIZE + |data|
  {
    ToLe32(|data|) + data
  }

  lemma FramePlaced(bytes: seq<Byte>, w: nat, data: Payload, headed: seq<Byte>)
    requires w + HEADER_SIZE + |data| <= |bytes|
    requires headed == bytes[..w] + ToLe32(|data|) + bytes[w + HEADER_SIZE..]
    ensures headed[..w + HEADER_SIZE] + data + headed[w + HEADER_SIZE + |data|..]
         == bytes[..w] + Frame(data) + bytes[w + HEADER_SIZE + |data|..]
    ensures data[..|data|] == data
  {
  }

  // ---- Positions ----------------------------------------------------------

  function Normalize(capacity: nat, pos: nat): (p: nat)
    requires capacity > HEADER_SIZE
    ensures p <= capacity - HEADER_SIZE
    ensures p == pos || p == 0
  {
    if pos > capacity - HEADER_SIZE then 0 else pos
  }

  function Wrap(capacity: nat, pos: nat): nat {
    if pos >= capacity then 0 else pos
  }

  /** Octets from a read position up to a write position, going forward. */
  function Used(capacity: nat, readPos: nat, writePos: nat): (n: nat)
    requires readPos < capacity
    ensures writePos < capacity ==> n < capacity
    ensures n == 0 <==> readPos == writePos
  {
    if writePos >= readPos then writePos - readPos else capacity - (readPos - writePos)
  }

  /** Where write() puts a frame of `size` octets. */
  function FrameStart(capacity: nat, writePos: nat, size: nat): nat
    requires capacity > HEADER_SIZE
  {
    var p := Normalize(capacity, writePos);
    if p + size > capacity then 0 else p
  }

  /** The octets [from, to) lie between a reader at `r` and a writer at `w`. */
  predicate Inside(capacity: nat, r: nat, w: nat, from: nat, to: nat) {
    if r <= w then r <= from && to <= w else (r <= from && to <= capacity) || to <= w
  }

  ghost function Sum(u: seq<nat>): nat {
    if u == [] then 0 else u[0] + Sum(u[1..])
  }

  lemma {:induction false} SumShrinks(u: seq<nat>, v: seq<nat>, k: nat)
    requires |u| == |v| && k < |u| && v[k] < u[k]
    requires forall i :: 0 <= i < |u| ==> v[i] <= u[i]
    ensures Sum(v) < Sum(u)
  {
    if k > 0 {
      SumShrinks(u[1..], v[1..], k - 1);
    } else {
      SumNoLarger(u[1..], v[1..]);
    }
  }

  lemma {:induction false} SumNoLarger(u: seq<nat>, v: seq<nat>)
    requires |u| == |v|
    requires forall i :: 0 <= i < |u| ==> v[i] <= u[i]
    ensures Sum(v) <= Sum(u)
  {
    if u != [] {
      SumNoLarger(u[1..], v[1..]);
    }
  }

  // ---- Dropping -------------------------------------------------------------

  predicate SlotsOk(capacity: nat, slots: seq<ReaderSlot>) {
    forall i :: 0 <= i < |slots| ==> slots[i].readPos < capacity
  }

  predicate IsAt(capacity: nat, slot: ReaderSlot, at: nat)
    requires capacity > HEADER_SIZE
  {
    slot.active && Normalize(capacity, slot.readPos) == at
  }

  /** Unread octets of one slot. */
  function UsedOf(capacity: nat, slot: ReaderSlot, w: nat): nat
    requires capacity > HEADER_SIZE
  {
    if slot.active then Used(capacity, Normalize(capacity, slot.readPos), w) else 0
  }

  /** No active reader is so far behind that `size` octets at w would hit it. */
  ghost predicate Fits(capacity: nat, slots: seq<ReaderSlot>, w: nat, size: nat)
    requires capacity > HEADER_SIZE
  {
    forall i :: 0 <= i < |slots| ==> UsedOf(capacity, slots[i], w) + size <= capacity
  }

  ghost function Lags(capacity: nat, slots: seq<ReaderSlot>, w: nat): seq<nat>
    requires capacity > HEADER_SIZE
  {
    seq(|slots|, i requires 0 <= i < |slots| => UsedOf(capacity, slots[i], w))
  }

  /** Where dropping the message at `at` leaves a reader: a corrupt length
      prefix sends it straight to the writer. */
  ghost function SkipTarget(bytes: seq<Byte>, at: nat, w: nat): (p: nat)
    requires HEADER_SIZE < |bytes| && at <= |bytes| - HEADER_SIZE && w < |bytes|
    ensures p < |bytes|
  {
    var len := Le32(bytes[at..at + HEADER_SIZE]);
    if len == 0 || len > |bytes| - HEADER_SIZE then w else Wrap(|bytes|, at + HEADER_SIZE + len)
  }

  /** One drop: all readers at the oldest position move together. */
  ghost predicate Advanced(bytes: seq<Byte>, slots: seq<ReaderSlot>, at: nat, w: nat, after: seq<ReaderSlot>)
    requires HEADER_SIZE < |bytes| && at <= |bytes| - HEADER_SIZE && w < |bytes|
  {
    && |after| == |slots|
    && forall i :: 0 <= i < |slots| ==>
         after[i] == if IsAt(|bytes|, slots[i], at) then slots[i].(readPos := SkipTarget(bytes, at, w)) else slots[i]
  }

  /** Whatever the bytes are, dropping on behalf of a write that fits before the
      end of the buffer brings the dropped reader strictly closer to the writer. */
  lemma SkipShrinks(bytes: seq<Byte>, at: nat, w: nat, size: nat)
    requires HEADER_SIZE < |bytes| && at <= |bytes| - HEADER_SIZE
    requires HEADER_SIZE < size && w + size <= |bytes| && Used(|bytes|, at, w) + size > |bytes|
    ensures Used(|bytes|, Normalize(|bytes|, SkipTarget(bytes, at, w)), w) < Used(|bytes|, at, w)
  {
  }

  /** A reader's position once `size` octets at `w` are free for it. */
  ghost function SkipUntil(bytes: seq<Byte>, pos: nat, w: nat, size: nat): (p: nat)
    requires HEADER_SIZE < |bytes| && pos < |bytes|
    requires HEADER_SIZE < size && w + size <= |bytes|
    ensures p < |bytes|
    ensures Used(|bytes|, Normalize(|bytes|, p), w) + size <= |bytes|
    decreases Used(|bytes|, Normalize(|bytes|, pos), w)
  {
    var at := Normalize(|bytes|, pos);
    if Used(|bytes|, at, w) + size <= |bytes| then pos
    else
      SkipShrinks(bytes, at, w, size);
      SkipUntil(bytes, SkipTarget(bytes, at, w), w, size)
  }

  /** Dropping, seen from one slot: an active reader skips for itself. */
  ghost function SkipSlot(bytes: seq<Byte>, slot: ReaderSlot, w: nat, size: nat): (r: ReaderSlot)
    requires HEADER_SIZE < |bytes| && slot.readPos < |bytes|
    requires HEADER_SIZE < size && w + size <= |bytes|
    ensures UsedOf(|bytes|, r, w) + size <= |bytes|
    ensures UsedOf(|bytes|, slot, w) + size <= |bytes| ==> r == slot
  {
    if slot.active then slot.(readPos := SkipUntil(bytes, slot.readPos, w, size)) else slot
  }

  ghost predicate Skipped(bytes: seq<Byte>, slots: seq<ReaderSlot>, w: nat, size: nat, after: seq<ReaderSlot>)
    requires HEADER_SIZE < |bytes| && SlotsOk(|bytes|, slots)
    requires HEADER_SIZE < size && w + size <= |bytes|
  {
    |after| == |slots| && forall i :: 0 <= i < |slots| ==> after[i] == SkipSlot(bytes, slots[i], w, size)
  }

  /** Both slot lists end up in the same place. */
  ghost predicate SkipAlike(bytes: seq<Byte>, slots: seq<ReaderSlot>, w: nat, size: nat, other: seq<ReaderSlot>)
    requires HEADER_SIZE < |bytes| && SlotsOk(|bytes|, slots) && SlotsOk(|bytes|, other)
    requires HEADER_SIZE < size && w + size <= |bytes|
  {
    && |other| == |slots|
    && forall i :: 0 <= i < |slots| ==> SkipSlot(bytes, other[i], w, size) == SkipSlot(bytes, slots[i], w, size)
  }

  lemma AdvanceShrinks(bytes: seq<Byte>, slots: seq<ReaderSlot>, at: nat, w: nat, size: nat, after: seq<ReaderSlot>)
    requires HEADER_SIZE < |bytes| && at <= |bytes| - HEADER_SIZE
    requires HEADER_SIZE < size && w + size <= |bytes| && Used(|bytes|, at, w) + size > |bytes|
    requires Advanced(bytes, slots, at, w, after)
    requires exists i :: 0 <= i < |slots| && IsAt(|bytes|, slots[i], at)
    ensures Sum(Lags(|bytes|, after, w)) < Sum(Lags(|bytes|, slots, w))
  {
    SkipShrinks(bytes, at, w, size);
    var i :| 0 <= i < |slots| && IsAt(|bytes|, slots[i], at);
    SumShrinks(Lags(|bytes|, slots, w), Lags(|bytes|, after, w), i);
  }

  lemma AdvanceSkips(bytes: seq<Byte>, slots: seq<ReaderSlot>, at: nat, w: nat, size: nat, after: seq<ReaderSlot>,
                     start: seq<ReaderSlot>)
    requires HEADER_SIZE < |bytes| && at <= |bytes| - HEADER_SIZE && SlotsOk(|bytes|, slots) && SlotsOk(|bytes|, start)
    requires HEADER_SIZE < size && w + size <= |bytes| && Used(|bytes|, at, w) + size > |bytes|
    requires Advanced(bytes, slots, at, w, after) && SkipAlike(bytes, start, w, size, slots)
    ensures SlotsOk(|bytes|, after) && SkipAlike(bytes, start, w, size, after)
  {
    forall i | 0 <= i < |slots|
      ensures after[i].readPos < |bytes| && SkipSlot(bytes, after[i], w, size) == SkipSlot(bytes, start[i], w, size)
    {
      assert SkipSlot(bytes, slots[i], w, size) == SkipSlot(bytes, start[i], w, size);
    }
  }

  lemma SkippedDone(bytes: seq<Byte>, start: seq<ReaderSlot>, w: nat, size: nat, slots: seq<ReaderSlot>)
    requires HEADER_SIZE < |bytes| && SlotsOk(|bytes|, start) && SlotsOk(|bytes|, slots)
    requires HEADER_SIZE < size && w + size <= |bytes|
    requires SkipAlike(bytes, start, w, size, slots) && Fits(|bytes|, slots, w, size)
    ensures Skipped(bytes, start, w, size, slots)
  {
    forall i | 0 <= i < |slots|
      ensures slots[i] == SkipSlot(bytes, start[i], w, size)
    {
      assert SkipSlot(bytes, slots[i], w, size) == SkipSlot(bytes, start[i], w, size);
      assert UsedOf(|bytes|, slots[i], w) + size <= |bytes|;
    }
  }

  // ---- A clean write keeps unread frames readable ---------------------------

  /** With r a reader, [a, b) an unread frame and w the writer, a write of `size`
      octets that is clean for r misses the frame and leaves it inside. */
  lemma InsideAfterWrite(capacity: nat, r: nat, w: nat, size: nat, a: nat, b: nat)
    requires HEADER_SIZE < capacity && HEADER_SIZE < size && w + size <= capacity
    requires r <= capacity - HEADER_SIZE && w <= capacity - HEADER_SIZE
    requires Used(capacity, r, w) + size <= capacity
    requires r != Normalize(capacity, Wrap(capacity, w + size))
    requires a < b <= capacity && Inside(capacity, r, w, a, b)
    ensures b <= w || w + size <= a
    ensures Inside(capacity, r, Normalize(capacity, Wrap(capacity, w + size)), a, b)
  {
  }

  /** What is clean for a reader is clean for a reader at any later unread frame. */
  lemma CleanLater(capacity: nat, r: nat, w: nat, size: nat, a: nat, b: nat)
    requires HEADER_SIZE < capacity && HEADER_SIZE < size && w + size <= capacity
    requires r <= capacity - HEADER_SIZE && w <= capacity - HEADER_SIZE
    requires Used(capacity, r, w) + size <= capacity
    requires r != Normalize(capacity, Wrap(capacity, w + size))
    requires a < b <= capacity && Inside(capacity, r, w, a, b)
    ensures Used(capacity, a, w) + size <= capacity
    ensures a != Normalize(capacity, Wrap(capacity, w + size))
  {
  }

  // ---- The layout of the history in the buffer ------------------------------

  /** Frame j lies intact in the buffer and frame j+1 follows it. */
  ghost predicate FrameAt(bytes: seq<Byte>, history: seq<Payload>, starts: seq<nat>, j: nat)
    requires HEADER_SIZE < |bytes| && j < |history| && |starts| == |history| + 1
  {
    var end := starts[j] + HEADER_SIZE + |history[j]|;
    && 0 < |history[j]| <= |bytes| - HEADER_SIZE
    && end <= |bytes|
    && bytes[starts[j]..end] == Frame(history[j])
    && starts[j + 1] == Normalize(|bytes|, Wrap(|bytes|, end))
  }

  /** Frame j is unread for a reader standing before frame p. */
  ghost predicate Ahead(bytes: seq<Byte>, history: seq<Payload>, starts: seq<nat>, w: nat, p: nat, j: nat)
    requires HEADER_SIZE < |bytes| && p <= j < |history| && |starts| == |history| + 1
  {
    && FrameAt(bytes, history, starts, j)
    && Inside(|bytes|, starts[p], w, starts[j], starts[j] + HEADER_SIZE + |history[j]|)
  }

  /** A reader standing before frame c can read every frame from there on: at no
      point does it look caught up too early, or lose a frame to the writer. */
  ghost predicate Readable(bytes: seq<Byte>, history: seq<Payload>, starts: seq<nat>, w: nat, c: nat)
    requires HEADER_SIZE < |bytes| && |starts| == |history| + 1
  {
    && c <= |history|
    && (forall p :: c <= p < |history| ==> starts[p] != w && starts[p] <= |bytes| - HEADER_SIZE)
    && forall p, j :: c <= p <= j < |history| ==> Ahead(bytes, history, starts, w, p, j)
  }

  /** A reader stands before the frame its cursor counts and can read on. */
  ghost predicate InStep(bytes: seq<Byte>, slot: ReaderSlot, writePos: nat,
                         history: seq<Payload>, starts: seq<nat>, cursor: nat)
    requires HEADER_SIZE < |bytes| && |starts| == |history| + 1
  {
    && Readable(bytes, history, starts, Normalize(|bytes|, writePos), cursor)
    && Normalize(|bytes|, slot.readPos) == starts[cursor]
  }

  /** The whole ring: the writer is where the next frame goes, and every active
      reader is in step. */
  ghost predicate Implements(bytes: seq<Byte>, slots: seq<ReaderSlot>, writePos: nat,
                             history: seq<Payload>, starts: seq<nat>, cursors: seq<nat>)
    requires HEADER_SIZE < |bytes| && |starts| == |history| + 1 && |cursors| == |slots|
  {
    && starts[|history|] == Normalize(|bytes|, writePos)
    && forall i :: 0 <= i < |slots| && slots[i].active ==>
         InStep(bytes, slots[i], writePos, history, starts, cursors[i])
  }

  /** Writing `size` octets skips no tail, drops nothing, and leaves no active
      reader looking as if it had caught up. */
  ghost predicate CleanFor(capacity: nat, slots: seq<ReaderSlot>, writePos: nat, size: nat)
    requires HEADER_SIZE < capacity
  {
    var w := Normalize(capacity, writePos);
    forall i :: 0 <= i < |slots| && slots[i].active ==>
      var r := Normalize(capacity, slots[i].readPos);
      && w + size <= capacity
      && Used(capacity, r, w) + size <= capacity
      && r != Normalize(capacity, Wrap(capacity, w + size))
  }

  ghost function SlotOf(slot: ReaderSlot, cursor: nat): Slot {
    Slot(if slot.active then Some(cursor) else None, slot.totalReads)
  }

  ghost function LogOf(history: seq<Payload>, slots: seq<ReaderSlot>, cursors: seq<nat>): (log: Log<Payload>)
    requires |cursors| == |slots|
    ensures |log.slots| == |slots|
  {
    Log(history, seq(|slots|, i requires 0 <= i < |slots| => SlotOf(slots[i], cursors[i])))
  }

  lemma ImplementsAfterWrite(bytes: seq<Byte>, slots: seq<ReaderSlot>, writePos: nat,
                             history: seq<Payload>, starts: seq<nat>, cursors: seq<nat>, data: Payload)
    requires HEADER_SIZE < |bytes| && |starts| == |history| + 1 && |cursors| == |slots|
    requires SlotsOk(|bytes|, slots) && 0 < |data| <= |bytes| - HEADER_SIZE
    requires Implements(bytes, slots, writePos, history, starts, cursors)
    requires CleanFor(|bytes|, slots, writePos, HEADER_SIZE + |data|)
    ensures var size := HEADER_SIZE + |data|; var w := FrameStart(|bytes|, writePos, size);
      Implements(bytes[..w] + Frame(data) + bytes[w + size..], slots, Wrap(|bytes|, w + size), history + [data],
                 starts[|history| := w] + [Normalize(|bytes|, Wrap(|bytes|, w + size))], cursors)
  {
    var size := HEADER_SIZE + |data|;
    var w := FrameStart(|bytes|, writePos, size);
    var after := bytes[..w] + Frame(data) + bytes[w + size..];
    forall i | 0 <= i < |slots| && slots[i].active
      ensures w == starts[|history|]
      ensures var next := Normalize(|bytes|, Wrap(|bytes|, w + size));
        Readable(after, history + [data], starts + [next], next, cursors[i])
    {
      ReadableAfterWrite(bytes, history, starts, w, cursors[i], data);
    }
    if w == starts[|history|] {
      assert starts[|history| := w] == starts;
    }
  }

  lemma CleanFits(bytes: seq<Byte>, slots: seq<ReaderSlot>, writePos: nat, size: nat)
    requires HEADER_SIZE < |bytes| && SlotsOk(|bytes|, slots) && writePos < |bytes|
    requires HEADER_SIZE < size <= |bytes| && CleanFor(|bytes|, slots, writePos, size)
    ensures Fits(|bytes|, slots, FrameStart(|bytes|, writePos, size), size)
  {
  }

  lemma FitsSkipsNothing(bytes: seq<Byte>, slots: seq<ReaderSlot>, w: nat, size: nat, after: seq<ReaderSlot>)
    requires HEADER_SIZE < |bytes| && SlotsOk(|bytes|, slots)
    requires HEADER_SIZE < size && w + size <= |bytes|
    requires Fits(|bytes|, slots, w, size) && Skipped(bytes, slots, w, size, after)
    ensures after == slots
  {
    assert forall i :: 0 <= i < |slots| ==> UsedOf(|bytes|, slots[i], w) + size <= |bytes|;
  }

  /** What write() does when it is clean, as write() computes it. */
  lemma CleanWrite(bytes: seq<Byte>, slots: seq<ReaderSlot>, writePos: nat,
                   history: seq<Payload>, starts: seq<nat>, cursors: seq<nat>, data: Payload, after: seq<ReaderSlot>)
    requires HEADER_SIZE < |bytes| && |starts| == |history| + 1 && |cursors| == |slots| && writePos < |bytes|
    requires SlotsOk(|bytes|, slots) && 0 < |data| <= |bytes| - HEADER_SIZE
    requires Skipped(bytes, slots, FrameStart(|bytes|, writePos, HEADER_SIZE + |data|), HEADER_SIZE + |data|, after)
    ensures var size := HEADER_SIZE + |data|; var w := FrameStart(|bytes|, writePos, size);
      CleanFor(|bytes|, slots, writePos, size) ==>
        && after == slots
        && Fits(|bytes|, slots, w, size)
        && (Implements(bytes, slots, writePos, history, starts, cursors) ==>
             Implements(bytes[..w] + Frame(data) + bytes[w + size..], slots, Wrap(|bytes|, w + size), history + [data],
                        starts[|history| := w] + [Normalize(|bytes|, Wrap(|bytes|, w + size))], cursors))
    ensures var size := HEADER_SIZE + |data|; var w := FrameStart(|bytes|, writePos, size);
      Implements(bytes, slots, writePos, history, starts, cursors) && Fits(|bytes|, slots, w, size) &&
      Implements(bytes[..w] + Frame(data) + bytes[w + size..], after, Wrap(|bytes|, w + size), history + [data],
                 starts[|history| := w] + [Normalize(|bytes|, Wrap(|bytes|, w + size))], cursors) ==>
        CleanFor(|bytes|, slots, writePos, size)
  {
    var size := HEADER_SIZE + |data|;
    hide CleanFor, Implements, Frame;
    ghost var w := FrameStart(|bytes|, writePos, size);
    ghost var bytes' := bytes[..w] + Frame(data) + bytes[w + size..];
    if Implements(bytes, slots, writePos, history, starts, cursors) && Fits(|bytes|, slots, w, size) &&
       Implements(bytes', after, Wrap(|bytes|, w + size), history + [data],
                  starts[|history| := w] + [Normalize(|bytes|, Wrap(|bytes|, w + size))], cursors) {
      FitsSkipsNothing(bytes, slots, w, size, after);
      OnlyClean(bytes, slots, writePos, history, starts, cursors, data, bytes');
    }
    if CleanFor(|bytes|, slots, writePos, size) {
      CleanFits(bytes, slots, writePos, size);
      FitsSkipsNothing(bytes, slots, FrameStart(|bytes|, writePos, size), size, after);
      if Implements(bytes, slots, writePos, history, starts, cursors) {
        ImplementsAfterWrite(bytes, slots, writePos, history, starts, cursors, data);
      }
    }
  }

  /** A write that drops nothing and keeps the layout was clean. */
  lemma OnlyClean(bytes: seq<Byte>, slots: seq<ReaderSlot>, writePos: nat,
                  history: seq<Payload>, starts: seq<nat>, cursors: seq<nat>, data: Payload, bytes': seq<Byte>)
    requires HEADER_SIZE < |bytes| && |starts| == |history| + 1 && |cursors| == |slots| && |bytes'| == |bytes|
    requires SlotsOk(|bytes|, slots) && 0 < |data| <= |bytes| - HEADER_SIZE
    requires Implements(bytes, slots, writePos, history, starts, cursors)
    requires Fits(|bytes|, slots, FrameStart(|bytes|, writePos, HEADER_SIZE + |data|), HEADER_SIZE + |data|)
    requires var w := FrameStart(|bytes|, writePos, HEADER_SIZE + |data|);
      var end := Wrap(|bytes|, w + HEADER_SIZE + |data|);
      Implements(bytes', slots, end, history + [data], starts[|history| := w] + [Normalize(|bytes|, end)], cursors)
    ensures CleanFor(|bytes|, slots, writePos, HEADER_SIZE + |data|)
  {
    var size := HEADER_SIZE + |data|;
    var at := FrameStart(|bytes|, writePos, size);
    var w, next := Normalize(|bytes|, writePos), Normalize(|bytes|, Wrap(|bytes|, at + size));
    forall i | 0 <= i < |slots| && slots[i].active
      ensures var r := Normalize(|bytes|, slots[i].readPos);
        w == at && Used(|bytes|, r, at) + size <= |bytes| && r != next
    {
      StandsBefore(bytes, history, starts, w, cursors[i], data, at, bytes', next);
      assert UsedOf(|bytes|, slots[i], at) + size <= |bytes|;
    }
  }

  /** A reader that stands in front of the same frame before and after a write. */
  lemma StandsBefore(bytes: seq<Byte>, history: seq<Payload>, starts: seq<nat>, w: nat, c: nat, data: Payload,
                     at: nat, bytes': seq<Byte>, next: nat)
    requires HEADER_SIZE < |bytes| == |bytes'| && |starts| == |history| + 1 && starts[|history|] == w
    requires Readable(bytes, history, starts, w, c)
    requires Readable(bytes', history + [data], starts[|history| := at] + [next], next, c)
    requires (starts[|history| := at] + [next])[c] == starts[c]
    ensures at == w && starts[c] != next
  {
    var n := |history|;
    var starts' := starts[n := at] + [next];
    if c < n {
      assert Ahead(bytes, history, starts, w, n - 1, n - 1);
      assert Ahead(bytes', history + [data], starts', next, n - 1, n - 1);
    }
  }

  /** Whatever the bytes were, no active reader ends strictly inside the frame
      just written. */
  lemma SkippedAvoidsFrame(bytes: seq<Byte>, slots: seq<ReaderSlot>, w: nat, size: nat, after: seq<ReaderSlot>, i: nat)
    requires HEADER_SIZE < |bytes| && SlotsOk(|bytes|, slots)
    requires HEADER_SIZE < size && w + size <= |bytes|
    requires Skipped(bytes, slots, w, size, after) && i < |after| && after[i].active
    ensures var r := Normalize(|bytes|, after[i].readPos); r <= w || w + size <= r
  {
    assert after[i] == SkipSlot(bytes, slots[i], w, size);
  }

  /** A write of `size` octets at w is clean for a reader standing before frame p. */
  ghost predicate CleanAt(bytes: seq<Byte>, starts: seq<nat>, w: nat, size: nat, p: nat)
    requires HEADER_SIZE < |bytes| && p < |starts|
  {
    && starts[p] <= |bytes| - HEADER_SIZE
    && Used(|bytes|, starts[p], w) + size <= |bytes|
    && starts[p] != Normalize(|bytes|, Wrap(|bytes|, w + size))
  }

  lemma CleanAllAlong(bytes: seq<Byte>, history: seq<Payload>, starts: seq<nat>, w: nat, c: nat, size: nat, p: nat)
    requires HEADER_SIZE < |bytes| && |starts| == |history| + 1 && HEADER_SIZE < size
    requires Readable(bytes, history, starts, w, c) && c <= p <= |history|
    requires w == starts[|history|] <= |bytes| - HEADER_SIZE && w + size <= |bytes|
    requires CleanAt(bytes, starts, w, size, c)
    ensures CleanAt(bytes, starts, w, size, p)
  {
    if c < p < |history| {
      assert Ahead(bytes, history, starts, w, c, p);
      CleanLater(|bytes|, starts[c], w, size, starts[p], starts[p] + HEADER_SIZE + |history[p]|);
    }
  }

  lemma FrameKept(bytes: seq<Byte>, history: seq<Payload>, starts: seq<nat>, w: nat, j: nat, data: Payload, next: nat)
    requires HEADER_SIZE < |bytes| && |starts| == |history| + 1 && w + HEADER_SIZE + |data| <= |bytes|
    requires j < |history| && FrameAt(bytes, history, starts, j)
    requires starts[j] + HEADER_SIZE + |history[j]| <= w || w + HEADER_SIZE + |data| <= starts[j]
    ensures var after := bytes[..w] + Frame(data) + bytes[w + HEADER_SIZE + |data|..];
      |after| == |bytes| && FrameAt(after, history + [data], starts + [next], j)
  {
    var size := HEADER_SIZE + |data|;
    var after := bytes[..w] + Frame(data) + bytes[w + size..];
    var a, b := starts[j], starts[j] + HEADER_SIZE + |history[j]|;
    assert forall i :: w + size <= i < |bytes| ==> after[i] == bytes[i];
    assert after[a..b] == bytes[a..b];
  }

  lemma ReadableAfterWrite(bytes: seq<Byte>, history: seq<Payload>, starts: seq<nat>, w: nat, c: nat, data: Payload)
    requires HEADER_SIZE < |bytes| && |starts| == |history| + 1 && 0 < |data|
    requires Readable(bytes, history, starts, w, c)
    requires w == starts[|history|] <= |bytes| - HEADER_SIZE && w + HEADER_SIZE + |data| <= |bytes|
    requires CleanAt(bytes, starts, w, HEADER_SIZE + |data|, c)
    ensures var next := Normalize(|bytes|, Wrap(|bytes|, w + HEADER_SIZE + |data|));
      Readable(bytes[..w] + Frame(data) + bytes[w + HEADER_SIZE + |data|..], history + [data], starts + [next], next, c)
  {
    var size := HEADER_SIZE + |data|;
    var n := |history|;
    var after := bytes[..w] + Frame(data) + bytes[w + size..];
    var next := Normalize(|bytes|, Wrap(|bytes|, w + size));
    var history', starts' := history + [data], starts + [next];
    forall p | c <= p <= n
      ensures CleanAt(bytes, starts, w, size, p) && starts'[p] == starts[p]
    {
      CleanAllAlong(bytes, history, starts, w, c, size, p);
    }
    assert after[w..w + size] == Frame(data);
    assert FrameAt(after, history', starts', n);
    forall p, j | c <= p <= j <= n
      ensures Ahead(after, history', starts', next, p, j)
    {
      if j < n {
        AheadAfterWrite(bytes, history, starts, w, data, p, j);
      } else {
        NewFrameInside(bytes, history, starts, w, size, p);
      }
    }
  }

  lemma AheadAfterWrite(bytes: seq<Byte>, history: seq<Payload>, starts: seq<nat>, w: nat, data: Payload, p: nat,
      j: nat)
    requires HEADER_SIZE < |bytes| && |starts| == |history| + 1 && 0 < |data| && p <= j < |history|
    requires w <= |bytes| - HEADER_SIZE && w + HEADER_SIZE + |data| <= |bytes|
    requires Ahead(bytes, history, starts, w, p, j) && CleanAt(bytes, starts, w, HEADER_SIZE + |data|, p)
    ensures var next := Normalize(|bytes|, Wrap(|bytes|, w + HEADER_SIZE + |data|));
      Ahead(bytes[..w] + Frame(data) + bytes[w + HEADER_SIZE + |data|..], history + [data], starts + [next], next, p, j)
  {
    var size := HEADER_SIZE + |data|;
    var next := Normalize(|bytes|, Wrap(|bytes|, w + size));
    hide Frame;
    InsideAfterWrite(|bytes|, starts[p], w, size, starts[j], starts[j] + HEADER_SIZE + |history[j]|);
    FrameKept(bytes, history, starts, w, j, data, next);
    assert (history + [data])[j] == history[j] && (starts + [next])[p] == starts[p]
      && (starts + [next])[j] == starts[j];
  }

  lemma NewFrameInside(bytes: seq<Byte>, history: seq<Payload>, starts: seq<nat>, w: nat, size: nat, p: nat)
    requires HEADER_SIZE < |bytes| && |starts| == |history| + 1 && p <= |history| && HEADER_SIZE < size
    requires w <= |bytes| - HEADER_SIZE && w + size <= |bytes|
    requires CleanAt(bytes, starts, w, size, p)
    ensures Inside(|bytes|, starts[p], Normalize(|bytes|, Wrap(|bytes|, w + size)), w, w + size)
  {
  }

  // ---- Reading --------------------------------------------------------------

  datatype ReadResult = ReadResult(msg: Option<Payload>, pos: nat)

  function LengthAt(bytes: seq<Byte>, at: nat): nat
    requires at + HEADER_SIZE <= |bytes|
  {
    Le32(bytes[at..at + HEADER_SIZE])
  }

  /** The length prefix at `at` is one that write() could have put there. */
  predicate Plausible(bytes: seq<Byte>, at: nat)
    requires at + HEADER_SIZE <= |bytes|
  {
    0 < LengthAt(bytes, at) <= |bytes| - HEADER_SIZE
  }

  function Extract(bytes: seq<Byte>, at: nat): ReadResult
    requires at + HEADER_SIZE <= |bytes| && at + HEADER_SIZE + LengthAt(bytes, at) <= |bytes|
  {
    var end := at + HEADER_SIZE + LengthAt(bytes, at);
    ReadResult(Some(bytes[at + HEADER_SIZE..end]), Wrap(|bytes|, end))
  }

  /** What waitRead computes from the bytes: an implausible prefix sends the
      reader to the writer, a message that would cross the end sends it to 0. */
  function Scan(bytes: seq<Byte>, readPos: nat, writePos: nat): ReadResult
    requires HEADER_SIZE < |bytes|
  {
    var r := Normalize(|bytes|, readPos);
    var w := Normalize(|bytes|, writePos);
    if r == w then ReadResult(None, readPos)
    else if !Plausible(bytes, r) then ReadResult(None, w)
    else if r + HEADER_SIZE + LengthAt(bytes, r) <= |bytes| then Extract(bytes, r)
    else if w == 0 || !Plausible(bytes, 0) then ReadResult(None, w)
    else Extract(bytes, 0)
  }

  function SlotAfter(slot: ReaderSlot, r: ReadResult): ReaderSlot {
    slot.(readPos := r.pos, totalReads := if r.msg.Some? then slot.totalReads + 1 else slot.totalReads)
  }

  /** The message at `at` lies inside the buffer with its length prefix. */
  predicate Complete(bytes: seq<Byte>, at: nat) {
    at + HEADER_SIZE <= |bytes| && Plausible(bytes, at) && at + HEADER_SIZE + LengthAt(bytes, at) <= |bytes|
  }

  /** Whatever the bytes are, a read stays inside the buffer and returns a
      complete length-prefixed message, or else catches up with the writer. */
  lemma ScanSound(bytes: seq<Byte>, readPos: nat, writePos: nat)
    requires HEADER_SIZE < |bytes| < 0x1_0000_0000 && readPos < |bytes| && writePos < |bytes|
    ensures var r := Scan(bytes, readPos, writePos); var at := Normalize(|bytes|, readPos);
      var w := Normalize(|bytes|, writePos);
      && r.pos < |bytes|
      && (r.msg.None? ==> Normalize(|bytes|, r.pos) == w)
      && (r.msg.Some? ==> at != w && Plausible(bytes, at) && var from := if Complete(bytes, at) then at else 0;
           && Complete(bytes, from) && from != w
           && r.msg.value == bytes[from + HEADER_SIZE..from + HEADER_SIZE + LengthAt(bytes, from)]
           && r.pos == Wrap(|bytes|, from + HEADER_SIZE + LengthAt(bytes, from)))
  {
  }

  /** A read by a reader in step is Take on the log, and leaves it in step. */
  lemma ReadKeepsLog(bytes: seq<Byte>, slots: seq<ReaderSlot>, writePos: nat,
                     history: seq<Payload>, starts: seq<nat>, cursors: seq<nat>, id: nat)
    requires HEADER_SIZE < |bytes| < 0x1_0000_0000 && |starts| == |history| + 1 && |cursors| == |slots|
    requires id < |slots| && slots[id].active && starts[|history|] == Normalize(|bytes|, writePos)
    ensures InStep(bytes, slots[id], writePos, history, starts, cursors[id]) ==>
      var r := Scan(bytes, slots[id].readPos, writePos);
      var cursors' := if r.msg.Some? then cursors[id := cursors[id] + 1] else cursors;
      var slots' := slots[id := SlotAfter(slots[id], r)];
      && InStep(bytes, slots'[id], writePos, history, starts, cursors'[id])
      && r.msg == Taken(LogOf(history, slots, cursors), id)
      && LogOf(history, slots', cursors') == Take(LogOf(history, slots, cursors), id)
  {
    if InStep(bytes, slots[id], writePos, history, starts, cursors[id]) {
      var w, c := Normalize(|bytes|, writePos), cursors[id];
      var log := LogOf(history, slots, cursors);
      if c < |history| {
        NextFrame(bytes, history, starts, w, c);
        ReadableAfterRead(bytes, history, starts, w, c);
        var r := Scan(bytes, slots[id].readPos, writePos);
        assert r.msg == Some(history[c]);
        assert LogOf(history, slots[id := SlotAfter(slots[id], r)], cursors[id := c + 1]).slots == Take(log, id).slots;
      } else {
        assert slots[id := SlotAfter(slots[id], ReadResult(None, slots[id].readPos))] == slots;
      }
    }
  }

  /** What waitRead finds at a reader that is not caught up. */
  lemma NextFrame(bytes: seq<Byte>, history: seq<Payload>, starts: seq<nat>, w: nat, c: nat)
    requires HEADER_SIZE < |bytes| < 0x1_0000_0000 && |starts| == |history| + 1
    requires Readable(bytes, history, starts, w, c) && c < |history|
    ensures var at := starts[c]; var data := history[c];
      && at != w && at + HEADER_SIZE + |data| <= |bytes| && 0 < |data|
      && Le32(bytes[at..at + HEADER_SIZE]) == |data|
      && bytes[at + HEADER_SIZE..at + HEADER_SIZE + |data|] == data
      && starts[c + 1] == Normalize(|bytes|, Wrap(|bytes|, at + HEADER_SIZE + |data|))
  {
    assert Ahead(bytes, history, starts, w, c, c);
    FrameParts(bytes, starts[c], history[c]);
    Le32RoundTrip(|history[c]|);
    hide Frame, Le32, ToLe32;
  }

  lemma FrameParts(bytes: seq<Byte>, at: nat, data: Payload)
    requires at + HEADER_SIZE + |data| <= |bytes| && bytes[at..at + HEADER_SIZE + |data|] == Frame(data)
    ensures bytes[at..at + HEADER_SIZE] == ToLe32(|data|)
    ensures bytes[at + HEADER_SIZE..at + HEADER_SIZE + |data|] == data
  {
    hide ToLe32;
    SubSlice(bytes, at, HEADER_SIZE + |data|, 0, HEADER_SIZE);
    SubSlice(bytes, at, HEADER_SIZE + |data|, HEADER_SIZE, HEADER_SIZE + |data|);
    var frame := ToLe32(|data|) + data;
    assert frame[0..HEADER_SIZE] == ToLe32(|data|) && frame[HEADER_SIZE..HEADER_SIZE + |data|] == data;
  }

  /** Reading one frame leaves the rest readable. */
  lemma ReadableAfterRead(bytes: seq<Byte>, history: seq<Payload>, starts: seq<nat>, w: nat, c: nat)
    requires HEADER_SIZE < |bytes| && |starts| == |history| + 1
    requires Readable(bytes, history, starts, w, c) && c < |history|
    ensures Readable(bytes, history, starts, w, c + 1)
  {
  }
}
