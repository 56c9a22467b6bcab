/** Whole runs of the byte ring.  A run is clean when no write skips a tail, has to
    drop, or fills the ring up to a reader; clean runs are exactly-once broadcast.
    Two kinds of run are clean on grounds a caller can check beforehand. */
module SharedRingRuns {
  import opened Wrappers
  import opened Bytes
  import opened BroadcastLog
  import opened RingLayout
  import opened RingDrops
  import opened RingCounts
  import opened SharedRing

  datatype Op = Register | Unregister(id: nat) | Write(data: Payload) | Read(id: nat, stopped: bool)

  predicate Accepts(capacity: nat, data: Payload) {
    0 < |data| && HEADER_SIZE + |data| <= capacity
  }

  function Step(capacity: nat, log: Log<Payload>, op: Op): Log<Payload> {
    match op
    case Register => BroadcastLog.Register(log)
    case Unregister(id) => BroadcastLog.Unregister(log, id)
    case Write(data) => if Accepts(capacity, data) then Append(log, data) else log
    case Read(id, stopped) => if stopped then log else Take(log, id)
  }

  function Delivered(log: Log<Payload>, op: Op): Option<Payload> {
    if op.Read? && !op.stopped then Taken(log, op.id) else None
  }

  function Run(capacity: nat, ops: seq<Op>): Log<Payload> {
    if ops == [] then Empty() else Step(capacity, Run(capacity, ops[..|ops| - 1]), ops[|ops| - 1])
  }

  /** What the j-th operation of the run hands to its caller. */
  function Reply(capacity: nat, ops: seq<Op>, j: nat): Option<Payload>
    requires j < |ops|
  {
    Delivered(Run(capacity, ops[..j]), ops[j])
  }

  /** What the first calls of a run deliver. */
  ghost predicate AsSpecified(capacity: nat, ops: seq<Op>, delivered: seq<Option<Payload>>) {
    |delivered| <= |ops| && forall j :: 0 <= j < |delivered| ==> delivered[j] == Reply(capacity, ops, j)
  }

  lemma OneMoreAsSpecified(capacity: nat, ops: seq<Op>, delivered: seq<Option<Payload>>, msg: Option<Payload>)
    requires AsSpecified(capacity, ops, delivered) && |delivered| < |ops|
    requires msg == Delivered(Run(capacity, ops[..|delivered|]), ops[|delivered|])
    ensures AsSpecified(capacity, ops, delivered + [msg])
  {
    hide Run, Delivered;
  }

  lemma RunOneMore(capacity: nat, ops: seq<Op>, k: nat)
    requires k < |ops|
    ensures Run(capacity, ops[..k + 1]) == Step(capacity, Run(capacity, ops[..k]), ops[k])
  {
    assert ops[..k + 1][..k] == ops[..k];
  }

  lemma {:induction false} RunWellFormed(capacity: nat, ops: seq<Op>)
    ensures WellFormed(Run(capacity, ops))
  {
    if ops != [] {
      RunWellFormed(capacity, ops[..|ops| - 1]);
    }
  }

  /** Starts of the frames after a write of `size` octets. */
  ghost function StartsAfter(capacity: nat, starts: seq<nat>, writePos: nat, size: nat): (r: seq<nat>)
    requires HEADER_SIZE < capacity && |starts| > 0
    ensures |r| == |starts| + 1
  {
    var w := FrameStart(capacity, writePos, size);
    starts[|starts| - 1 := w] + [Normalize(capacity, Wrap(capacity, w + size))]
  }

  /** One operation on a ring whose bytes implement the log. */
  method Perform(ring: SharedRingBuffer, op: Op) returns (msg: Option<Payload>)
    requires ring.Valid() && ring.Synced()
    requires op.Write? && Accepts(ring.capacity, op.data) ==> ring.Clean(HEADER_SIZE + |op.data|)
    modifies ring, ring.buffer
    ensures ring.Valid() && ring.Synced()
    ensures ring.Abs() == Step(ring.capacity, old(ring.Abs()), op)
    ensures msg == Delivered(old(ring.Abs()), op)
    ensures ring.dropCount == old(ring.dropCount)
    ensures ring.starts == if op.Write? && Accepts(ring.capacity, op.data)
                           then StartsAfter(ring.capacity, old(ring.starts), old(ring.writePos),
                             HEADER_SIZE + |op.data|)
                           else old(ring.starts)
  {
    msg := None;
    match op {
      case Register => var _ := ring.RegisterReader();
      case Unregister(id) => ring.UnregisterReader(id);
      case Write(data) => var _ := ring.Write(data);
      case Read(id, stopped) => msg := ring.WaitRead(id, stopped);
    }
  }

  // ---- Frames of one size, over any number of wraps -------------------------

  /** m * s, by repeated addition. */
  ghost function Times(m: nat, s: nat): nat {
    if m == 0 then 0 else Times(m - 1, s) + s
  }

  lemma {:induction false} TimesIsProduct(m: nat, s: nat)
    ensures Times(m, s) == m * s
  {
    if m > 0 {
      TimesIsProduct(m - 1, s);
      assert m * s == (m - 1) * s + s;
    }
  }

  lemma {:induction false} TimesGrows(m: nat, k: nat, s: nat)
    requires m <= k
    ensures Times(m, s) <= Times(k, s)
    ensures m < k ==> Times(m, s) + s <= Times(k, s)
    decreases k
  {
    if m < k {
      TimesGrows(m, k - 1, s);
    }
  }

  /** Where frame j starts when all frames take s octets. */
  ghost function Place(capacity: nat, s: nat, j: nat): nat {
    if j == 0 then 0 else Wrap(capacity, Place(capacity, s, j - 1) + s)
  }

  lemma {:induction false} PlaceIsMultiple(capacity: nat, s: nat, k: nat, j: nat) returns (m: nat)
    requires HEADER_SIZE < s && 0 < k && capacity == Times(k, s)
    ensures m < k && Place(capacity, s, j) == Times(m, s) && Place(capacity, s, j) + s <= capacity
  {
    if j == 0 {
      m := 0;
    } else {
      m := PlaceIsMultiple(capacity, s, k, j - 1);
      m := if m + 1 == k then 0 else m + 1;
    }
    TimesGrows(m, k, s);
  }

  lemma PlaceFits(capacity: nat, s: nat, k: nat, j: nat)
    requires HEADER_SIZE < s && 0 < k && capacity == Times(k, s)
    ensures HEADER_SIZE < capacity
    ensures Place(capacity, s, j) + s <= capacity
    ensures Normalize(capacity, Wrap(capacity, Place(capacity, s, j) + s)) == Place(capacity, s, j + 1)
  {
    var m := PlaceIsMultiple(capacity, s, k, j);
    m := PlaceIsMultiple(capacity, s, k, j + 1);
  }

  /** The octets between a reader at frame c and the writer at frame n. */
  lemma {:induction false} UsedUniform(capacity: nat, s: nat, k: nat, c: nat, n: nat)
    requires HEADER_SIZE < s && 0 < k && capacity == Times(k, s) && c <= n && n - c < k
    ensures Place(capacity, s, c) + s <= capacity && Place(capacity, s, n) + s <= capacity
    ensures Used(capacity, Place(capacity, s, c), Place(capacity, s, n)) == Times(n - c, s)
    decreases n
  {
    PlaceFits(capacity, s, k, c);
    PlaceFits(capacity, s, k, n);
    if c < n {
      UsedUniform(capacity, s, k, c, n - 1);
      TimesGrows(n - c, k, s);
    }
  }

  /** k frames on, the ring is back where it was. */
  lemma FullCircle(capacity: nat, s: nat, k: nat, c: nat)
    requires HEADER_SIZE < s && 0 < k && capacity == Times(k, s)
    ensures Place(capacity, s, c + k) == Place(capacity, s, c)
  {
    UsedUniform(capacity, s, k, c, c + k - 1);
  }

  /** Frames of s octets, one after the other from 0 and round again. */
  ghost predicate Uniform(capacity: nat, history: seq<Payload>, starts: seq<nat>, s: nat) {
    && |starts| == |history| + 1
    && (forall j :: 0 <= j < |history| ==> |history[j]| == s - HEADER_SIZE)
    && forall j :: 0 <= j <= |history| ==> starts[j] == Place(capacity, s, j)
  }

  /** Fewer than k-1 unread frames at every active reader. */
  predicate RoomForOne(log: Log<Payload>, k: nat) {
    forall i :: 0 <= i < |log.slots| && log.slots[i].cursor.Some? ==> |log.history| - log.slots[i].cursor.value < k - 1
  }

  lemma UniformIsClean(capacity: nat, s: nat, k: nat, c: nat, n: nat)
    requires HEADER_SIZE < s && 0 < k && capacity == Times(k, s) && c <= n && n - c < k - 1
    ensures Place(capacity, s, c) < capacity
    ensures Used(capacity, Place(capacity, s, c), Place(capacity, s, n)) + s <= capacity
    ensures Place(capacity, s, c) != Place(capacity, s, n + 1)
  {
    UsedUniform(capacity, s, k, c, n);
    UsedUniform(capacity, s, k, c, n + 1);
    TimesGrows(n - c, k, s);
  }

  lemma UniformWriteIsClean(ring: SharedRingBuffer, s: nat, k: nat)
    requires ring.Valid() && ring.Synced() && Uniform(ring.capacity, ring.history, ring.starts, s)
    requires HEADER_SIZE < s && 0 < k && ring.capacity == Times(k, s)
    requires RoomForOne(ring.Abs(), k)
    ensures ring.Clean(s)
  {
    var n := |ring.history|;
    var w := Normalize(ring.capacity, ring.writePos);
    PlaceFits(ring.capacity, s, k, n);
    forall i | 0 <= i < |ring.readers| && ring.readers[i].active
      ensures var r := Normalize(ring.capacity, ring.readers[i].readPos);
        Used(ring.capacity, r, w) + s <= ring.capacity && r != Normalize(ring.capacity, Wrap(ring.capacity, w + s))
    {
      assert ring.Abs().slots[i].cursor == Some(ring.cursors[i]);
      UniformIsClean(ring.capacity, s, k, ring.cursors[i], n);
    }
  }

  lemma UniformGrows(capacity: nat, history: seq<Payload>, starts: seq<nat>, s: nat, k: nat, writePos: nat,
      data: Payload)
    requires HEADER_SIZE < s && 0 < k && capacity == Times(k, s) && HEADER_SIZE < capacity
    requires Uniform(capacity, history, starts, s) && starts[|history|] == Normalize(capacity, writePos)
    requires |data| == s - HEADER_SIZE
    ensures Uniform(capacity, history + [data], StartsAfter(capacity, starts, writePos, s), s)
  {
    PlaceFits(capacity, s, k, |history|);
  }

  predicate UniformOp(log: Log<Payload>, op: Op, s: nat, k: nat) {
    op.Write? ==> HEADER_SIZE + |op.data| == s && RoomForOne(log, k)
  }

  /** The j-th operation of the run, if a write, writes a frame of s octets while
      every active reader is fewer than k-1 frames behind. */
  predicate UniformAt(capacity: nat, ops: seq<Op>, j: nat, s: nat, k: nat)
    requires j < |ops|
  {
    UniformOp(Run(capacity, ops[..j]), ops[j], s, k)
  }

  /** With frames of one size s, a ring of k * s octets, and every active reader
      fewer than k-1 frames behind at each write, the byte ring is an exactly-once
      broadcast queue over any number of wraps, and nothing is ever dropped. */
  method ExecuteUniform(s: nat, k: nat, ops: seq<Op>) returns (ring: SharedRingBuffer, delivered: seq<Option<Payload>>)
    requires HEADER_SIZE < s && 0 < k && k * s < 0x1_0000_0000
    requires forall j :: 0 <= j < |ops| ==> UniformAt(k * s, ops, j, s, k)
    ensures ring.Valid() && ring.Synced() && ring.Abs() == Run(k * s, ops) && ring.dropCount == 0
    ensures |delivered| == |ops|
    ensures forall j :: 0 <= j < |ops| ==> delivered[j] == Reply(k * s, ops, j)
  {
    TimesIsProduct(k, s);
    PlaceFits(k * s, s, k, 0);
    ring, delivered := UniformRun(k * s, s, k, ops);
  }

  method UniformRun(capacity: nat, s: nat, k: nat, ops: seq<Op>)
      returns (ring: SharedRingBuffer, delivered: seq<Option<Payload>>)
    requires HEADER_SIZE < s && 0 < k && capacity == Times(k, s) && HEADER_SIZE < capacity < 0x1_0000_0000
    requires forall j :: 0 <= j < |ops| ==> UniformAt(capacity, ops, j, s, k)
    ensures ring.Valid() && ring.Synced() && ring.Abs() == Run(capacity, ops) && ring.dropCount == 0
    ensures |delivered| == |ops| && AsSpecified(capacity, ops, delivered)
  {
    ring := new SharedRingBuffer(capacity);
    delivered := [];
    assert Uniform(capacity, ring.history, ring.starts, s) && Run(capacity, ops[..0]) == Empty();
    assert AsSpecified(capacity, ops, []);
    hide *;
    for j := 0 to |ops|
      invariant ring.Valid() && ring.Synced() && fresh(ring) && fresh(ring.buffer) && ring.capacity == capacity
      invariant ring.Abs() == Run(capacity, ops[..j]) && ring.dropCount == 0
      invariant Uniform(capacity, ring.history, ring.starts, s)
      invariant |delivered| == j && AsSpecified(capacity, ops, delivered)
    {
      StepAt(capacity, ops, j, s, k);
      RunOneMore(capacity, ops, j);
      var msg := UniformPerform(ring, ops[j], s, k);
      OneMoreAsSpecified(capacity, ops, delivered, msg);
      delivered := delivered + [msg];
    }
    assert ops[..|ops|] == ops;
  }

  lemma StepAt(capacity: nat, ops: seq<Op>, j: nat, s: nat, k: nat)
    requires j < |ops| && UniformAt(capacity, ops, j, s, k)
    ensures UniformOp(Run(capacity, ops[..j]), ops[j], s, k)
  {
  }

  method UniformPerform(ring: SharedRingBuffer, op: Op, ghost s: nat, ghost k: nat) returns (msg: Option<Payload>)
    requires ring.Valid() && ring.Synced() && Uniform(ring.capacity, ring.history, ring.starts, s)
    requires HEADER_SIZE < s && 0 < k && ring.capacity == Times(k, s)
    requires UniformOp(ring.Abs(), op, s, k)
    modifies ring, ring.buffer
    ensures ring.Valid() && ring.Synced() && Uniform(ring.capacity, ring.history, ring.starts, s)
    ensures ring.Abs() == Step(ring.capacity, old(ring.Abs()), op)
    ensures msg == Delivered(old(ring.Abs()), op)
    ensures ring.dropCount == old(ring.dropCount)
  {
    if op.Write? {
      UniformWriteIsClean(ring, s, k);
      PlaceFits(ring.capacity, s, k, 0);
      UniformGrows(ring.capacity, ring.history, ring.starts, s, k, ring.writePos, op.data);
    }
    msg := Perform(ring, op);
  }

  /** A ring of k frames of s octets each, in step: reader `id` has k-1 frames unread, and
      no reader more. */
  ghost predicate OneShort(ring: SharedRingBuffer, s: nat, k: nat, id: nat)
    reads ring, ring.buffer
    requires ring.Valid()
  {
    && ring.Synced() && Uniform(ring.capacity, ring.history, ring.starts, s)
    && HEADER_SIZE < s && 0 < k && ring.capacity == Times(k, s)
    && id < MAX_READERS && ring.readers[id].active
    && (forall i :: 0 <= i < MAX_READERS && ring.readers[i].active ==> |ring.history| - ring.cursors[i] <= k - 1)
    && |ring.history| - ring.cursors[id] == k - 1
  }

  /** The bound is exact: one frame more and the write still succeeds without a
      drop, but the reader, now with all k frames unread, is told there are none. */
  method FullLooksEmpty(ring: SharedRingBuffer, ghost s: nat, ghost k: nat, id: nat, data: Payload)
      returns (ok: bool, msg: Option<Payload>)
    requires ring.Valid() && OneShort(ring, s, k, id) && HEADER_SIZE + |data| == s
    modifies ring, ring.buffer
    ensures ok && ring.dropCount == old(ring.dropCount)
    ensures ring.Valid() && |ring.history| - ring.cursors[id] == k && msg == None
    ensures |ring.history| == old(|ring.history|) + 1
  {
    ok := WriteFull(ring, s, k, id, data);
    msg := ring.WaitRead(id, false);
  }

  method WriteFull(ring: SharedRingBuffer, ghost s: nat, ghost k: nat, ghost id: nat, data: Payload) returns (ok: bool)
    requires ring.Valid() && OneShort(ring, s, k, id) && HEADER_SIZE + |data| == s
    modifies ring, ring.buffer
    ensures ok && ring.Valid() && ring.dropCount == old(ring.dropCount)
    ensures ring.readers == old(ring.readers) && ring.cursors == old(ring.cursors)
    ensures |ring.history| == old(|ring.history|) + 1
    ensures Normalize(ring.capacity, ring.readers[id].readPos) == Normalize(ring.capacity, ring.writePos)
  {
    FullReady(ring, s, k, id, data);
    ghost var bytes, was, pos := ring.buffer[..], ring.readers, ring.writePos;
    ghost var starts, cursors := ring.starts, ring.cursors;
    hide *;
    ok := ring.Write(data);
    RoomKeeps(bytes, was, starts, cursors, FrameStart(ring.capacity, pos, s), s, ring.readers, ring.cursors);
  }

  lemma FullReady(ring: SharedRingBuffer, s: nat, k: nat, id: nat, data: Payload)
    requires ring.Valid() && OneShort(ring, s, k, id) && HEADER_SIZE + |data| == s
    ensures |ring.buffer[..]| == ring.capacity && SlotsOk(ring.capacity, ring.readers)
    ensures |ring.readers| == |ring.cursors| == MAX_READERS && |ring.starts| > 0
    ensures 0 < |data| <= ring.capacity - HEADER_SIZE
    ensures var w := FrameStart(ring.capacity, ring.writePos, s);
      && w + s <= ring.capacity && Fits(ring.capacity, ring.readers, w, s)
      && CursorsAfter(ring.capacity, ring.readers, ring.starts, w, s, ring.cursors) == ring.cursors
      && Normalize(ring.capacity, ring.readers[id].readPos) == Normalize(ring.capacity, Wrap(ring.capacity, w + s))
  {
    UniformFits(ring, s, k);
    FitsCursors(ring.buffer[..], ring.readers, ring.writePos, ring.history, ring.starts, ring.cursors, s);
    StandsAtPlace(ring, s, k, id);
    FrameStartIs(ring.capacity, ring.writePos, s);
  }

  /** A write that has room moves neither readers nor cursors. */
  lemma RoomKeeps(bytes: seq<Byte>, was: seq<ReaderSlot>, starts: seq<nat>, cursors: seq<nat>, w: nat, size: nat,
                  after: seq<ReaderSlot>, cursors': seq<nat>)
    requires HEADER_SIZE < |bytes| && SlotsOk(|bytes|, was) && HEADER_SIZE < size && w + size <= |bytes|
    requires Fits(|bytes|, was, w, size) && Skipped(bytes, was, w, size, after)
    requires |starts| > 0 && |cursors| == |was| && CursorsAfter(|bytes|, was, starts, w, size, cursors) == cursors
    requires cursors' == CursorsAfter(|bytes|, after, starts, w, size, cursors)
    ensures after == was && cursors' == cursors
  {
    FitsSkipsNothing(bytes, was, w, size, after);
  }

  /** With k-1 frames unread, the reader is where the write to come will end. */
  lemma StandsAtPlace(ring: SharedRingBuffer, s: nat, k: nat, id: nat)
    requires ring.Valid() && ring.Synced() && Uniform(ring.capacity, ring.history, ring.starts, s)
    requires HEADER_SIZE < s && 0 < k && ring.capacity == Times(k, s)
    requires id < MAX_READERS && ring.readers[id].active && |ring.history| - ring.cursors[id] == k - 1
    requires FrameStart(ring.capacity, ring.writePos, s) == Place(ring.capacity, s, |ring.history|)
    ensures Normalize(ring.capacity, ring.readers[id].readPos) ==
      Normalize(ring.capacity, Wrap(ring.capacity, FrameStart(ring.capacity, ring.writePos, s) + s))
  {
    FullCircle(ring.capacity, s, k, ring.cursors[id]);
    PlaceFits(ring.capacity, s, k, |ring.history|);
  }

  lemma UniformFits(ring: SharedRingBuffer, s: nat, k: nat)
    requires ring.Valid() && ring.Synced() && Uniform(ring.capacity, ring.history, ring.starts, s)
    requires HEADER_SIZE < s && 0 < k && ring.capacity == Times(k, s)
    requires forall i :: 0 <= i < MAX_READERS && ring.readers[i].active ==> |ring.history| - ring.cursors[i] <= k - 1
    ensures FrameStart(ring.capacity, ring.writePos, s) == Place(ring.capacity, s, |ring.history|)
    ensures Fits(ring.capacity, ring.readers, FrameStart(ring.capacity, ring.writePos, s), s)
  {
    var n := |ring.history|;
    PlaceFits(ring.capacity, s, k, n);
    forall i | 0 <= i < |ring.readers|
      ensures UsedOf(ring.capacity, ring.readers[i], Place(ring.capacity, s, n)) + s <= ring.capacity
    {
      if ring.readers[i].active {
        UsedUniform(ring.capacity, s, k, ring.cursors[i], n);
        TimesGrows(n - ring.cursors[i], k, s);
      }
    }
  }

  // ---- Messages of any size, within one lap ----------------------------------

  /** Octets the frame of an accepted write takes. */
  function FrameSize(capacity: nat, op: Op): nat {
    if op.Write? && Accepts(capacity, op.data) then HEADER_SIZE + |op.data| else 0
  }

  /** Framed octets of the payloads a fresh ring of this capacity accepts. */
  function Framed(capacity: nat, ops: seq<Op>): nat {
    if ops == [] then 0
    else
      Framed(capacity, ops[..|ops| - 1]) + FrameSize(capacity, ops[|ops| - 1])
  }

  lemma FramedOneMore(capacity: nat, ops: seq<Op>, k: nat)
    requires k < |ops|
    ensures Framed(capacity, ops[..k + 1]) == Framed(capacity, ops[..k]) + FrameSize(capacity, ops[k])
  {
    assert ops[..k + 1][..k] == ops[..k];
  }

  lemma {:induction false} FramedGrows(capacity: nat, ops: seq<Op>, k: nat)
    requires k <= |ops|
    ensures Framed(capacity, ops[..k]) <= Framed(capacity, ops)
    decreases |ops|
  {
    if k < |ops| {
      FramedGrows(capacity, ops[..|ops| - 1], k);
      assert ops[..|ops| - 1][..k] == ops[..k];
    } else {
      assert ops[..k] == ops;
    }
  }

  /** Within the first lap frames are stacked from 0 upwards. */
  ghost predicate Stacked(starts: seq<nat>, total: nat) {
    && |starts| > 0 && starts[|starts| - 1] == total
    && forall j :: 0 <= j < |starts| ==> starts[j] <= total
  }

  /** While the framed octets stay within capacity - 4, messages of any sizes reach
      every reader registered before them, exactly once, in order, byte for byte. */
  method ExecuteLap(capacity: nat, ops: seq<Op>) returns (ring: SharedRingBuffer, delivered: seq<Option<Payload>>)
    requires HEADER_SIZE < capacity < 0x1_0000_0000
    requires Framed(capacity, ops) <= capacity - HEADER_SIZE
    ensures ring.Valid() && ring.Synced() && ring.Abs() == Run(capacity, ops) && ring.dropCount == 0
    ensures |delivered| == |ops|
    ensures forall j :: 0 <= j < |ops| ==> delivered[j] == Reply(capacity, ops, j)
  {
    ring, delivered := LapRun(capacity, ops);
  }

  method LapRun(capacity: nat, ops: seq<Op>) returns (ring: SharedRingBuffer, delivered: seq<Option<Payload>>)
    requires HEADER_SIZE < capacity < 0x1_0000_0000
    requires Framed(capacity, ops) <= capacity - HEADER_SIZE
    ensures ring.Valid() && ring.Synced() && ring.Abs() == Run(capacity, ops) && ring.dropCount == 0
    ensures |delivered| == |ops| && AsSpecified(capacity, ops, delivered)
  {
    ring := new SharedRingBuffer(capacity);
    delivered := [];
    assert Stacked(ring.starts, Framed(capacity, ops[..0])) && Run(capacity, ops[..0]) == Empty();
    assert AsSpecified(capacity, ops, []);
    hide *;
    for j := 0 to |ops|
      invariant ring.Valid() && ring.Synced() && fresh(ring) && fresh(ring.buffer) && ring.capacity == capacity
      invariant ring.Abs() == Run(capacity, ops[..j]) && ring.dropCount == 0
      invariant Stacked(ring.starts, Framed(capacity, ops[..j]))
      invariant |delivered| == j && AsSpecified(capacity, ops, delivered)
    {
      FramedGrows(capacity, ops, j + 1);
      FramedOneMore(capacity, ops, j);
      RunOneMore(capacity, ops, j);
      var msg := LapPerform(ring, ops[j], Framed(capacity, ops[..j]));
      OneMoreAsSpecified(capacity, ops, delivered, msg);
      delivered := delivered + [msg];
    }
    assert ops[..|ops|] == ops;
  }

  method LapPerform(ring: SharedRingBuffer, op: Op, ghost total: nat) returns (msg: Option<Payload>)
    requires ring.Valid() && ring.Synced() && Stacked(ring.starts, total)
    requires total + FrameSize(ring.capacity, op) <= ring.capacity - HEADER_SIZE
    modifies ring, ring.buffer
    ensures ring.Valid() && ring.Synced()
    ensures Stacked(ring.starts, total + FrameSize(ring.capacity, op))
    ensures ring.Abs() == Step(ring.capacity, old(ring.Abs()), op)
    ensures msg == Delivered(old(ring.Abs()), op)
    ensures ring.dropCount == old(ring.dropCount)
  {
    assert ring.starts[|ring.history|] == Normalize(ring.capacity, ring.writePos);
    msg := Perform(ring, op);
  }

  // ---- What the code does not promise ----------------------------------------

  /** A write that does not fit before the end starts over at 0 and leaves no mark
      in the tail.  What a reader waiting at the tail makes of it depends on the stale
      octets there, with no drop counted in any case:
      - an implausible length (a tail never written, say), or a new frame that ends
        where the reader stands: it loses the message;
      - a length that points past the end: it gets the message;
      - a complete old message: it gets that one again. */
  method TailSkip(ring: SharedRingBuffer, id: nat, data: Payload) returns (ok: bool, msg: Option<Payload>)
    requires ring.Valid() && Accepts(ring.capacity, data)
    requires id < MAX_READERS && ring.readers[id].active
    requires Normalize(ring.capacity, ring.readers[id].readPos) == Normalize(ring.capacity, ring.writePos)
    requires Normalize(ring.capacity, ring.writePos) + HEADER_SIZE + |data| > ring.capacity
    requires Fits(ring.capacity, ring.readers, 0, HEADER_SIZE + |data|)
    modifies ring, ring.buffer
    ensures ok && ring.dropCount == old(ring.dropCount)
    ensures msg == AfterTailSkip(old(ring.buffer[..]), Normalize(ring.capacity, old(ring.writePos)), data)
  {
    ghost var bytes, was, pos := ring.buffer[..], ring.readers, ring.writePos;
    ghost var size := HEADER_SIZE + |data|;
    ok := ring.Write(data);
    FitsSkipsNothing(bytes, was, 0, size, ring.readers);
    TailScan(bytes, Normalize(ring.capacity, pos), size, data);
    msg := ring.WaitRead(id, false);
  }

  // ---- Rings on which it happens -----------------------------------------------------

  /** One registered reader gets through one write and one read. */
  method WriteAndRead(ring: SharedRingBuffer, data: Payload) returns (msg: Option<Payload>)
    requires ring.Valid() && Alone(ring) && 0 < |data|
    requires Normalize(ring.capacity, ring.writePos) + HEADER_SIZE + |data| <= ring.capacity
    modifies ring, ring.buffer
    ensures ring.Valid() && Alone(ring) && ring.dropCount == old(ring.dropCount)
    ensures var w := Normalize(ring.capacity, old(ring.writePos)); var size := HEADER_SIZE + |data|;
      && ring.buffer[..] == old(ring.buffer[..])[..w] + Frame(data) + old(ring.buffer[..])[w + size..]
      && ring.writePos == Wrap(ring.capacity, w + size)
      && (Normalize(ring.capacity, ring.writePos) != w ==> msg == Some(data))
      && |ring.history| == old(|ring.history|) + 1
  {
    ghost var bytes := ring.buffer[..];
    ghost var w := Normalize(ring.capacity, ring.writePos);
    WriteAlone(ring, data);
    hide Frame, Le32;
    FreshFrame(bytes, w, data);
    msg := ring.WaitRead(0, false);
  }

  method WriteAlone(ring: SharedRingBuffer, data: Payload)
    requires ring.Valid() && Alone(ring) && 0 < |data|
    requires Normalize(ring.capacity, ring.writePos) + HEADER_SIZE + |data| <= ring.capacity
    modifies ring, ring.buffer
    ensures ring.Valid() && ring.readers == old(ring.readers) && ring.dropCount == old(ring.dropCount)
    ensures var w := Normalize(ring.capacity, old(ring.writePos)); var size := HEADER_SIZE + |data|;
      && ring.buffer[..] == old(ring.buffer[..])[..w] + Frame(data) + old(ring.buffer[..])[w + size..]
      && ring.writePos == Wrap(ring.capacity, w + size)
      && |ring.history| == old(|ring.history|) + 1
  {
    hide Frame, CleanFor, Implements, Skipped;
    ghost var bytes, was := ring.buffer[..], ring.readers;
    ghost var w, size := Normalize(ring.capacity, ring.writePos), HEADER_SIZE + |data|;
    var _ := ring.Write(data);
    FitsSkipsNothing(bytes, was, w, size, ring.readers);
  }

  /** Reader 0 is the only one, and has nothing unread. */
  ghost predicate Alone(ring: SharedRingBuffer)
    reads ring
    requires ring.Valid()
  {
    && ring.readers[0].active
    && Normalize(ring.capacity, ring.readers[0].readPos) == Normalize(ring.capacity, ring.writePos)
    && forall i :: 1 <= i < MAX_READERS ==> !ring.readers[i].active
  }

  /** A frame written at 0 leaves messages behind it alone. */
  lemma StaleKept(bytes: seq<Byte>, data: Payload, at: nat, m: Payload)
    requires HEADER_SIZE + |data| <= at && Holds(bytes, at, m)
    ensures Holds(bytes[..0] + Frame(data) + bytes[HEADER_SIZE + |data|..], at, m)
  {
    var after := bytes[..0] + Frame(data) + bytes[HEADER_SIZE + |data|..];
    assert after[at..at + HEADER_SIZE] == bytes[at..at + HEADER_SIZE];
    assert after[at + HEADER_SIZE..at + HEADER_SIZE + |m|] == bytes[at + HEADER_SIZE..at + HEADER_SIZE + |m|];
  }

  lemma StaleRead(bytes: seq<Byte>, w: nat, data: Payload, m: Payload)
    requires HEADER_SIZE < |bytes| && w <= |bytes| - HEADER_SIZE && HEADER_SIZE + |data| != w && Holds(bytes, w, m)
    ensures AfterTailSkip(bytes, w, data) == Some(m)
  {
  }

  method NewAlone(capacity: nat) returns (ring: SharedRingBuffer)
    requires HEADER_SIZE < capacity < 0x1_0000_0000
    ensures fresh(ring) && fresh(ring.buffer) && ring.Valid() && ring.capacity == capacity
    ensures Alone(ring) && ring.writePos == 0 && ring.dropCount == 0 && ring.Synced()
    ensures Uniform(capacity, ring.history, ring.starts, 5) && ring.history == [] && ring.cursors[0] == 0
  {
    ring := new SharedRingBuffer(capacity);
    assert forall i :: 0 <= i < MAX_READERS ==> ring.Abs().slots[i] == Slot(None, 0);
    var id := ring.RegisterReader();
    FirstFreeIs(Empty<Payload>().slots, 0);
    assert forall i :: 0 <= i < MAX_READERS ==> ring.Abs().slots[i] == SlotOf(ring.readers[i], ring.cursors[i]);
  }

  /** 20 octets, two messages of 8 read one by one: the second is lost. */
  method LosesMessage() returns (first: Option<Payload>, second: Option<Payload>, drops: nat)
    ensures first == Some([1, 1, 1, 1, 1, 1, 1, 1]) && second == None && drops == 0
  {
    var ring := NewAlone(20);
    var eight: Payload := [1, 1, 1, 1, 1, 1, 1, 1];
    first := WriteAndRead(ring, eight);
    var ok;
    ok, second := TailSkip(ring, 0, eight);
    drops := ring.dropCount;
  }

  /** 20 octets, messages of 8, 2, 8 and 6 read one by one: the fourth time the reader
      is handed the second message again, and the fourth message is lost. */
  method RepeatsMessage() returns (msgs: seq<Option<Payload>>, drops: nat)
    ensures msgs == [Some([1, 1, 1, 1, 1, 1, 1, 1]), Some([2, 2]), Some([3, 3, 3, 3, 3, 3, 3, 3]), Some([2, 2])]
    ensures drops == 0
  {
    hide Holds, AfterTailSkip;
    var ring, a, b, c := LeavesStale();
    StaleRead(ring.buffer[..], 12, [4, 4, 4, 4, 4, 4], [2, 2]);
    var ok, d := TailSkip(ring, 0, [4, 4, 4, 4, 4, 4]);
    msgs, drops := [a, b, c, d], ring.dropCount;
  }

  method LeavesStale() returns (ring: SharedRingBuffer, a: Option<Payload>, b: Option<Payload>, c: Option<Payload>)
    ensures a == Some([1, 1, 1, 1, 1, 1, 1, 1]) && b == Some([2, 2]) && c == Some([3, 3, 3, 3, 3, 3, 3, 3])
    ensures fresh(ring) && fresh(ring.buffer) && ring.Valid() && Alone(ring) && ring.capacity == 20
    ensures ring.writePos == 12 && ring.dropCount == 0 && Holds(ring.buffer[..], 12, [2, 2])
  {
    hide Frame, Holds, Alone;
    ring := NewAlone(20);
    a := WriteAndRead(ring, [1, 1, 1, 1, 1, 1, 1, 1]);
    ghost var bytes := ring.buffer[..];
    b := WriteAndRead(ring, [2, 2]);
    FreshFrame(bytes, 12, [2, 2]);
    bytes := ring.buffer[..];
    c := WriteAndRead(ring, [3, 3, 3, 3, 3, 3, 3, 3]);
    StaleKept(bytes, [3, 3, 3, 3, 3, 3, 3, 3], 12, [2, 2]);
  }

  /** 10 octets, two messages of 1, none read: the reader is told there are none. */
  method HidesMessages() returns (msg: Option<Payload>, written: nat, drops: nat)
    ensures msg == None && written == 2 && drops == 0
  {
    var ring := NewAlone(10);
    assert Times(2, 5) == 10;
    assert ring.Abs().slots[0] == Slot(Some(0), ring.readers[0].totalReads);
    var none := UniformPerform(ring, Op.Write([1]), 5, 2);
    var ok;
    ok, msg := FullLooksEmpty(ring, 5, 2, 0, [2]);
    written, drops := ring.totalWrites, ring.dropCount;
  }

  /** Reader 0 is the only one, and is in step. */
  ghost predicate LoneInStep(ring: SharedRingBuffer)
    reads ring, ring.buffer
    requires ring.Valid()
  {
    ring.readers[0].active && ring.InStepAt(0) && forall i :: 1 <= i < MAX_READERS ==> !ring.readers[i].active
  }

  /** What dropping does to a lone reader in step. */
  lemma LoneSkipped(bytes: seq<Byte>, was: seq<ReaderSlot>, writePos: nat, history: seq<Payload>, starts: seq<nat>,
                    c: nat, size: nat, after: seq<ReaderSlot>)
    requires HEADER_SIZE < |bytes| < 0x1_0000_0000 && |starts| == |history| + 1 && |was| == MAX_READERS
    requires SlotsOk(|bytes|, was) && HEADER_SIZE < size <= |bytes| && starts[|history|] == Normalize(|bytes|, writePos)
    requires was[0].active && InStep(bytes, was[0], writePos, history, starts, c)
    requires forall i :: 1 <= i < MAX_READERS ==> !was[i].active
    requires Skipped(bytes, was, FrameStart(|bytes|, writePos, size), size, after)
    ensures var w := FrameStart(|bytes|, writePos, size); var p := FirstFit(|bytes|, starts, w, size, c);
      && c <= p <= |history|
      && (Fits(|bytes|, was, w, size) <==> FitsAt(|bytes|, starts, w, size, c))
      && (FitsAt(|bytes|, starts, w, size, p) ==>
            Normalize(|bytes|, after[0].readPos) == starts[p] && |PassedBy(bytes, was, w, size)| == p - c)
      && after[0].active && forall i :: 1 <= i < MAX_READERS ==> !after[i].active
  {
    var w, v := FrameStart(|bytes|, writePos, size), Normalize(|bytes|, writePos);
    FrameStartIs(|bytes|, writePos, size);
    SkipAlong(bytes, history, starts, v, c, was[0].readPos, w, size);
    StartsBounded(bytes, history, starts, v, c);
    var p := FirstFit(|bytes|, starts, w, size, c);
    if FitsAt(|bytes|, starts, w, size, p) {
      SkipStops(bytes, starts[p], w, size);
      LoneDrops(bytes, was, history, starts, v, c, w, size);
    }
    hide Readable, SkipUntil, FirstFit, PassedBy;
    assert forall i :: 0 <= i < MAX_READERS ==> after[i] == SkipSlot(bytes, was[i], w, size);
    assert UsedOf(|bytes|, was[0], w) == Used(|bytes|, starts[c], w);
  }

  /** A ring with a lone reader in step, after a write to the ring that these values
      describe: the reader was moved to the first frame that fits. */
  ghost predicate AfterPut(ring: SharedRingBuffer, starts: seq<nat>, writePos: nat, c: nat, drops: nat, size: nat)
    reads ring, ring.buffer
    requires ring.Valid() && HEADER_SIZE < size && |starts| > 0
  {
    var w := FrameStart(ring.capacity, writePos, size);
    var p := FirstFit(ring.capacity, starts, w, size, c);
    && c < |starts| && ring.writePos == Wrap(ring.capacity, w + size)
    && ring.starts == StartsAfter(ring.capacity, starts, writePos, size)
    && ring.dropCount >= drops && (ring.dropCount == drops <==> FitsAt(ring.capacity, starts, w, size, c))
    && (FitsAt(ring.capacity, starts, w, size, p) ==> ring.dropCount == drops + (p - c))
    && (FitsAt(ring.capacity, starts, w, size, p) && StaysInStep(ring.capacity, starts, w, size, starts[p]) ==>
          LoneInStep(ring) && ring.cursors[0] == CursorAfter(ring.capacity, starts, w, size, c, starts[p]))
  }

  /** A write to a lone reader in step. */
  method Put(ring: SharedRingBuffer, data: Payload)
    requires ring.Valid() && LoneInStep(ring) && Accepts(ring.capacity, data)
    modifies ring, ring.buffer
    ensures ring.Valid() && ring.history == old(ring.history) + [data]
    ensures AfterPut(ring, old(ring.starts), old(ring.writePos), old(ring.cursors[0]), old(ring.dropCount),
      HEADER_SIZE + |data|)
  {
    ghost var bytes, was, pos := ring.buffer[..], ring.readers, ring.writePos;
    ghost var starts, history, cursors, drops := ring.starts, ring.history, ring.cursors, ring.dropCount;
    ghost var size := HEADER_SIZE + |data|;
    ghost var w := FrameStart(ring.capacity, pos, size);
    assert ring.InStepAt(0) && cursors[0] <= |history|;
    assert SlotsOk(|bytes|, was) && |bytes| == ring.capacity && |was| == |cursors| == MAX_READERS;
    assert |starts| == |history| + 1 && starts[|history|] == Normalize(|bytes|, pos);
    assert InStep(bytes, was[0], pos, history, starts, cursors[0]);
    hide *;
    var ok := ring.Write(data);
    LoneSkipped(bytes, was, pos, history, starts, cursors[0], size, ring.readers);
    PutFacts(ring, was, starts, history, cursors, pos, drops, data);
  }

  lemma PutFacts(ring: SharedRingBuffer, was: seq<ReaderSlot>, starts: seq<nat>, history: seq<Payload>,
                 cursors: seq<nat>, pos: nat, drops: nat, data: Payload)
    requires ring.Valid() && 0 < |data| <= ring.capacity - HEADER_SIZE && |starts| == |history| + 1
    requires |was| == |cursors| == MAX_READERS && cursors[0] <= |history|
    requires var size := HEADER_SIZE + |data|; var w := FrameStart(ring.capacity, pos, size);
      var p := FirstFit(ring.capacity, starts, w, size, cursors[0]);
      && ring.writePos == Wrap(ring.capacity, w + size)
      && ring.starts == starts[|history| := w] + [Normalize(ring.capacity, ring.writePos)]
      && ring.cursors == CursorsAfter(ring.capacity, ring.readers, starts, w, size, cursors)
      && ring.dropCount >= drops && (ring.dropCount == drops <==> Fits(ring.capacity, was, w, size))
      && (Fits(ring.capacity, was, w, size) <==> FitsAt(ring.capacity, starts, w, size, cursors[0]))
      && (FitsAt(ring.capacity, starts, w, size, p) ==>
            && Normalize(ring.capacity, ring.readers[0].readPos) == starts[p]
            && ring.dropCount == drops + (p - cursors[0]))
      && ring.readers[0].active && (forall i :: 1 <= i < MAX_READERS ==> !ring.readers[i].active)
      && (ring.InStepAt(0) <==> StaysInStep(ring.capacity, starts, w, size,
        Normalize(ring.capacity, ring.readers[0].readPos)))
    ensures AfterPut(ring, starts, pos, cursors[0], drops, HEADER_SIZE + |data|)
  {
    hide FirstFit, FrameStart, FitsAt, StaysInStep, CursorAfter, InStep, Fits;
  }

  method Get(ring: SharedRingBuffer) returns (msg: Option<Payload>)
    requires ring.Valid() && LoneInStep(ring)
    modifies ring`readers, ring`cursors
    ensures ring.Valid() && LoneInStep(ring)
    ensures old(ring.cursors[0]) <= |ring.history|
    ensures if old(ring.cursors[0]) < |ring.history|
      then msg == Some(ring.history[old(ring.cursors[0])]) && ring.cursors[0] == old(ring.cursors[0]) + 1
      else msg == None && ring.cursors[0] == old(ring.cursors[0])
  {
    assert ring.InStepAt(0) && ring.cursors[0] <= |ring.history|;
    ghost var log := ring.Abs();
    assert log.slots[0] == SlotOf(ring.readers[0], ring.cursors[0]);
    hide InStep;
    msg := ring.WaitRead(0, false);
    assert ring.Abs().slots[0] == SlotOf(ring.readers[0], ring.cursors[0]);
  }

  /** 20 octets, two messages of 8, none read: the second one overwrites the first, and
      no drop is counted. */
  method OverwritesMessage() returns (msg: Option<Payload>, drops: nat)
    ensures msg == Some([2, 2, 2, 2, 2, 2, 2, 2]) && drops == 0
  {
    var ring := NewAlone(20);
    assert ring.InStepAt(0) && ring.starts == [0];
    hide LoneInStep;
    Put(ring, [1, 1, 1, 1, 1, 1, 1, 1]);
    assert ring.starts == [0, 12];
    Put(ring, [2, 2, 2, 2, 2, 2, 2, 2]);
    msg := Get(ring);
    drops := ring.dropCount;
  }

  /** 24 octets, messages of 8, 8 and 9, the first one read: the second is dropped to
      make room for the third, which the reader then gets. */
  method DropsMessage() returns (first: Option<Payload>, second: Option<Payload>, drops: nat)
    ensures first == Some([1, 1, 1, 1, 1, 1, 1, 1]) && second == Some([3, 3, 3, 3, 3, 3, 3, 3, 3])
    ensures drops == 1
  {
    var ring := NewAlone(24);
    assert ring.InStepAt(0) && ring.starts == [0];
    hide LoneInStep;
    Put(ring, [1, 1, 1, 1, 1, 1, 1, 1]);
    assert ring.starts == [0, 12];
    first := Get(ring);
    Put(ring, [2, 2, 2, 2, 2, 2, 2, 2]);
    assert ring.starts == [0, 12, 0];
    Put(ring, [3, 3, 3, 3, 3, 3, 3, 3, 3]);
    second := Get(ring);
    drops := ring.dropCount;
  }
}
