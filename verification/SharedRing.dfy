/** shared_memory/shared_ring_buffer.hpp: a byte ring holding length-prefixed
    messages, with several read cursors.  Every method runs under the one
    interprocess mutex, so each is one atomic step. */
module SharedRing {
  import opened Wrappers
  import opened Bytes
  import opened BroadcastLog
  import opened RingLayout
  import opened RingDrops
  import opened RingCounts

  class SharedRingBuffer {
    const capacity: nat
    const buffer: array<Byte>
    var readers: seq<ReaderSlot>
    var writePos: nat
    var overwriteFlag: bool
    var dropCount: nat
    var totalWrites: nat

    // Every payload accepted so far, where its frame starts (starts[|history|] is
    // where the next one goes), and how many of them each slot is past.
    ghost var history: seq<Payload>
    ghost var starts: seq<nat>
    ghost var cursors: seq<nat>

    /** Holds whatever the buffer contains. */
    ghost predicate Valid()
      reads this
    {
      && HEADER_SIZE < capacity < 0x1_0000_0000
      && buffer.Length == capacity
      && |readers| == MAX_READERS
      && writePos < capacity
      && SlotsOk(capacity, readers)
      && totalWrites == |history|
      && |starts| == |history| + 1
      && starts[|history|] == Normalize(capacity, writePos)
      && |cursors| == MAX_READERS
    }

    /** The broadcast log a client has in mind. */
    ghost function Abs(): (log: Log<Payload>)
      reads this
      requires Valid()
      ensures |log.slots| == MAX_READERS
    {
      LogOf(history, readers, cursors)
    }

    /** The bytes implement the log Abs(). */
    ghost predicate Synced()
      reads this, buffer
      requires Valid()
    {
      Implements(buffer[..], readers, writePos, history, starts, cursors)
    }

    /** Reader i stands before the frame its cursor counts and can read on. */
    ghost predicate InStepAt(i: nat)
      reads this, buffer
      requires Valid() && i < MAX_READERS
    {
      InStep(buffer[..], readers[i], writePos, history, starts, cursors[i])
    }

    ghost predicate Clean(size: nat)
      reads this
      requires Valid()
    {
      CleanFor(capacity, readers, writePos, size)
    }

    constructor (capacityBytes: nat)
      requires HEADER_SIZE < capacityBytes < 0x1_0000_0000
      ensures Valid() && Synced() && fresh(buffer)
      ensures Abs() == Empty() && starts == [0] && writePos == 0
      ensures capacity == capacityBytes && dropCount == 0 && !overwriteFlag
    {
      capacity := capacityBytes;
      buffer := new Byte[capacityBytes](_ => 0);
      readers := seq(MAX_READERS, _ => ReaderSlot(false, 0, 0));
      writePos, overwriteFlag, dropCount, totalWrites := 0, false, 0, 0;
      history, starts, cursors := [], [0], seq(MAX_READERS, _ => 0);
    }

    function MaxPayloadSize(): nat {
      if capacity > HEADER_SIZE then capacity - HEADER_SIZE else 0
    }

    method RegisterReader() returns (id: Option<nat>)
      requires Valid()
      modifies this`readers, this`cursors
      ensures Valid()
      ensures Abs() == Register(old(Abs()))
      ensures id == RegisteredId(old(Abs()))
      ensures old(Synced()) ==> Synced()
      ensures id.Some? ==> id.value < MAX_READERS && readers[id.value].active && InStepAt(id.value)
      ensures forall j :: 0 <= j < MAX_READERS && id != Some(j) ==> InStepAt(j) == old(InStepAt(j))
    {
      var i := 0;
      while i < MAX_READERS
        invariant 0 <= i <= MAX_READERS
        invariant forall j :: 0 <= j < i ==> readers[j].active
        invariant readers == old(readers) && cursors == old(cursors)
      {
        if !readers[i].active {
          ghost var before := Abs();
          assert forall j :: 0 <= j <= i ==> before.slots[j] == SlotOf(readers[j], cursors[j]);
          FirstFreeIs(before.slots, i);
          readers := readers[i := ReaderSlot(true, writePos, 0)];
          cursors := cursors[i := |history|];
          assert Abs().slots == before.slots[i := Slot(Some(|history|), 0)];
          return Some(i);
        }
        i := i + 1;
      }
      assert forall j :: 0 <= j < MAX_READERS ==> Abs().slots[j] == SlotOf(readers[j], cursors[j]);
      return None;
    }

    method UnregisterReader(id: nat)
      requires Valid()
      modifies this`readers
      ensures Valid()
      ensures Abs() == Unregister(old(Abs()), id)
      ensures old(Synced()) ==> Synced()
      ensures forall j :: 0 <= j < MAX_READERS ==> InStepAt(j) == old(InStepAt(j))
    {
      if id >= MAX_READERS {
        return;
      }
      readers := readers[id := readers[id].(active := false)];
      assert Abs().slots == Unregister(old(Abs()), id).slots;
    }

    // ---- The drop loop ----------------------------------------------------

    method EffectiveReadPos(w: nat) returns (slowest: nat)
      requires Valid() && w < capacity
      ensures slowest < capacity
      ensures forall i :: 0 <= i < MAX_READERS ==> UsedOf(capacity, readers[i], w) <= Used(capacity, slowest, w)
      ensures slowest == w || exists i :: 0 <= i < MAX_READERS && IsAt(capacity, readers[i], slowest)
    {
      slowest := w;
      var maxUsed, anyActive := 0, false;
      for i := 0 to MAX_READERS
        invariant slowest < capacity && maxUsed == Used(capacity, slowest, w)
        invariant forall j :: 0 <= j < i ==> UsedOf(capacity, readers[j], w) <= maxUsed
        invariant anyActive <==> exists j :: 0 <= j < i && readers[j].active
        invariant slowest == w || exists j :: 0 <= j < i && IsAt(capacity, readers[j], slowest)
      {
        if readers[i].active {
          anyActive := true;
          var rp := Normalize(capacity, readers[i].readPos);
          var used := Used(capacity, rp, w);
          if used > maxUsed {
            maxUsed, slowest := used, rp;
          }
        }
      }
      if !anyActive {
        return w;
      }
    }

    method SlowestReaderIndex(w: nat) returns (slowest: nat)
      requires Valid() && w < capacity
      ensures slowest <= MAX_READERS
      ensures slowest == MAX_READERS <==> forall i :: 0 <= i < MAX_READERS ==> !readers[i].active
      ensures slowest < MAX_READERS ==> readers[slowest].active && forall i :: 0 <= i < MAX_READERS ==>
        UsedOf(capacity, readers[i], w) <= UsedOf(capacity, readers[slowest], w)
    {
      slowest := MAX_READERS;
      var maxUsed := 0;
      for i := 0 to MAX_READERS
        invariant slowest < i || slowest == MAX_READERS
        invariant slowest == MAX_READERS <==> forall j :: 0 <= j < i ==> !readers[j].active
        invariant slowest < MAX_READERS ==> readers[slowest].active && maxUsed == UsedOf(capacity, readers[slowest], w)
        invariant slowest < MAX_READERS ==> forall j :: 0 <= j < i ==> UsedOf(capacity, readers[j], w) <= maxUsed
      {
        if readers[i].active {
          var used := Used(capacity, Normalize(capacity, readers[i].readPos), w);
          if slowest == MAX_READERS || used > maxUsed {
            maxUsed, slowest := used, i;
          }
        }
      }
    }

    /** Moves every reader at the oldest position past one message. */
    method DropOldestForSlowest(w: nat) returns (dropped: bool, ghost at: nat)
      requires Valid() && w <= capacity - HEADER_SIZE
      modifies this`readers
      ensures Valid()
      ensures dropped <==> exists i :: 0 <= i < MAX_READERS && UsedOf(capacity, old(readers)[i], w) > 0
      ensures !dropped ==> readers == old(readers)
      ensures dropped ==>
        && at <= capacity - HEADER_SIZE
        && (forall i :: 0 <= i < MAX_READERS ==> UsedOf(capacity, old(readers)[i], w) <= Used(capacity, at, w))
        && (exists i :: 0 <= i < MAX_READERS && IsAt(capacity, old(readers)[i], at))
        && Advanced(buffer[..], old(readers), at, w, readers)
    {
      at := 0;
      var si := SlowestReaderIndex(w);
      if si >= MAX_READERS {
        return false, at;
      }
      var origPos := Normalize(capacity, readers[si].readPos);
      forall i | 0 <= i < MAX_READERS
        ensures UsedOf(capacity, old(readers)[i], w) <= Used(capacity, origPos, w)
      {
        assert UsedOf(capacity, readers[i], w) <= UsedOf(capacity, readers[si], w);
      }
      assert IsAt(capacity, readers[si], origPos);
      if origPos == w {
        return false, at;
      }
      assert UsedOf(capacity, old(readers)[si], w) > 0;
      at := origPos;
      var readPos := origPos;
      if readPos + HEADER_SIZE > capacity {
        readPos := 0;
      }
      if readPos == w {
        return false, at;
      }
      var len := ReadLength(readPos);
      if len == 0 || len > MaxPayloadSize() {
        MoveReadersAt(origPos, w);
      } else {
        var skipTo := readPos + HEADER_SIZE + len;
        if skipTo >= capacity {
          skipTo := 0;
        }
        MoveReadersAt(origPos, skipTo);
      }
      return true, at;
    }

    method MoveReadersAt(origPos: nat, target: nat)
      requires Valid() && target < capacity
      modifies this`readers
      ensures Valid()
      ensures forall i :: 0 <= i < MAX_READERS ==>
        readers[i] == if IsAt(capacity, old(readers[i]), origPos) then old(readers[i]).(readPos := target)
          else old(readers[i])
    {
      for i := 0 to MAX_READERS
        invariant Valid()
        invariant forall j :: i <= j < MAX_READERS ==> readers[j] == old(readers[j])
        invariant forall j :: 0 <= j < i ==>
          readers[j] == if IsAt(capacity, old(readers[j]), origPos) then old(readers[j]).(readPos := target)
            else old(readers[j])
      {
        if readers[i].active && Normalize(capacity, readers[i].readPos) == origPos {
          readers := readers[i := readers[i].(readPos := target)];
        }
      }
    }

    method ReadLength(pos: nat) returns (len: nat)
      requires capacity == buffer.Length && pos + HEADER_SIZE <= capacity
      ensures len == LengthAt(buffer[..], pos)
    {
      assert buffer[..][pos..pos + HEADER_SIZE] == buffer[pos..pos + HEADER_SIZE];
      len := buffer[pos] as int;
      len := len + 0x100 * (buffer[pos + 1] as int);
      len := len + 0x1_0000 * (buffer[pos + 2] as int);
      len := len + 0x100_0000 * (buffer[pos + 3] as int);
    }

    method WriteLength(pos: nat, len: nat)
      requires capacity == buffer.Length && pos + HEADER_SIZE <= capacity
      modifies buffer
      ensures buffer[..] == old(buffer[..])[..pos] + ToLe32(len) + old(buffer[..])[pos + HEADER_SIZE..]
    {
      buffer[pos] := len % 256;
      buffer[pos + 1] := len / 0x100 % 256;
      buffer[pos + 2] := len / 0x1_0000 % 256;
      buffer[pos + 3] := len / 0x100_0000 % 256;
    }

    /** Free octets at w as the slowest active reader leaves them. */
    method FreeBytes(w: nat, ghost size: nat) returns (free: nat)
      requires Valid() && w < capacity && size <= capacity
      ensures free >= size <==> Fits(capacity, readers, w, size)
    {
      var slowReadPos := EffectiveReadPos(w);
      free := capacity - Used(capacity, slowReadPos, w);
      forall i | 0 <= i < MAX_READERS
        ensures UsedOf(capacity, readers[i], w) <= Used(capacity, slowReadPos, w)
      {
        assert UsedOf(capacity, readers[i], w) <= Used(capacity, slowReadPos, w);
      }
      if slowReadPos != w {
        ghost var i :| 0 <= i < MAX_READERS && IsAt(capacity, readers[i], slowReadPos);
        assert UsedOf(capacity, readers[i], w) == Used(capacity, slowReadPos, w);
      }
    }

    /** One turn of the loop of write(). */
    method DropForRoom(w: nat, size: nat, ghost start: seq<ReaderSlot>) returns (dropped: bool)
      requires Valid() && HEADER_SIZE < size && w + size <= capacity
      requires !Fits(capacity, readers, w, size)
      requires SlotsOk(capacity, start) && SkipAlike(buffer[..], start, w, size, readers)
      modifies this`readers
      ensures Valid() && dropped
      ensures SkipAlike(buffer[..], start, w, size, readers)
      ensures Sum(Lags(capacity, readers, w)) < old(Sum(Lags(capacity, readers, w)))
      ensures |PassedBy(buffer[..], old(readers), w, size)| == |PassedBy(buffer[..], readers, w, size)| + 1
    {
      ghost var was := readers;
      ghost var i :| 0 <= i < |was| && UsedOf(capacity, was[i], w) + size > capacity;
      assert UsedOf(capacity, readers[i], w) == UsedOf(capacity, was[i], w);
      ghost var at: nat;
      dropped, at := DropOldestForSlowest(w);
      AdvanceShrinks(buffer[..], was, at, w, size, readers);
      AdvanceSkips(buffer[..], was, at, w, size, readers, start);
      AdvanceCounts(buffer[..], was, at, w, size, readers);
    }

    /** The loop of write(): drops until `size` octets at `w` are free.  Each
        reader ends where its own skipping leads; no reader affects another. */
    method MakeRoom(w: nat, size: nat) returns (room: bool)
      requires Valid()
      requires HEADER_SIZE < size && w + size <= capacity
      modifies this`readers, this`overwriteFlag, this`dropCount
      ensures Valid() && room
      ensures Skipped(buffer[..], old(readers), w, size, readers)
      ensures dropCount == old(dropCount) + |PassedBy(buffer[..], old(readers), w, size)|
      ensures dropCount == old(dropCount) <==> Fits(capacity, old(readers), w, size)
      ensures overwriteFlag == (old(overwriteFlag) || dropCount > old(dropCount))
    {
      hide Fits, SkipAlike, Skipped, Lags, Sum, PassedBy;
      ghost var start := readers;
      AlikeAtFirst(start, w, size);
      var free := FreeBytes(w, size);
      while free < size
        invariant Valid()
        invariant free >= size <==> Fits(capacity, readers, w, size)
        invariant SkipAlike(buffer[..], start, w, size, readers)
        invariant dropCount >= old(dropCount)
        invariant dropCount + |PassedBy(buffer[..], readers, w, size)| ==
          old(dropCount) + |PassedBy(buffer[..], start, w, size)|
        invariant overwriteFlag == (old(overwriteFlag) || dropCount > old(dropCount))
        decreases Sum(Lags(capacity, readers, w))
      {
        var dropped := DropForRoom(w, size, start);
        if !dropped {
          return false;
        }
        overwriteFlag := true;
        dropCount := dropCount + 1;
        free := FreeBytes(w, size);
      }
      SkippedDone(buffer[..], start, w, size, readers);
      FitsPassesNone(buffer[..], start, w, size);
      FitsPassesNone(buffer[..], readers, w, size);
      return true;
    }

    lemma AlikeAtFirst(slots: seq<ReaderSlot>, w: nat, size: nat)
      requires HEADER_SIZE < buffer.Length && SlotsOk(buffer.Length, slots)
      requires HEADER_SIZE < size && w + size <= buffer.Length
      ensures SkipAlike(buffer[..], slots, w, size, slots)
    {
    }

    /** The frame area once write() has copied the message in. */
    method PlaceFrame(w: nat, data: Payload)
      requires Valid() && 0 < |data| && w + HEADER_SIZE + |data| <= capacity
      modifies buffer
      ensures buffer[..] == old(buffer[..])[..w] + Frame(data) + old(buffer[..])[w + HEADER_SIZE + |data|..]
    {
      WriteLength(w, |data|);
      ghost var headed := buffer[..];
      for k := 0 to |data|
        invariant buffer[..] == headed[..w + HEADER_SIZE] + data[..k] + headed[w + HEADER_SIZE + k..]
      {
        buffer[w + HEADER_SIZE + k] := data[k];
      }
      FramePlaced(old(buffer[..]), w, data, headed);
    }

    method Commit(w: nat, data: Payload)
      requires Valid() && 0 < |data| && w + HEADER_SIZE + |data| <= capacity
      modifies buffer, this`writePos, this`totalWrites, this`history, this`starts
      ensures Valid()
      ensures buffer[..] == old(buffer[..])[..w] + Frame(data) + old(buffer[..])[w + HEADER_SIZE + |data|..]
      ensures writePos == Wrap(capacity, w + HEADER_SIZE + |data|)
      ensures history == old(history) + [data]
      ensures starts == old(starts)[|old(history)| := w] + [Normalize(capacity, writePos)]
    {
      PlaceFrame(w, data);
      var newWrite := w + HEADER_SIZE + |data|;
      if newWrite >= capacity {
        newWrite := 0;
      }
      writePos := newWrite;
      totalWrites := totalWrites + 1;
      starts := starts[|history| := w] + [Normalize(capacity, newWrite)];
      history := history + [data];
    }

    method Write(data: Payload) returns (ok: bool)
      requires Valid()
      modifies this, buffer
      ensures Valid()
      ensures ok <==> 0 < |data| <= capacity - HEADER_SIZE
      ensures !ok ==> unchanged(this) && unchanged(buffer)
      ensures ok ==>
        var size := HEADER_SIZE + |data|; var w := FrameStart(capacity, old(writePos), size);
        && w + size <= capacity
        && buffer[..] == old(buffer[..])[..w] + Frame(data) + old(buffer[..])[w + size..]
        && writePos == Wrap(capacity, w + size)
        && Skipped(old(buffer[..]), old(readers), w, size, readers)
        && history == old(history) + [data]
        && starts == old(starts)[|old(history)| := w] + [Normalize(capacity, writePos)]
        && cursors == CursorsAfter(capacity, readers, old(starts), w, size, old(cursors))
        && dropCount == old(dropCount) + |PassedBy(old(buffer[..]), old(readers), w, size)|
        && (dropCount == old(dropCount) <==> Fits(capacity, old(readers), w, size))
        && overwriteFlag == (old(overwriteFlag) || dropCount > old(dropCount))
      ensures ok && old(Clean(HEADER_SIZE + |data|)) ==> readers == old(readers) && dropCount == old(dropCount)
      ensures ok && old(Synced()) && old(Clean(HEADER_SIZE + |data|)) ==> Synced() && Abs() == Append(old(Abs()), data)
      ensures ok && old(Synced()) && Synced() && dropCount == old(dropCount) && cursors == old(cursors) ==>
        old(Clean(HEADER_SIZE + |data|))
      ensures ok ==> forall i :: 0 <= i < MAX_READERS && old(readers[i].active) && old(InStepAt(i)) ==>
        && old(cursors[i]) <= cursors[i] <= old(|history|)
        && (InStepAt(i) <==>
              StaysInStep(capacity, old(starts), FrameStart(capacity, old(writePos), HEADER_SIZE + |data|),
                HEADER_SIZE + |data|, Normalize(capacity, readers[i].readPos)))
    {
      if |data| == 0 {
        return false;
      }
      if |data| > MaxPayloadSize() {
        return false;
      }
      var w := Normalize(capacity, writePos);
      if w + HEADER_SIZE + |data| > capacity {
        w := 0;
      }
      ok := Store(w, data);
    }

    /** write() once the payload is known to be acceptable and w its place. */
    method Store(w: nat, data: Payload) returns (ok: bool)
      requires Valid() && 0 < |data| <= capacity - HEADER_SIZE
      requires w == FrameStart(capacity, writePos, HEADER_SIZE + |data|)
      modifies this, buffer
      ensures Valid() && ok
      ensures buffer[..] == old(buffer[..])[..w] + Frame(data) + old(buffer[..])[w + HEADER_SIZE + |data|..]
      ensures writePos == Wrap(capacity, w + HEADER_SIZE + |data|)
      ensures Skipped(old(buffer[..]), old(readers), w, HEADER_SIZE + |data|, readers)
      ensures history == old(history) + [data]
      ensures starts == old(starts)[|old(history)| := w] + [Normalize(capacity, writePos)]
      ensures cursors == CursorsAfter(capacity, readers, old(starts), w, HEADER_SIZE + |data|, old(cursors))
      ensures dropCount == old(dropCount) + |PassedBy(old(buffer[..]), old(readers), w, HEADER_SIZE + |data|)|
      ensures dropCount == old(dropCount) <==> Fits(capacity, old(readers), w, HEADER_SIZE + |data|)
      ensures overwriteFlag == (old(overwriteFlag) || dropCount > old(dropCount))
      ensures old(Clean(HEADER_SIZE + |data|)) ==> readers == old(readers) && dropCount == old(dropCount)
      ensures old(Clean(HEADER_SIZE + |data|)) && old(Synced()) ==> Synced() && cursors == old(cursors)
      ensures old(Synced()) && Synced() && dropCount == old(dropCount) && cursors == old(cursors) ==>
        old(Clean(HEADER_SIZE + |data|))
      ensures forall i :: 0 <= i < MAX_READERS && old(readers[i].active) && old(InStepAt(i)) ==>
        && old(cursors[i]) <= cursors[i] <= old(|history|)
        && (InStepAt(i) <==>
              StaysInStep(capacity, old(starts), w, HEADER_SIZE + |data|, Normalize(capacity, readers[i].readPos)))
    {
      ghost var was := readers;
      ghost var bytes := buffer[..];
      var room := MakeRoom(w, HEADER_SIZE + |data|);
      if !room {
        return false;
      }
      Commit(w, data);
      cursors := CursorsAfter(capacity, readers, old(starts), w, HEADER_SIZE + |data|, old(cursors));
      StepsKept(bytes, was, old(writePos), old(history), old(starts), old(cursors), data);
      return true;
    }

    /** What the write just done did to the readers, from the ring as it was before. */
    lemma StepsKept(bytes: seq<Byte>, was: seq<ReaderSlot>, pos: nat, messages: seq<Payload>, places: seq<nat>,
                    counts: seq<nat>, data: Payload)
      requires Valid() && |bytes| == capacity && |places| == |messages| + 1 && |counts| == |was| == MAX_READERS
      requires SlotsOk(capacity, was) && pos < capacity && 0 < |data| <= capacity - HEADER_SIZE
      requires places[|messages|] == Normalize(capacity, pos)
      requires var size := HEADER_SIZE + |data|; var w := FrameStart(capacity, pos, size);
        && Skipped(bytes, was, w, size, readers)
        && buffer[..] == bytes[..w] + Frame(data) + bytes[w + size..] && writePos == Wrap(capacity, w + size)
        && history == messages + [data] && starts == places[|messages| := w] + [Normalize(capacity, writePos)]
        && cursors == CursorsAfter(capacity, readers, places, w, size, counts)
      ensures var size := HEADER_SIZE + |data|;
        && (CleanFor(capacity, was, pos, size) ==> readers == was)
        && (CleanFor(capacity, was, pos, size) && Implements(bytes, was, pos, messages, places, counts) ==>
              Synced() && cursors == counts)
        && (Implements(bytes, was, pos, messages, places, counts) && Synced() && cursors == counts ==>
              Fits(capacity, was, FrameStart(capacity, pos, size), size) ==> CleanFor(capacity, was, pos, size))
        && forall i :: 0 <= i < MAX_READERS && was[i].active ==>
             InStep(bytes, was[i], pos, messages, places, counts[i]) ==>
             && counts[i] <= cursors[i] <= |messages|
             && (InStepAt(i) <==> StaysInStep(capacity, places, FrameStart(capacity, pos, size), size,
                                              Normalize(capacity, readers[i].readPos)))
    {
      var size := HEADER_SIZE + |data|;
      CleanWrite(bytes, was, pos, messages, places, counts, data, readers);
      WriteKeepsStep(bytes, was, pos, messages, places, counts, data, readers);
      hide Implements, InStep, CleanFor, CursorsAfter, StaysInStep, Skipped, Frame;
      if CleanFor(capacity, was, pos, size) && Implements(bytes, was, pos, messages, places, counts) {
        CleanCursors(bytes, was, pos, messages, places, counts, size);
      }
    }

    /** The call after its wait has returned. */
    method WaitRead(id: nat, stopped: bool) returns (msg: Option<Payload>)
      requires Valid()
      modifies this`readers, this`cursors
      ensures Valid()
      ensures stopped || id >= MAX_READERS || !old(readers[id].active) ==>
        msg == None && readers == old(readers) && cursors == old(cursors)
      ensures !stopped && id < MAX_READERS && old(readers[id].active) ==>
        var r := Scan(buffer[..], old(readers[id].readPos), writePos);
        && msg == r.msg
        && readers == old(readers)[id := SlotAfter(old(readers[id]), r)]
        && cursors == if r.msg.Some? then old(cursors)[id := old(cursors)[id] + 1] else old(cursors)
      ensures old(Synced()) ==> Synced() && Abs() == if stopped then old(Abs()) else Take(old(Abs()), id)
      ensures old(Synced()) && !stopped ==> msg == Taken(old(Abs()), id)
      ensures !stopped && id < MAX_READERS && old(readers[id].active) && old(InStepAt(id)) ==>
        msg == Taken(old(Abs()), id) && Abs() == Take(old(Abs()), id) && InStepAt(id)
      ensures forall j :: 0 <= j < MAX_READERS && j != id ==> InStepAt(j) == old(InStepAt(j))
    {
      if id >= MAX_READERS {
        return None;
      }
      if !readers[id].active || stopped {
        return None;
      }
      ghost var was := readers;
      msg := Read(id);
      ReadKeepsLog(buffer[..], was, writePos, history, starts, old(cursors), id);
    }

    /** waitRead past its wait: the reader is active and not stopped. */
    method Read(id: nat) returns (msg: Option<Payload>)
      requires Valid() && id < MAX_READERS && readers[id].active
      modifies this`readers, this`cursors
      ensures Valid()
      ensures var r := Scan(buffer[..], old(readers[id].readPos), writePos);
        && msg == r.msg
        && readers == old(readers)[id := SlotAfter(old(readers[id]), r)]
        && cursors == if r.msg.Some? then old(cursors)[id := old(cursors)[id] + 1] else old(cursors)
    {
      var reader := readers[id];
      var readPos := Normalize(capacity, reader.readPos);
      var w := Normalize(capacity, writePos);
      if readPos == w {
        return None;
      }
      if readPos + HEADER_SIZE > capacity {
        readPos := 0;
      }
      var len := ReadLength(readPos);
      if len == 0 || len > MaxPayloadSize() {
        readers := readers[id := reader.(readPos := w)];
        return None;
      }
      if readPos + HEADER_SIZE + len > capacity {
        readPos := 0;
        if readPos == w {
          readers := readers[id := reader.(readPos := readPos)];
          return None;
        }
        len := ReadLength(readPos);
        if len == 0 || len > MaxPayloadSize() {
          readers := readers[id := reader.(readPos := w)];
          return None;
        }
      }
      msg := CopyOut(id, readPos, len);
    }

    method CopyOut(id: nat, readPos: nat, len: nat) returns (msg: Option<Payload>)
      requires Valid() && id < MAX_READERS
      requires readPos + HEADER_SIZE + len <= capacity && len == LengthAt(buffer[..], readPos)
      modifies this`readers, this`cursors
      ensures Valid()
      ensures var r := Extract(buffer[..], readPos);
        && msg == r.msg
        && readers == old(readers)[id := SlotAfter(old(readers)[id], r)]
        && cursors == old(cursors)[id := old(cursors)[id] + 1]
    {
      msg := Some(buffer[readPos + HEADER_SIZE..readPos + HEADER_SIZE + len]);
      assert msg.value == buffer[..][readPos + HEADER_SIZE..readPos + HEADER_SIZE + len];
      var newRead := readPos + HEADER_SIZE + len;
      if newRead >= capacity {
        newRead := 0;
      }
      readers := readers[id := readers[id].(readPos := newRead, totalReads := readers[id].totalReads + 1)];
      cursors := cursors[id := cursors[id] + 1];
    }
  }
}
