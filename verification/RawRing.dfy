/** raw_data_ring_buffer.hpp: the in-memory broadcast queue between the telnet
    reception worker and its consumers.  Every public method takes the mutex for
    its whole body, so each is one atomic step here. */
module RawRing {
  import opened Wrappers
  import opened BroadcastLog

  datatype RawDataMessage = RawDataMessage(command: string, response: string)

  datatype ReaderSlot = ReaderSlot(active: bool, readIndex: nat, totalReads: nat)

  /** One call on the buffer.  WaitPop is the call after its wait has returned. */
  datatype Op =
    | Register
    | Unregister(id: nat)
    | Push(msg: RawDataMessage)
    | WaitPop(id: nat, stopped: bool)
    | TryPop(id: nat)
    | Clear

  datatype Reply =
    | Id(id: Option<nat>)
    | Pushed(clean: bool)
    | Message(msg: Option<RawDataMessage>)
    | Nothing

  type State = Log<RawDataMessage>

  /** push: append, and every reader more than maxSize behind loses the excess. */
  function PushState(maxSize: nat, log: State, msg: RawDataMessage): State {
    Forget(Append(log, msg), |log.history| + 1 - maxSize)
  }

  function ClearState(log: State): State {
    Forget(log, |log.history|)
  }

  function Step(maxSize: nat, log: State, op: Op): State {
    match op
    case Register => BroadcastLog.Register(log)
    case Unregister(id) => BroadcastLog.Unregister(log, id)
    case Push(msg) => PushState(maxSize, log, msg)
    case WaitPop(id, stopped) => if stopped then log else Take(log, id)
    case TryPop(id) => Take(log, id)
    case Clear => ClearState(log)
  }

  /** The message an operation hands to its caller. */
  function Delivered(log: State, op: Op): Option<RawDataMessage> {
    match op
    case WaitPop(id, stopped) => if stopped then None else Taken(log, id)
    case TryPop(id) => Taken(log, id)
    case _ => None
  }

  class RawDataRingBuffer {
    const maxSize: nat
    const readers: array<ReaderSlot>
    var queue: seq<RawDataMessage>
    var baseIndex: nat
    var totalWrites: nat
    var dropCount: nat
    ghost var history: seq<RawDataMessage>
    ghost var trimCount: nat
    ghost var clearCount: nat

    ghost predicate Valid()
      reads this, readers
    {
      && maxSize >= 1
      && readers.Length == MAX_READERS
      && totalWrites == |history|
      && baseIndex + |queue| == totalWrites
      && queue == history[baseIndex..]
      && |queue| <= maxSize
      && baseIndex == dropCount + trimCount + clearCount
      && forall i :: 0 <= i < MAX_READERS && readers[i].active ==> baseIndex <= readers[i].readIndex <= totalWrites
    }

    ghost function SlotAt(i: nat): Slot
      reads this, readers
      requires i < readers.Length
    {
      Slot(if readers[i].active then Some(readers[i].readIndex) else None, readers[i].totalReads)
    }

    /** The abstract log the buffer implements. */
    ghost function Abs(): (log: State)
      reads this, readers
      ensures |log.slots| == readers.Length
      ensures log.history == history
    {
      Log(history, seq(readers.Length, i requires 0 <= i < readers.Length reads this, readers => SlotAt(i)))
    }

    /** No message is kept that every active reader has consumed. */
    ghost predicate Trimmed()
      reads this, readers
      requires readers.Length == MAX_READERS
    {
      (exists i :: 0 <= i < MAX_READERS && readers[i].active) ==>
        |queue| == 0 || exists i :: 0 <= i < MAX_READERS && readers[i].active && readers[i].readIndex == baseIndex
    }

    constructor (maxMessages: nat)
      requires maxMessages >= 1
      ensures Valid() && fresh(readers)
      ensures Abs() == Empty()
      ensures maxSize == maxMessages && dropCount == 0 && readers.Length == 8
    {
      maxSize := maxMessages;
      readers := new ReaderSlot[MAX_READERS](_ => ReaderSlot(false, 0, 0));
      queue, baseIndex, totalWrites, dropCount := [], 0, 0, 0;
      history, trimCount, clearCount := [], 0, 0;
    }

    method RegisterReader() returns (id: Option<nat>)
      requires Valid()
      modifies readers
      ensures Valid()
      ensures Abs() == BroadcastLog.Register(old(Abs()))
      ensures id == RegisteredId(old(Abs()))
    {
      var i := 0;
      while i < MAX_READERS
        invariant 0 <= i <= MAX_READERS
        invariant forall j :: 0 <= j < i ==> readers[j].active
        invariant Abs() == old(Abs()) && Valid()
      {
        if !readers[i].active {
          ghost var before := Abs();
          assert forall j :: 0 <= j <= i ==> before.slots[j] == SlotAt(j);
          FirstFreeIs(before.slots, i);
          readers[i] := ReaderSlot(true, baseIndex + |queue|, 0);
          assert Abs().slots == before.slots[i := Slot(Some(|history|), 0)];
          return Some(i);
        }
        i := i + 1;
      }
      return None;
    }

    method UnregisterReader(id: nat)
      requires Valid()
      modifies this, readers
      ensures Valid()
      ensures Abs() == BroadcastLog.Unregister(old(Abs()), id)
      ensures dropCount == old(dropCount) && clearCount == old(clearCount)
      ensures id < MAX_READERS ==> Trimmed()
    {
      if id >= MAX_READERS {
        return;
      }
      readers[id] := readers[id].(active := false);
      assert Abs().slots == BroadcastLog.Unregister(old(Abs()), id).slots;
      TrimConsumed();
    }

    /** Returns true iff nothing was dropped; at most one message is. */
    method Push(msg: RawDataMessage) returns (clean: bool)
      requires Valid()
      modifies this, readers
      ensures Valid()
      ensures Abs() == PushState(maxSize, old(Abs()), msg)
      ensures clean == (old(|queue|) < maxSize)
      ensures dropCount == old(dropCount) + (if clean then 0 else 1)
      ensures trimCount == old(trimCount) && clearCount == old(clearCount)
      ensures queue == (if clean then old(queue) else old(queue[1..])) + [msg]
    {
      var dropped := false;
      ghost var slots0 := Abs().slots;
      while |queue| >= maxSize
        invariant Valid()
        invariant history == old(history)
        invariant dropped ==> |queue| < maxSize
        invariant baseIndex == old(baseIndex) + (if dropped then 1 else 0)
        invariant dropCount == old(dropCount) + (if dropped then 1 else 0)
        invariant trimCount == old(trimCount) && clearCount == old(clearCount)
        invariant !dropped ==> Abs() == old(Abs()) && queue == old(queue)
        invariant dropped ==> queue == old(queue[1..]) && old(|queue|) == maxSize
        invariant dropped ==> Abs().slots == Forget(old(Abs()), old(baseIndex) + 1).slots
        decreases |queue|
      {
        AdvanceStale();
        queue := queue[1..];
        baseIndex := baseIndex + 1;
        dropped := true;
        dropCount := dropCount + 1;
      }
      queue := queue + [msg];
      totalWrites := totalWrites + 1;
      history := history + [msg];
      clean := !dropped;
      assert Abs().slots == PushState(maxSize, old(Abs()), msg).slots;
    }

    /** The inner loop of push: readers still at the oldest message step past it. */
    method AdvanceStale()
      requires Valid() && |queue| > 0
      modifies readers
      ensures Valid()
      ensures Abs() == Forget(old(Abs()), baseIndex + 1)
      ensures forall i :: 0 <= i < MAX_READERS && readers[i].active ==> baseIndex < readers[i].readIndex
    {
      var i := 0;
      while i < MAX_READERS
        invariant 0 <= i <= MAX_READERS
        invariant forall j :: 0 <= j < i ==> SlotAt(j) == Raise(old(SlotAt(j)), baseIndex + 1)
        invariant forall j :: i <= j < MAX_READERS ==> readers[j] == old(readers[j])
        invariant Valid()
      {
        if readers[i].active && readers[i].readIndex <= baseIndex {
          readers[i] := readers[i].(readIndex := baseIndex + 1);
        }
        i := i + 1;
      }
      assert Abs().slots == Forget(old(Abs()), baseIndex + 1).slots;
      forall j | 0 <= j < MAX_READERS && readers[j].active
        ensures baseIndex < readers[j].readIndex
      {
        assert SlotAt(j) == Raise(old(SlotAt(j)), baseIndex + 1);
      }
    }

    method WaitPop(id: nat, stopped: bool) returns (msg: Option<RawDataMessage>)
      requires Valid()
      modifies this, readers
      ensures Valid()
      ensures msg == Delivered(old(Abs()), Op.WaitPop(id, stopped))
      ensures Abs() == Step(maxSize, old(Abs()), Op.WaitPop(id, stopped))
      ensures dropCount == old(dropCount) && clearCount == old(clearCount)
      ensures msg.Some? ==> Trimmed()
    {
      if id >= MAX_READERS {
        return None;
      }
      if stopped {
        return None;
      }
      msg := TryPop(id);
    }

    method TryPop(id: nat) returns (msg: Option<RawDataMessage>)
      requires Valid()
      modifies this, readers
      ensures Valid()
      ensures msg == Taken(old(Abs()), id)
      ensures Abs() == Take(old(Abs()), id)
      ensures dropCount == old(dropCount) && clearCount == old(clearCount)
      ensures msg.Some? ==> Trimmed()
    {
      if id >= MAX_READERS {
        return None;
      }
      var reader := readers[id];
      if !reader.active || reader.readIndex >= baseIndex + |queue| {
        return None;
      }
      var dequeIdx := reader.readIndex - baseIndex;
      msg := Some(queue[dequeIdx]);
      readers[id] := ReaderSlot(true, reader.readIndex + 1, reader.totalReads + 1);
      assert Abs().slots == Take(old(Abs()), id).slots;
      TrimConsumed();
    }

    method Clear()
      requires Valid()
      modifies this, readers
      ensures Valid() && queue == []
      ensures Abs() == ClearState(old(Abs()))
      ensures clearCount == old(clearCount) + old(|queue|)
      ensures dropCount == old(dropCount) && trimCount == old(trimCount)
    {
      baseIndex := baseIndex + |queue|;
      clearCount := clearCount + |queue|;
      queue := [];
      var i := 0;
      while i < MAX_READERS
        invariant 0 <= i <= MAX_READERS
        invariant forall j :: 0 <= j < i ==> SlotAt(j) == Raise(old(SlotAt(j)), |history|)
        invariant forall j :: i <= j < MAX_READERS ==> readers[j] == old(readers[j])
        invariant history == old(history) && queue == [] && baseIndex == totalWrites == |history|
        invariant dropCount == old(dropCount) && trimCount == old(trimCount)
        invariant clearCount == old(clearCount) + old(|queue|)
      {
        if readers[i].active {
          readers[i] := readers[i].(readIndex := baseIndex);
        }
        i := i + 1;
      }
      assert Abs().slots == ClearState(old(Abs())).slots;
      forall j | 0 <= j < MAX_READERS && readers[j].active
        ensures readers[j].readIndex == baseIndex
      {
        assert SlotAt(j) == Raise(old(SlotAt(j)), |history|);
      }
    }

    /** Drops the prefix every active reader has passed: invisible in Abs(). */
    method TrimConsumed()
      requires Valid()
      modifies this
      ensures Valid() && Trimmed()
      ensures Abs() == old(Abs())
      ensures dropCount == old(dropCount) && clearCount == old(clearCount)
      ensures totalWrites == old(totalWrites)
    {
      var minIdx := baseIndex + |queue|;
      var anyActive := false;
      var i := 0;
      while i < MAX_READERS
        invariant 0 <= i <= MAX_READERS
        invariant anyActive <==> exists j :: 0 <= j < i && readers[j].active
        invariant baseIndex <= minIdx <= baseIndex + |queue|
        invariant forall j :: 0 <= j < i && readers[j].active ==> minIdx <= readers[j].readIndex
        invariant minIdx == baseIndex + |queue| ||
          exists j :: 0 <= j < i && readers[j].active && readers[j].readIndex == minIdx
      {
        if readers[i].active {
          anyActive := true;
          if readers[i].readIndex < minIdx {
            minIdx := readers[i].readIndex;
          }
        }
        i := i + 1;
      }
      if !anyActive {
        return;
      }
      while baseIndex < minIdx && |queue| > 0
        invariant baseIndex <= minIdx <= baseIndex + |queue| == totalWrites == |history|
        invariant queue == history[baseIndex..]
        invariant baseIndex == dropCount + trimCount + clearCount
        invariant |queue| <= maxSize
        invariant history == old(history) && totalWrites == old(totalWrites)
        invariant dropCount == old(dropCount) && clearCount == old(clearCount)
      {
        queue := queue[1..];
        baseIndex := baseIndex + 1;
        trimCount := trimCount + 1;
      }
      assert Abs().slots == old(Abs().slots);
    }
  }
}
