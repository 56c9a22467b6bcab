/** The abstract object both ring buffers promise to be: one ever-growing message
    history, and up to MAX_READERS readers that each own a cursor into it.  Nothing
    here mentions storage, eviction or another reader. */
module BroadcastLog {
  import opened Wrappers

  const MAX_READERS: nat := 8

  /** What a client can observe of one reader slot. */
  datatype Slot = Slot(cursor: Option<nat>, total: nat)

  datatype Log<T> = Log(history: seq<T>, slots: seq<Slot>)

  ghost predicate WellFormed<T>(log: Log<T>) {
    && |log.slots| == MAX_READERS
    && forall i :: 0 <= i < MAX_READERS && log.slots[i].cursor.Some? ==> log.slots[i].cursor.value <= |log.history|
  }

  function Empty<T>(): Log<T> {
    Log([], seq(MAX_READERS, _ => Slot(None, 0)))
  }

  /** The first slot without a cursor, or |slots|. */
  function FirstFree(slots: seq<Slot>): (i: nat)
    ensures i <= |slots|
    ensures i < |slots| ==> slots[i].cursor.None?
    ensures forall j :: 0 <= j < i ==> slots[j].cursor.Some?
  {
    if slots == [] || slots[0].cursor.None? then 0
    else
      assert forall j :: 0 < j < |slots| ==> slots[j] == slots[1..][j - 1];
      1 + FirstFree(slots[1..])
  }

  lemma {:induction false} FirstFreeIs(slots: seq<Slot>, i: nat)
    requires i < |slots| && slots[i].cursor.None?
    requires forall j :: 0 <= j < i ==> slots[j].cursor.Some?
    ensures FirstFree(slots) == i
  {
    if i > 0 {
      FirstFreeIs(slots[1..], i - 1);
    }
  }

  function Register<T>(log: Log<T>): Log<T> {
    var i := FirstFree(log.slots);
    if i < |log.slots| then log.(slots := log.slots[i := Slot(Some(|log.history|), 0)]) else log
  }

  /** The id handed out by Register: None stands for kInvalidReader. */
  function RegisteredId<T>(log: Log<T>): Option<nat> {
    var i := FirstFree(log.slots);
    if i < |log.slots| then Some(i) else None
  }

  function Unregister<T>(log: Log<T>, id: nat): Log<T> {
    if id < |log.slots| then log.(slots := log.slots[id := log.slots[id].(cursor := None)]) else log
  }

  function Append<T>(log: Log<T>, msg: T): Log<T> {
    log.(history := log.history + [msg])
  }

  function Raise(slot: Slot, floor: int): Slot {
    if slot.cursor.Some? && slot.cursor.value < floor then slot.(cursor := Some(floor)) else slot
  }

  /** Every reader that lags behind `floor` is moved up to it. */
  function Forget<T>(log: Log<T>, floor: int): (r: Log<T>)
    ensures |r.slots| == |log.slots|
  {
    log.(slots := seq(|log.slots|, i requires 0 <= i < |log.slots| => Raise(log.slots[i], floor)))
  }

  predicate CanTake<T>(log: Log<T>, id: nat) {
    id < |log.slots| && log.slots[id].cursor.Some? && log.slots[id].cursor.value < |log.history|
  }

  function Taken<T>(log: Log<T>, id: nat): Option<T> {
    if CanTake(log, id) then Some(log.history[log.slots[id].cursor.value]) else None
  }

  function Take<T>(log: Log<T>, id: nat): Log<T> {
    if CanTake(log, id)
    then log.(slots := log.slots[id := Slot(Some(log.slots[id].cursor.value + 1), log.slots[id].total + 1)])
    else log
  }
}
