/** Whole runs of the message ring: any interleaving of calls by any number of
    producers and consumers is a sequence of atomic operations. */
module RawRingRuns {
  import opened Wrappers
  import opened BroadcastLog
  import opened Sequences
  import opened RawRing

  type Message = RawDataMessage

  function Run(maxSize: nat, log: State, ops: seq<Op>): State {
    if ops == [] then log
    else Step(maxSize, Run(maxSize, log, ops[..|ops| - 1]), ops[|ops| - 1])
  }

  method Perform(ring: RawDataRingBuffer, op: Op) returns (msg: Option<Message>)
    requires ring.Valid()
    modifies ring, ring.readers
    ensures ring.Valid()
    ensures ring.Abs() == Step(ring.maxSize, old(ring.Abs()), op)
    ensures msg == Delivered(old(ring.Abs()), op)
  {
    msg := None;
    match op {
      case Register => var _ := ring.RegisterReader();
      case Unregister(id) => ring.UnregisterReader(id);
      case Push(m) => var _ := ring.Push(m);
      case WaitPop(id, stopped) => msg := ring.WaitPop(id, stopped);
      case TryPop(id) => msg := ring.TryPop(id);
      case Clear => ring.Clear();
    }
  }

  lemma RunOneMore(maxSize: nat, log: State, ops: seq<Op>, k: nat)
    requires k < |ops|
    ensures Run(maxSize, log, ops[..k + 1]) == Step(maxSize, Run(maxSize, log, ops[..k]), ops[k])
  {
    assert ops[..k + 1][..k] == ops[..k];
  }

  /** Executes `ops` on a real buffer: what the callers see is what the log says. */
  method Execute(maxMessages: nat, ops: seq<Op>) returns (ring: RawDataRingBuffer, delivered: seq<Option<Message>>)
    requires maxMessages >= 1
    ensures ring.Valid() && ring.maxSize == maxMessages
    ensures ring.Abs() == Run(maxMessages, Empty(), ops)
    ensures |ring.queue| <= maxMessages
    ensures |ring.history| == |ring.queue| + ring.dropCount + ring.trimCount + ring.clearCount
    ensures |delivered| == |ops|
    ensures forall k :: 0 <= k < |ops| ==> delivered[k] == Delivered(Run(maxMessages, Empty(), ops[..k]), ops[k])
  {
    ring, delivered := ExecuteAll(maxMessages, ops);
  }

  /** What the first calls of a run deliver. */
  ghost predicate AsSpecified(maxSize: nat, ops: seq<Op>, delivered: seq<Option<Message>>) {
    && |delivered| <= |ops|
    && forall k :: 0 <= k < |delivered| ==> delivered[k] == Delivered(Run(maxSize, Empty(), ops[..k]), ops[k])
  }

  lemma OneMoreAsSpecified(maxSize: nat, ops: seq<Op>, delivered: seq<Option<Message>>, msg: Option<Message>)
    requires AsSpecified(maxSize, ops, delivered) && |delivered| < |ops|
    requires msg == Delivered(Run(maxSize, Empty(), ops[..|delivered|]), ops[|delivered|])
    ensures AsSpecified(maxSize, ops, delivered + [msg])
  {
    hide Run, Delivered;
  }

  method ExecuteAll(maxMessages: nat, ops: seq<Op>) returns (ring: RawDataRingBuffer, delivered: seq<Option<Message>>)
    requires maxMessages >= 1
    ensures ring.Valid() && ring.maxSize == maxMessages
    ensures ring.Abs() == Run(maxMessages, Empty(), ops)
    ensures AsSpecified(maxMessages, ops, delivered)
    ensures |delivered| == |ops|
  {
    assert Run(maxMessages, Empty(), ops[..0]) == Empty();
    delivered := [];
    assert AsSpecified(maxMessages, ops, delivered);
    hide *;
    ring := new RawDataRingBuffer(maxMessages);
    for k := 0 to |ops|
      invariant ring.Valid() && ring.maxSize == maxMessages && fresh(ring) && fresh(ring.readers)
      invariant ring.Abs() == Run(maxMessages, Empty(), ops[..k])
      invariant |delivered| == k && AsSpecified(maxMessages, ops, delivered)
    {
      var msg := Perform(ring, ops[k]);
      OneMoreAsSpecified(maxMessages, ops, delivered, msg);
      delivered := delivered + [msg];
      RunOneMore(maxMessages, Empty(), ops, k);
    }
    assert ops[..|ops|] == ops;
  }

  lemma StepWellFormed(maxSize: nat, log: State, op: Op)
    requires maxSize >= 1 && WellFormed(log)
    ensures WellFormed(Step(maxSize, log, op))
    ensures log.history <= Step(maxSize, log, op).history
  {
  }

  /** No reader is more than maxSize messages behind. */
  ghost predicate Recent(maxSize: nat, log: State) {
    forall i :: 0 <= i < |log.slots| && log.slots[i].cursor.Some? ==>
      |log.history| - log.slots[i].cursor.value <= maxSize
  }

  lemma StepRecent(maxSize: nat, log: State, op: Op)
    requires maxSize >= 1 && WellFormed(log) && Recent(maxSize, log)
    ensures Recent(maxSize, Step(maxSize, log, op))
  {
  }

  lemma {:induction false} RunWellFormed(maxSize: nat, log: State, ops: seq<Op>)
    requires maxSize >= 1 && WellFormed(log)
    ensures WellFormed(Run(maxSize, log, ops))
    ensures log.history <= Run(maxSize, log, ops).history
    ensures Recent(maxSize, log) ==> Recent(maxSize, Run(maxSize, log, ops))
  {
    if ops != [] {
      var before := Run(maxSize, log, ops[..|ops| - 1]);
      hide Step, Recent;
      RunWellFormed(maxSize, log, ops[..|ops| - 1]);
      StepWellFormed(maxSize, before, ops[|ops| - 1]);
      if Recent(maxSize, log) {
        StepRecent(maxSize, before, ops[|ops| - 1]);
      }
    }
  }

  // ---- Reader isolation ---------------------------------------------------

  /** All that the owner of one reader slot can notice of an operation. */
  datatype View = Wrote(msg: Message) | Opened | Closed | Asked | Cleared | Unseen

  function ViewOf(log: State, op: Op, id: nat): View {
    match op
    case Push(msg) => Wrote(msg)
    case Clear => Cleared
    case Register => if RegisteredId(log) == Some(id) then Opened else Unseen
    case Unregister(j) => if j == id then Closed else Unseen
    case WaitPop(j, stopped) => if j == id && !stopped then Asked else Unseen
    case TryPop(j) => if j == id then Asked else Unseen
  }

  function Views(maxSize: nat, ops: seq<Op>, id: nat): seq<View> {
    if ops == [] then []
    else
      var rest := ops[..|ops| - 1];
      Views(maxSize, rest, id) + [ViewOf(Run(maxSize, Empty(), rest), ops[|ops| - 1], id)]
  }

  predicate Pops(op: Op, id: nat) {
    (op.WaitPop? || op.TryPop?) && op.id == id
  }

  function Got(log: State, op: Op, id: nat): seq<Message> {
    if Pops(op, id) && Delivered(log, op).Some? then [Delivered(log, op).value] else []
  }

  /** The messages reader slot `id` is handed during the run. */
  function Received(maxSize: nat, log: State, ops: seq<Op>, id: nat): seq<Message> {
    if ops == [] then []
    else
      var rest := ops[..|ops| - 1];
      Received(maxSize, log, rest, id) + Got(Run(maxSize, log, rest), ops[|ops| - 1], id)
  }

  /** The private specification of one reader: it knows of no other reader.  `total`
      counts what was received since the slot was last registered. */
  datatype Private = Private(written: seq<Message>, cursor: Option<nat>, received: seq<Message>, total: nat)

  function PrivateStep(maxSize: nat, p: Private, view: View): Private {
    match view
    case Unseen => p
    case Opened => p.(cursor := Some(|p.written|), total := 0)
    case Closed => p.(cursor := None)
    case Cleared => if p.cursor.Some? then p.(cursor := Some(|p.written|)) else p
    case Wrote(msg) =>
      p.(written := p.written + [msg],
         cursor := if p.cursor.Some? && p.cursor.value < |p.written| + 1 - maxSize
                   then Some(|p.written| + 1 - maxSize) else p.cursor)
    case Asked =>
      if p.cursor.Some? && p.cursor.value < |p.written|
      then p.(cursor := Some(p.cursor.value + 1), received := p.received + [p.written[p.cursor.value]],
              total := p.total + 1)
      else p
  }

  function PrivateRun(maxSize: nat, views: seq<View>): Private {
    if views == [] then Private([], None, [], 0)
    else PrivateStep(maxSize, PrivateRun(maxSize, views[..|views| - 1]), views[|views| - 1])
  }

  /** The private specification's state for slot `id`, read off a log. */
  function PrivateOf(log: State, id: nat, received: seq<Message>): Private
    requires id < |log.slots|
  {
    Private(log.history, log.slots[id].cursor, received, log.slots[id].total)
  }

  lemma IsolationStep(maxSize: nat, log: State, op: Op, id: nat, received: seq<Message>)
    requires maxSize >= 1 && WellFormed(log) && id < MAX_READERS
    ensures WellFormed(Step(maxSize, log, op))
    ensures PrivateStep(maxSize, PrivateOf(log, id, received), ViewOf(log, op, id))
         == PrivateOf(Step(maxSize, log, op), id, received + Got(log, op, id))
  {
    StepWellFormed(maxSize, log, op);
    assert received + [] == received;
  }

  /** In every interleaving, what a reader receives is what its private
      specification computes from its own view of the run. */
  lemma {:induction false} Isolation(maxSize: nat, ops: seq<Op>, id: nat)
    requires maxSize >= 1 && id < MAX_READERS
    ensures WellFormed(Run(maxSize, Empty(), ops))
    ensures PrivateRun(maxSize, Views(maxSize, ops, id))
         == PrivateOf(Run(maxSize, Empty(), ops), id, Received(maxSize, Empty(), ops, id))
  {
    if ops != [] {
      var rest, op := ops[..|ops| - 1], ops[|ops| - 1];
      Isolation(maxSize, rest, id);
      IsolationStep(maxSize, Run(maxSize, Empty(), rest), op, id, Received(maxSize, Empty(), rest, id));
      var log := Run(maxSize, Empty(), rest);
      var views := Views(maxSize, ops, id);
      assert views[..|views| - 1] == Views(maxSize, rest, id);
      assert views[|views| - 1] == ViewOf(log, op, id);
    }
  }

  /** Two runs that look alike to a reader deliver it the same messages,
      whatever the other readers do in either of them. */
  lemma NonInterference(maxSize: nat, ops1: seq<Op>, ops2: seq<Op>, id: nat)
    requires maxSize >= 1 && id < MAX_READERS
    requires Views(maxSize, ops1, id) == Views(maxSize, ops2, id)
    ensures Received(maxSize, Empty(), ops1, id) == Received(maxSize, Empty(), ops2, id)
  {
    Isolation(maxSize, ops1, id);
    Isolation(maxSize, ops2, id);
  }

  // ---- Bounded loss -------------------------------------------------------

  predicate Leaves(op: Op, id: nat) {
    op.Clear? || op == Unregister(id) || Pops(op, id)
  }

  function Max(a: int, b: int): int { if a < b then b else a }

  lemma CursorStep(maxSize: nat, log: State, op: Op, id: nat)
    requires maxSize >= 1 && WellFormed(log) && id < MAX_READERS && log.slots[id].cursor.Some?
    requires |log.history| - log.slots[id].cursor.value <= maxSize
    requires !Leaves(op, id)
    ensures var next := Step(maxSize, log, op);
      WellFormed(next) && next.slots[id].cursor == Some(Max(log.slots[id].cursor.value, |next.history| - maxSize))
  {
    StepWellFormed(maxSize, log, op);
  }

  /** With no operation of its own, a registered reader's cursor is exactly
      max(where it was, history length - maxSize). */
  lemma {:induction false} CursorExact(maxSize: nat, log: State, ops: seq<Op>, id: nat)
    requires maxSize >= 1 && WellFormed(log) && id < MAX_READERS && log.slots[id].cursor.Some?
    requires |log.history| - log.slots[id].cursor.value <= maxSize
    requires forall k :: 0 <= k < |ops| ==> !Leaves(ops[k], id)
    ensures WellFormed(Run(maxSize, log, ops))
    ensures Run(maxSize, log, ops).slots[id].cursor
         == Some(Max(log.slots[id].cursor.value, |Run(maxSize, log, ops).history| - maxSize))
  {
    if ops != [] {
      var rest := ops[..|ops| - 1];
      CursorExact(maxSize, log, rest, id);
      CursorStep(maxSize, Run(maxSize, log, rest), ops[|ops| - 1], id);
    }
  }

  /** So in every run from an empty ring, from any point on at which the reader is
      registered and as long as it makes no call of its own. */
  lemma CursorInEveryRun(maxSize: nat, before: seq<Op>, ops: seq<Op>, id: nat)
    requires maxSize >= 1 && id < MAX_READERS
    requires forall k :: 0 <= k < |ops| ==> !Leaves(ops[k], id)
    ensures var log := Run(maxSize, Empty(), before); var end := Run(maxSize, log, ops);
      && WellFormed(log) && WellFormed(end)
      && (log.slots[id].cursor.Some? ==>
           end.slots[id].cursor == Some(Max(log.slots[id].cursor.value, |end.history| - maxSize)))
  {
    hide Run, Step, Leaves;
    RunWellFormed(maxSize, Empty(), before);
    var log := Run(maxSize, Empty(), before);
    RunWellFormed(maxSize, log, ops);
    if log.slots[id].cursor.Some? {
      CursorExact(maxSize, log, ops, id);
    }
  }

  /** Positions in the history of the messages handed to slot `id`. */
  function Positions(maxSize: nat, log: State, ops: seq<Op>, id: nat): seq<nat> {
    if ops == [] then []
    else
      var rest := ops[..|ops| - 1];
      var before := Run(maxSize, log, rest);
      var op := ops[|ops| - 1];
      Positions(maxSize, log, rest, id)
      + (if Pops(op, id) && Delivered(before, op).Some? then [before.slots[id].cursor.value] else [])
  }

  /** An operation that hands slot `id` a message moves its cursor past that message;
      any other leaves the cursor, raises it, or sets it to the end of the history. */
  lemma DeliveryStep(maxSize: nat, log: State, op: Op, id: nat)
    requires maxSize >= 1 && WellFormed(log) && id < MAX_READERS
    ensures var next := Step(maxSize, log, op); var c := log.slots[id].cursor; var c' := next.slots[id].cursor;
      && WellFormed(next) && log.history <= next.history
      && (c'.Some? ==> c'.value == |next.history| || (c.Some? && c.value <= c'.value))
      && (Pops(op, id) && Delivered(log, op).Some? ==>
          c.Some? && c.value < |log.history| && c' == Some(c.value + 1)
            && Delivered(log, op).value == log.history[c.value])
  {
    StepWellFormed(maxSize, log, op);
  }

  /** The messages `got` stand in the history at the increasing positions `at`, all
      below the cursor. */
  ghost predicate Placed(history: seq<Message>, cursor: Option<nat>, at: seq<nat>, got: seq<Message>) {
    && Increasing(at)
    && |at| == |got|
    && (forall i :: 0 <= i < |at| ==> at[i] < |history| && history[at[i]] == got[i])
    && (cursor.Some? ==> forall i :: 0 <= i < |at| ==> at[i] < cursor.value)
  }

  lemma PlacedLater(history: seq<Message>, c: Option<nat>, at: seq<nat>, got: seq<Message>, later: seq<Message>,
      c': Option<nat>)
    requires Placed(history, c, at, got) && history <= later
    requires c'.Some? ==> c'.value == |later| || (c.Some? && c.value <= c'.value)
    ensures Placed(later, c', at, got)
  {
  }

  lemma PlacedMore(history: seq<Message>, c: nat, at: seq<nat>, got: seq<Message>)
    requires Placed(history, Some(c), at, got) && c < |history|
    ensures Placed(history, Some(c + 1), at + [c], got + [history[c]])
  {
  }

  /** Exactly-once and in order, even across drops, clears and a slot being
      given up and handed out again: positions delivered only ever increase. */
  lemma {:induction false} DeliveriesIncrease(maxSize: nat, ops: seq<Op>, id: nat)
    requires maxSize >= 1 && id < MAX_READERS
    ensures WellFormed(Run(maxSize, Empty(), ops))
    ensures Placed(Run(maxSize, Empty(), ops).history, Run(maxSize, Empty(), ops).slots[id].cursor,
                   Positions(maxSize, Empty(), ops, id), Received(maxSize, Empty(), ops, id))
  {
    hide Placed;
    if ops == [] {
      PlacedNone();
    } else {
      var rest, op := ops[..|ops| - 1], ops[|ops| - 1];
      DeliveriesIncrease(maxSize, rest, id);
      var log := Run(maxSize, Empty(), rest);
      var at, got := Positions(maxSize, Empty(), rest, id), Received(maxSize, Empty(), rest, id);
      DeliveryStep(maxSize, log, op, id);
      var next := Step(maxSize, log, op);
      hide Step, Delivered, Pops;
      if Pops(op, id) && Delivered(log, op).Some? {
        var c := log.slots[id].cursor.value;
        PlacedMore(log.history, c, at, got);
        PlacedLater(log.history, Some(c + 1), at + [c], got + [log.history[c]], next.history, next.slots[id].cursor);
      } else {
        PlacedLater(log.history, log.slots[id].cursor, at, got, next.history, next.slots[id].cursor);
        assert at + [] == at && got + [] == got;
      }
    }
  }

  lemma PlacedNone()
    ensures Placed([], None, [], [])
  {
  }

  /** Every push finds the reader with fewer than maxSize unread messages. */
  ghost predicate KeepsUp(maxSize: nat, log: State, ops: seq<Op>, id: nat) {
    forall k :: 0 <= k < |ops| && ops[k].Push? ==>
      var at := Run(maxSize, log, ops[..k]);
      id < |at.slots| && at.slots[id].cursor.Some? && |at.history| - at.slots[id].cursor.value < maxSize
  }

  lemma NoLossStep(maxSize: nat, log: State, op: Op, id: nat)
    requires maxSize >= 1 && WellFormed(log) && id < MAX_READERS && log.slots[id].cursor.Some?
    requires op.Push? ==> |log.history| - log.slots[id].cursor.value < maxSize
    requires op != Clear && op != Unregister(id)
    ensures var next := Step(maxSize, log, op); var c := log.slots[id].cursor.value;
      && WellFormed(next) && next.slots[id].cursor.Some?
      && log.history <= next.history && c <= next.slots[id].cursor.value
      && Got(log, op, id) == next.history[c..next.slots[id].cursor.value]
  {
    StepWellFormed(maxSize, log, op);
  }

  /** A reader that keeps up receives every message pushed since, exactly once
      and in order: what it got so far followed by what it has not read yet. */
  lemma {:induction false} NoLoss(maxSize: nat, log: State, ops: seq<Op>, id: nat)
    requires maxSize >= 1 && WellFormed(log) && id < MAX_READERS && log.slots[id].cursor.Some?
    requires KeepsUp(maxSize, log, ops, id)
    requires forall k :: 0 <= k < |ops| ==> ops[k] != Clear && ops[k] != Unregister(id)
    ensures var end := Run(maxSize, log, ops);
      && WellFormed(end) && end.slots[id].cursor.Some?
      && log.slots[id].cursor.value <= end.slots[id].cursor.value
      && Received(maxSize, log, ops, id) == end.history[log.slots[id].cursor.value..end.slots[id].cursor.value]
  {
    if ops != [] {
      var rest, op := ops[..|ops| - 1], ops[|ops| - 1];
      assert forall k :: 0 <= k < |rest| ==> rest[k] == ops[k] && rest[..k] == ops[..k];
      NoLoss(maxSize, log, rest, id);
      NoLossStep(maxSize, Run(maxSize, log, rest), op, id);
    }
  }
}
