/** relay_pipeline.hpp: the reception worker of one relay, which turns queued
    commands into ring messages, and the pipeline that owns it.  The relay and the
    stop flag are supplied from outside: a sequence of outcomes ends where the stop
    flag is raised. */
module Reception {
  import opened Wrappers
  import opened Strings
  import opened BroadcastLog
  import opened RawRing
  import opened ConnectionFsm

  const MAX_RETRIES: nat := 3
  const LOGIN_RETRIES: nat := 3
  const RING_SIZE: nat := 100

  /** What firing a command comes to. */
  datatype Reply = Answered(success: bool, response: string, connLost: bool, reconnect: Outcome) | Threw

  /** One turn of the retry loop: what the driver meets, then the reply.  With no
      way to Operational in `outcomes`, the driver is stopped, or throws. */
  datatype Attempt = Attempt(outcomes: seq<Outcome>, driverThrows: bool, reply: Reply)

  datatype Ending = Success(response: string) | GaveUp | Stopped | Crashed

  /** How a user command ends for its caller: with a response, empty for a failure,
      or with an exception. */
  datatype UserReply = Response(text: string) | Thrown

  datatype Execution = Execution(fsm: Fsm, ending: Ending)

  /** One turn of the retry loop; without an ending the loop goes on. */
  datatype Turn = Turn(fsm: Fsm, ending: Option<Ending>)

  function TryOnce(f: Fsm, t: Attempt): Turn {
    var ready := Drive(f, LOGIN_RETRIES, t.outcomes);
    if ready.state != Operational then Turn(ready, Some(if t.driverThrows then Crashed else Stopped))
    else
      match t.reply
      case Threw => Turn(ready, Some(Crashed))
      case Answered(success, response, connLost, reconnect) =>
        if success then Turn(ready, Some(Success(response)))
        else Turn(if connLost then Next(ready, LOGIN_RETRIES, DisconnectEvent, reconnect) else ready, None)
  }

  /** The retry loop shared by queued and user commands; the attempts run out where
      the stop flag is seen before one. */
  function Execute(f: Fsm, tries: seq<Attempt>, left: nat): Execution
    decreases left
  {
    if left == 0 then Execution(f, GaveUp)
    else if tries == [] then Execution(f, Stopped)
    else
      var turn := TryOnce(f, tries[0]);
      if turn.ending.Some? then Execution(turn.fsm, turn.ending.value)
      else Execute(turn.fsm, tries[1..], left - 1)
  }

  lemma ExecuteUnfolds(f: Fsm, tries: seq<Attempt>, k: nat, left: nat)
    requires k <= |tries|
    ensures Execute(f, tries[k..], left) ==
      if left == 0 then Execution(f, GaveUp)
      else if k == |tries| then Execution(f, Stopped)
      else
        var turn := TryOnce(f, tries[k]);
        if turn.ending.Some? then Execution(turn.fsm, turn.ending.value)
          else Execute(turn.fsm, tries[k + 1..], left - 1)
  {
    hide TryOnce;
    if k < |tries| {
      assert tries[k..][0] == tries[k] && tries[k..][1..] == tries[k + 1..];
    }
  }

  // ---- How a command ends, told from its attempts ---------------------------------------

  /** The connection machine as attempt k finds it, all before having been answered
      without success: as the driver left it, or reconnecting if the connection was lost. */
  function MachineAt(f: Fsm, tries: seq<Attempt>, k: nat): Fsm
    requires k <= |tries|
  {
    if k == 0 then f
    else
      var ready := Drive(MachineAt(f, tries, k - 1), 3, tries[k - 1].outcomes);
      var reply := tries[k - 1].reply;
      if reply.Answered? && reply.connLost then Next(ready, 3, DisconnectEvent, reply.reconnect) else ready
  }

  /** The driver's machine in attempt k. */
  function DrivenAt(f: Fsm, tries: seq<Attempt>, k: nat): Fsm
    requires k < |tries|
  {
    Drive(MachineAt(f, tries, k), 3, tries[k].outcomes)
  }

  /** Attempt k was made in Operational, and answered without success. */
  predicate FailedAt(f: Fsm, tries: seq<Attempt>, k: nat)
    requires k < |tries|
  {
    DrivenAt(f, tries, k).state == Operational && tries[k].reply.Answered? && !tries[k].reply.success
  }

  predicate AllFailed(f: Fsm, tries: seq<Attempt>, k: nat)
    requires k <= |tries|
  {
    forall j :: 0 <= j < k ==> FailedAt(f, tries, j)
  }

  /** Attempt k, one of the first three, succeeds where all before it failed. */
  predicate SucceedsAt(f: Fsm, tries: seq<Attempt>, k: nat) {
    && k < 3 && k < |tries| && AllFailed(f, tries, k)
    && DrivenAt(f, tries, k).state == Operational && tries[k].reply.Answered? && tries[k].reply.success
  }

  /** Attempt k, the first that did not fail, or the third having failed, ends it. */
  predicate EndsAt(f: Fsm, tries: seq<Attempt>, k: nat, e: Execution) {
    && k <= 3 && k <= |tries| && AllFailed(f, tries, k)
    && if k == 3 then e == Execution(MachineAt(f, tries, 3), GaveUp)
       else if k == |tries| then e == Execution(MachineAt(f, tries, k), Stopped)
       else
         && !FailedAt(f, tries, k)
         && e.fsm == DrivenAt(f, tries, k)
         && e.ending ==
              if e.fsm.state != Operational then (if tries[k].driverThrows then Crashed else Stopped)
              else if tries[k].reply.Threw? then Crashed
              else Success(tries[k].reply.response)
  }

  ghost predicate EndsSo(f: Fsm, tries: seq<Attempt>, e: Execution) {
    exists k: nat :: EndsAt(f, tries, k, e)
  }

  lemma {:induction false} ExecuteFrom(f: Fsm, tries: seq<Attempt>, k: nat)
    requires k <= 3 && k <= |tries| && AllFailed(f, tries, k)
    ensures EndsSo(f, tries, Execute(MachineAt(f, tries, k), tries[k..], 3 - k))
    decreases 3 - k
  {
    var m, e := MachineAt(f, tries, k), Execute(MachineAt(f, tries, k), tries[k..], 3 - k);
    ExecuteUnfolds(m, tries, k, 3 - k);
    hide Drive, Next;
    if k < 3 && k < |tries| && FailedAt(f, tries, k) {
      assert TryOnce(m, tries[k]) == Turn(MachineAt(f, tries, k + 1), None);
      ExecuteFrom(f, tries, k + 1);
    } else {
      assert EndsAt(f, tries, k, e);
    }
  }

  /** The retry loop ends as its attempts say. */
  lemma ExecuteEndsSo(f: Fsm, tries: seq<Attempt>)
    ensures EndsSo(f, tries, Execute(f, tries, MAX_RETRIES))
  {
    ExecuteFrom(f, tries, 0);
    assert tries[0..] == tries;
  }

  /** Success, giving up, stopping and crashing, each exactly. */
  lemma EndingIff(f: Fsm, tries: seq<Attempt>, e: Execution)
    requires EndsSo(f, tries, e)
    ensures forall text :: e.ending == Success(text) <==>
      exists k: nat :: SucceedsAt(f, tries, k) && tries[k].reply.response == text
    ensures e.ending == GaveUp <==> |tries| >= 3 && AllFailed(f, tries, 3)
    ensures e.ending == Stopped <==>
      || (|tries| < 3 && AllFailed(f, tries, |tries|))
      || exists k :: 0 <= k < 3 && k < |tries| && AllFailed(f, tries, k)
           && DrivenAt(f, tries, k).state != Operational && !tries[k].driverThrows
    ensures e.ending == Crashed <==>
      exists k :: 0 <= k < 3 && k < |tries| && AllFailed(f, tries, k)
        && if DrivenAt(f, tries, k).state == Operational then tries[k].reply.Threw? else tries[k].driverThrows
  {
    hide DrivenAt, MachineAt;
    var n: nat :| EndsAt(f, tries, n, e);
    forall k | 0 <= k < |tries| && AllFailed(f, tries, k) && !FailedAt(f, tries, k) && k < 3
      ensures k == n
    {
    }
  }

  /** After a failed attempt the next finds the machine still Operational, or, the
      connection having been lost, reconnecting. */
  lemma ReconnectsAfterLoss(f: Fsm, tries: seq<Attempt>, k: nat)
    requires k < |tries| && FailedAt(f, tries, k)
    ensures MachineAt(f, tries, k + 1).state == if tries[k].reply.connLost then Connecting else Operational
    ensures tries[k].reply.connLost ==> MachineAt(f, tries, k + 1).client == tries[k].reply.reconnect
  {
    hide Drive;
  }

  class PipelineReceptionWorker {
    const fsm: RelayConnection
    const rawBuffer: RawDataRingBuffer
    var commandQueue: seq<string>
    var screenSizeConfigured: bool
    var cmdSuccess: bool
    var cmdResponse: string

    ghost predicate Valid()
      reads this, rawBuffer, rawBuffer.readers
    {
      fsm.maxRetries == LOGIN_RETRIES && rawBuffer.maxSize == RING_SIZE && rawBuffer.Valid()
    }

    constructor (rawBuffer: RawDataRingBuffer)
      requires rawBuffer.maxSize == RING_SIZE && rawBuffer.Valid()
      ensures Valid() && fresh(fsm) && this.rawBuffer == rawBuffer
      ensures commandQueue == [] && fsm.Abs() == ConnectionFsm.INITIAL
    {
      fsm := new RelayConnection(LOGIN_RETRIES);
      this.rawBuffer := rawBuffer;
      commandQueue, screenSizeConfigured := [], false;
      cmdSuccess, cmdResponse := false, "";
    }

    method DriveToOperational(outcomes: seq<Outcome>) returns (ok: bool)
      requires fsm.maxRetries == LOGIN_RETRIES
      modifies fsm, this`screenSizeConfigured
      ensures fsm.Abs() == Drive(old(fsm.Abs()), LOGIN_RETRIES, outcomes)
      ensures ok <==> fsm.state == Operational
      ensures ok ==> screenSizeConfigured
    {
      var k := 0;
      while true
        invariant 0 <= k <= |outcomes|
        invariant Drive(old(fsm.Abs()), LOGIN_RETRIES, outcomes) == Drive(fsm.Abs(), LOGIN_RETRIES, outcomes[k..])
        decreases |outcomes| - k
      {
        if fsm.state == Operational {
          if !screenSizeConfigured {
            screenSizeConfigured := true;
          }
          return true;
        }
        if k == |outcomes| {
          return false;
        }
        assert outcomes[k..][0] == outcomes[k] && outcomes[k..][1..] == outcomes[k + 1..];
        if fsm.state == Error {
          screenSizeConfigured := false;
          fsm.ProcessEvent(DisconnectEvent, outcomes[k]);
          k := k + 1;
          continue;
        }
        if fsm.state == ConnectWait || fsm.state == LoginRetryWait {
          screenSizeConfigured := false;
        }
        fsm.ProcessEvent(StepEvent, outcomes[k]);
        k := k + 1;
      }
    }

    /** The body of the retry loop. */
    method AttemptOnce(t: Attempt) returns (ending: Option<Ending>)
      requires fsm.maxRetries == LOGIN_RETRIES
      modifies fsm, this`screenSizeConfigured, this`cmdSuccess, this`cmdResponse
      ensures Turn(fsm.Abs(), ending) == TryOnce(old(fsm.Abs()), t)
    {
      hide Drive, Next;
      var operational := DriveToOperational(t.outcomes);
      if !operational {
        return Some(if t.driverThrows then Crashed else Stopped);
      }
      cmdSuccess, cmdResponse := false, "";
      if t.reply.Threw? {
        return Some(Crashed);
      }
      cmdSuccess, cmdResponse := t.reply.success, t.reply.response;
      if cmdSuccess {
        return Some(Success(cmdResponse));
      }
      if t.reply.connLost {
        screenSizeConfigured := false;
        fsm.ProcessEvent(DisconnectEvent, t.reply.reconnect);
      }
      return None;
    }

    /** The retry loop of executeCommand and executeUserCommandLocked, which differ
        only in what they do with a successful response. */
    method Attempts(tries: seq<Attempt>) returns (ending: Ending)
      requires fsm.maxRetries == LOGIN_RETRIES
      modifies fsm, this`screenSizeConfigured, this`cmdSuccess, this`cmdResponse
      ensures Execution(fsm.Abs(), ending) == Execute(old(fsm.Abs()), tries, MAX_RETRIES)
      ensures EndsSo(old(fsm.Abs()), tries, Execution(fsm.Abs(), ending))
    {
      hide *;
      ghost var e := Execute(fsm.Abs(), tries, MAX_RETRIES);
      ExecuteEndsSo(fsm.Abs(), tries);
      assert tries[0..] == tries;
      for attempt := 1 to MAX_RETRIES + 1
        invariant attempt - 1 <= |tries|
        invariant e == Execute(fsm.Abs(), tries[attempt - 1..], MAX_RETRIES + 1 - attempt)
      {
        ExecuteUnfolds(fsm.Abs(), tries, attempt - 1, MAX_RETRIES + 1 - attempt);
        if attempt - 1 == |tries| {
          return Stopped;
        }
        var end := AttemptOnce(tries[attempt - 1]);
        if end.Some? {
          return end.value;
        }
      }
      ExecuteUnfolds(fsm.Abs(), tries, MAX_RETRIES, 0);
      return GaveUp;
    }

    /** One message goes to the ring if the command succeeds, none otherwise. */
    method ExecuteCommand(cmd: string, tries: seq<Attempt>) returns (ending: Ending)
      requires Valid()
      modifies this, fsm, rawBuffer, rawBuffer.readers
      ensures Valid() && commandQueue == old(commandQueue)
      ensures Execution(fsm.Abs(), ending) == Execute(old(fsm.Abs()), tries, MAX_RETRIES)
      ensures EndsSo(old(fsm.Abs()), tries, Execution(fsm.Abs(), ending))
      ensures rawBuffer.Abs() ==
        if ending.Success? then PushState(RING_SIZE, old(rawBuffer.Abs()), RawDataMessage(cmd, ending.response))
        else old(rawBuffer.Abs())
    {
      ending := Attempts(tries);
      if ending.Success? {
        var _ := rawBuffer.Push(RawDataMessage(cmd, ending.response));
      }
    }

    method HandleUserCommand(tries: seq<Attempt>) returns (reply: UserReply)
      requires Valid()
      modifies this, fsm
      ensures Valid() && commandQueue == old(commandQueue) && rawBuffer.Abs() == old(rawBuffer.Abs())
      ensures var e := Execute(old(fsm.Abs()), tries, MAX_RETRIES);
        && EndsSo(old(fsm.Abs()), tries, e)
        && fsm.Abs() == e.fsm
        && reply == match e.ending case Success(text) => Response(text) case Crashed => Thrown case _ => Response("")
    {
      var ending := Attempts(tries);
      reply := match ending case Success(text) => Response(text) case Crashed => Thrown case _ => Response("");
    }

    method QueueCommand(cmd: string)
      modifies this`commandQueue
      ensures commandQueue == old(commandQueue) + [cmd]
    {
      commandQueue := commandQueue + [cmd];
    }

    /** runLoop's kick: start_event at first, disconnect_event after a crash. */
    method Kick(first: bool, outcome: Outcome)
      requires Valid()
      modifies fsm
      ensures Valid()
      ensures fsm.Abs() == Next(old(fsm.Abs()), LOGIN_RETRIES, if first then StartEvent else DisconnectEvent, outcome)
    {
      fsm.ProcessEvent(if first then StartEvent else DisconnectEvent, outcome);
    }

    /** One turn of runLoop's inner loop, past its wait. */
    method Work(tries: seq<Attempt>)
      requires Valid()
      modifies this, fsm, rawBuffer, rawBuffer.readers
      ensures Valid()
      ensures if old(commandQueue) == [] then
          commandQueue == [] && fsm.Abs() == old(fsm.Abs()) && rawBuffer.Abs() == old(rawBuffer.Abs())
        else
          var e := Execute(old(fsm.Abs()), tries, MAX_RETRIES);
          && commandQueue == old(commandQueue[1..]) && fsm.Abs() == e.fsm
          && rawBuffer.Abs() ==
            if e.ending.Success?
            then PushState(RING_SIZE, old(rawBuffer.Abs()), RawDataMessage(old(commandQueue[0]), e.ending.response))
            else old(rawBuffer.Abs())
    {
      if |commandQueue| == 0 {
        return;
      }
      var cmd := commandQueue[0];
      commandQueue := commandQueue[1..];
      var _ := ExecuteCommand(cmd, tries);
    }
  }

  // ---- The pipeline ------------------------------------------------------------

  datatype PipelineEvent =
    | Start(name: string)
    | Stop
    | Queue(cmd: string)
    | Kick(first: bool, outcome: Outcome)
    | Work(tries: seq<Attempt>)
    | User(tries: seq<Attempt>)
    | Process(stopped: bool)

  /** What a new worker is given to do; relays of one family want a shorter listing. */
  function StartupCommands(name: string): seq<string> {
    ["SER 1000", "FILE DIR EVENTS", if Find(name, "735", 0).Some? then "FIL DIR" else "FILE DIR SETTINGS"]
  }

  /** fsm and queue are those of the current reception worker, `reader` the slot of
      the processing worker, `got` what that worker was handed since it registered. */
  datatype Pipeline = Pipeline(
    running: bool, fsm: Fsm, queue: seq<string>, log: Log<RawDataMessage>, reader: Option<nat>,
      got: seq<RawDataMessage>)

  const FRESH := Pipeline(false, ConnectionFsm.INITIAL, [], Empty(), None, [])

  /** Workers take steps only while the pipeline runs. */
  function Advance(p: Pipeline, ev: PipelineEvent): Pipeline {
    match ev
    case Start(name) =>
      if p.running then p
      else
        var queue := StartupCommands(name);
        Pipeline(true, ConnectionFsm.INITIAL, queue, BroadcastLog.Register(p.log), RegisteredId(p.log), [])
    case Stop =>
      if !p.running then p
      else
        var log := if p.reader.Some? then BroadcastLog.Unregister(p.log, p.reader.value) else p.log;
        p.(running := false, reader := None, log := log)
    case Queue(cmd) => p.(queue := p.queue + [cmd])
    case Kick(first, outcome) =>
      if !p.running then p
      else p.(fsm := Next(p.fsm, LOGIN_RETRIES, if first then StartEvent else DisconnectEvent, outcome))
    case Work(tries) =>
      if !p.running || p.queue == [] then p
      else
        var e := Execute(p.fsm, tries, MAX_RETRIES);
        p.(queue := p.queue[1..], fsm := e.fsm,
           log := if e.ending.Success? then PushState(RING_SIZE, p.log, RawDataMessage(p.queue[0], e.ending.response))
             else p.log)
    case User(tries) =>
      if !p.running then p else p.(fsm := Execute(p.fsm, tries, MAX_RETRIES).fsm)
    case Process(stopped) =>
      if !p.running || stopped || p.reader.None? then p
      else
        var msg := Taken(p.log, p.reader.value);
        p.(log := Take(p.log, p.reader.value), got := if msg.Some? then p.got + [msg.value] else p.got)
  }

  class RelayPipeline {
    const rawBuffer: RawDataRingBuffer
    var rxWorker: PipelineReceptionWorker
    var readerId: Option<nat>
    var running: bool
    var got: seq<RawDataMessage>

    ghost predicate Valid()
      reads this, rawBuffer, rawBuffer.readers, rxWorker, rxWorker.fsm
    {
      && rxWorker.rawBuffer == rawBuffer && rawBuffer.maxSize == RING_SIZE && rawBuffer.Valid()
      && rxWorker.fsm.maxRetries == LOGIN_RETRIES
    }

    ghost function Abs(): Pipeline
      reads this, rawBuffer, rawBuffer.readers, rxWorker, rxWorker.fsm
    {
      Pipeline(running, rxWorker.fsm.Abs(), rxWorker.commandQueue, rawBuffer.Abs(), readerId, got)
    }

    constructor ()
      ensures Valid() && Abs() == FRESH && rawBuffer.maxSize == 100
      ensures fresh(rawBuffer) && fresh(rawBuffer.readers) && fresh(rxWorker) && fresh(rxWorker.fsm)
    {
      var ring := new RawDataRingBuffer(RING_SIZE);
      rawBuffer := ring;
      rxWorker := new PipelineReceptionWorker(ring);
      readerId, running, got := None, false, [];
    }

    /** A fresh worker with an empty queue, a newly registered reader, then the
        three start-up commands. */
    method Start(name: string)
      requires Valid()
      modifies this, rawBuffer, rawBuffer.readers
      ensures Valid() && Abs() == Advance(old(Abs()), PipelineEvent.Start(name))
      ensures rxWorker == old(rxWorker) || (fresh(rxWorker) && fresh(rxWorker.fsm))
    {
      hide BroadcastLog.Register, RegisteredId;
      if running {
        return;
      }
      rxWorker := new PipelineReceptionWorker(rawBuffer);
      readerId := rawBuffer.RegisterReader();
      got := [];
      running := true;
      QueueStartup(name);
    }

    method QueueStartup(name: string)
      requires rxWorker.commandQueue == []
      modifies rxWorker`commandQueue
      ensures rxWorker.commandQueue == StartupCommands(name)
    {
      rxWorker.QueueCommand("SER 1000");
      rxWorker.QueueCommand("FILE DIR EVENTS");
      if Find(name, "735", 0).Some? {
        rxWorker.QueueCommand("FIL DIR");
      } else {
        rxWorker.QueueCommand("FILE DIR SETTINGS");
      }
    }

    method Stop()
      requires Valid()
      modifies this, rawBuffer, rawBuffer.readers
      ensures Valid() && Abs() == Advance(old(Abs()), PipelineEvent.Stop) && rxWorker == old(rxWorker)
    {
      if !running {
        return;
      }
      if readerId.Some? {
        rawBuffer.UnregisterReader(readerId.value);
        readerId := None;
      }
      running := false;
    }

    method ProcessOne(stopped: bool)
      requires Valid()
      modifies this`got, rawBuffer, rawBuffer.readers
      ensures Valid() && Abs() == Advance(old(Abs()), Process(stopped)) && rxWorker == old(rxWorker)
    {
      if !running || readerId.None? {
        return;
      }
      var msg := rawBuffer.WaitPop(readerId.value, stopped);
      if msg.Some? {
        got := got + [msg.value];
      }
    }

    method Perform(ev: PipelineEvent)
      requires Valid()
      modifies this, rawBuffer, rawBuffer.readers, rxWorker, rxWorker.fsm
      ensures Valid() && Abs() == Advance(old(Abs()), ev)
      ensures rxWorker == old(rxWorker) || (fresh(rxWorker) && fresh(rxWorker.fsm))
    {
      match ev {
        case Start(name) => Start(name);
        case Stop => Stop();
        case Queue(cmd) => rxWorker.QueueCommand(cmd);
        case Kick(first, outcome) =>
          if running {
            rxWorker.Kick(first, outcome);
          }
        case Work(tries) =>
          if running {
            rxWorker.Work(tries);
          }
        case User(tries) =>
          if running {
            var _ := rxWorker.HandleUserCommand(tries);
          }
        case Process(stopped) => ProcessOne(stopped);
      }
    }
  }
}
