/** ws_server.hpp: one WebSocket session.  Its handlers all run on the session's
    strand, so each handler invocation is one atomic step. */
module WsSession {
  import opened Wrappers
  import opened Bytes
  import opened Strings

  type Octets = seq<Byte>

  datatype PendingMsg = Binary(data: Octets) | Text(text: Octets) | SendAll

  /** The completion handler bound to an async_write. */
  datatype Handler = OnWrite | OnBroadcastWrite

  datatype Write = Write(msg: PendingMsg, handler: Handler)

  datatype Phase = Opening | Open | Refused

  /** What the session was constructed with. */
  datatype Config = Config(hasManager: bool, hasAction: bool, hasCommand: bool)

  /** A session as its environment sees it.  `reading` counts outstanding async_reads,
      `owed` handler threads that will still start one; `sends` are the frames asked
      for in strand order, `started` those handed to async_write. */
  datatype Session = Session(
    inflight: Option<Write>, queue: seq<PendingMsg>, pendingRead: bool, reading: nat, owed: nat,
    sends: seq<PendingMsg>, started: seq<PendingMsg>, phase: Phase)

  /** What the client message asks for. */
  datatype Request = Refresh | Spawn | Ignore

  function Classify(config: Config, msg: string): Request {
    if msg == "refresh" || msg == "getData" then Refresh
    else if config.hasAction && IsJsonAction(msg) then Spawn
    else if config.hasCommand then Spawn
    else Ignore
  }

  predicate IsJsonAction(msg: string) {
    msg != "" && msg[0] == '{' && (Find(msg, "\"action\"", 0).Some? || Find(msg, "\"type\"", 0).Some?)
  }

  /** Every event carries the database contents a full send would find. */
  datatype Event =
    | Accept(ok: bool)
    | ReadDone(ok: bool, msg: string)
    | WriteDone(ok: bool)
    | PostBinary(data: Octets)
    | PostText(text: Octets)
    | ActionDone(response: Octets)
    | CommandDone
    | HandlerThrew

  predicate Enabled(s: Session, ev: Event) {
    match ev
    case Accept(_) => s.phase == Opening
    case ReadDone(_, _) => s.reading > 0
    case WriteDone(_) => s.inflight.Some?
    case PostBinary(_) => s.phase == Open
    case PostText(_) => s.phase == Open
    case ActionDone(_) => s.owed > 0
    case CommandDone => s.owed > 0
    case HandlerThrew => s.owed > 0
  }

  const INITIAL := Session(None, [], false, 0, 0, [], [], Opening)

  // ---- The steps, on values -----------------------------------------------------

  function Start(s: Session, msg: PendingMsg, handler: Handler): Session {
    s.(inflight := Some(Write(msg, handler)), started := s.started + [msg])
  }

  /** Write now, or queue behind the write under way. */
  function Put(s: Session, msg: PendingMsg): Session {
    if s.inflight.Some? then s.(queue := s.queue + [msg])
    else Start(s, msg, if msg.Binary? then OnBroadcastWrite else OnWrite)
  }

  /** A new frame asked for: do_broadcast, sendTextResponse or sendData. */
  function Submit(s: Session, msg: PendingMsg): Session {
    Put(s.(sends := s.sends + [msg]), msg)
  }

  function Drain(s: Session): Session {
    if s.inflight.Some? || s.queue == [] then s
    else Start(s.(queue := s.queue[1..]), s.queue[0], if s.queue[0].SendAll? then OnWrite else OnBroadcastWrite)
  }

  function Completed(s: Session, ok: bool): Session
    requires s.inflight.Some?
  {
    var idle := s.(inflight := None);
    if !ok then idle.(queue := [])
    else if s.inflight.value.handler == OnWrite && s.pendingRead
    then Drain(idle.(pendingRead := false, reading := s.reading + 1))
    else Drain(idle)
  }

  function Received(config: Config, s: Session, msg: string): Session
    requires s.reading > 0
  {
    var taken := s.(reading := s.reading - 1);
    match Classify(config, msg)
    case Refresh => Submit(taken.(pendingRead := true), SendAll)
    case Spawn => if config.hasManager then taken.(owed := s.owed + 1) else taken
    case Ignore => s
  }

  function Step(config: Config, s: Session, ev: Event): Session
    requires Enabled(s, ev)
  {
    match ev
    case Accept(ok) =>
      if ok then Submit(s.(phase := Open, pendingRead := true), SendAll) else s.(phase := Refused)
    case ReadDone(ok, msg) => if ok then Received(config, s, msg) else s.(reading := s.reading - 1)
    case WriteDone(ok) => Completed(s, ok)
    case PostBinary(data) => Submit(s, Binary(data))
    case PostText(text) => Submit(s, Text(text))
    case ActionDone(response) =>
      var sent := Submit(s, Text(response));
      sent.(owed := s.owed - 1, reading := s.reading + 1)
    case CommandDone => s.(owed := s.owed - 1, reading := s.reading + 1)
    case HandlerThrew => s.(owed := s.owed - 1)
  }

  // ---- The session object ----------------------------------------------------------

  datatype Mode = BinaryMode | TextMode

  /** An async_write under way: what it was given, and the stream mode then. */
  datatype Flight = Flight(write: Write, bytes: Octets, mode: Mode)

  /** A write carries what its frame is for: a binary or text frame its own data, a full
      send the database contents at the time, each in the mode of its kind. */
  predicate Carries(flight: Flight, snapshot: Octets) {
    match flight.write.msg
    case Binary(data) => flight.bytes == data && flight.mode == BinaryMode
    case Text(text) => flight.bytes == text && flight.mode == TextMode
    case SendAll => flight.bytes == snapshot && flight.mode == BinaryMode
  }

  /** What is known of it without the database contents. */
  predicate CarriesOwn(flight: Flight) {
    match flight.write.msg
    case Binary(data) => flight.bytes == data && flight.mode == BinaryMode
    case Text(text) => flight.bytes == text && flight.mode == TextMode
    case SendAll => flight.mode == BinaryMode
  }

  /** Whatever was put on the wire since `before` carries what it should. */
  ghost predicate Adds(before: seq<Flight>, after: seq<Flight>, snapshot: Octets) {
    && |before| <= |after| <= |before| + 1 && after[..|before|] == before
    && (|after| > |before| ==> Carries(after[|before|], snapshot))
  }

  class WebSocketSession {
    const config: Config
    var writing: bool
    var pendingRead: bool
    var writeBuffer: Octets
    var broadcastBuffer: Octets
    var textWriteBuffer: Octets
    var mode: Mode
    var writeQueue: seq<PendingMsg>
    var onWrite: bool  // the handler bound to the async_write under way

    ghost var flight: Option<Flight>
    ghost var wire: seq<Flight>  // every write there has been
    ghost var reading: nat
    ghost var owed: nat
    ghost var sends: seq<PendingMsg>
    ghost var started: seq<PendingMsg>
    ghost var phase: Phase

    /** The flag is up exactly while a write is under way, and then neither the
        buffer it reads from nor the stream mode has changed. */
    ghost predicate Valid()
      reads this
    {
      && (writing <==> flight.Some?)
      && (flight.Some? ==> (onWrite <==> flight.value.write.handler == OnWrite))
      && (flight.Some? ==> BufferOf(flight.value.write.msg) == flight.value.bytes && mode == flight.value.mode)
      && (flight.Some? ==> wire != [] && flight.value == wire[|wire| - 1])
      && |wire| == |started| && (forall k :: 0 <= k < |wire| ==> wire[k].write.msg == started[k])
      && (forall k :: 0 <= k < |wire| ==> CarriesOwn(wire[k]))
    }

    ghost function BufferOf(msg: PendingMsg): Octets
      reads this
    {
      match msg case Binary(_) => broadcastBuffer case Text(_) => textWriteBuffer case SendAll => writeBuffer
    }

    ghost function Abs(): Session
      reads this
    {
      Session(if flight.Some? then Some(flight.value.write) else None,
              writeQueue, pendingRead, reading, owed, sends, started, phase)
    }

    constructor (config: Config)
      ensures Valid() && Abs() == INITIAL && this.config == config && wire == []
    {
      this.config := config;
      writing, pendingRead := false, false;
      writeBuffer, broadcastBuffer, textWriteBuffer, mode := [], [], [], BinaryMode;
      writeQueue, onWrite := [], false;
      flight, wire, reading, owed, sends, started, phase := None, [], 0, 0, [], [], Opening;
    }

    /** ws_.async_write: never while another is under way. */
    method AsyncWrite(ghost msg: PendingMsg, handler: Handler)
      requires flight.None?
      modifies this`flight, this`wire, this`started, this`onWrite
      ensures onWrite <==> handler == OnWrite
      ensures flight == Some(Flight(Write(msg, handler), BufferOf(msg), mode))
      ensures started == old(started) + [msg] && wire == old(wire) + [flight.value]
    {
      onWrite := handler == OnWrite;
      started := started + [msg];
      flight := Some(Flight(Write(msg, handler), BufferOf(msg), mode));
      wire := wire + [flight.value];
    }

    /** ws_.async_read: never while another is outstanding. */
    ghost method AsyncRead()
      requires reading == 0
      modifies this`reading
      ensures reading == 1
    {
      reading := reading + 1;
    }

    method BeginBinary(data: Octets)
      requires Valid() && !writing
      modifies this
      ensures Valid() && Abs() == Start(old(Abs()), Binary(data), OnBroadcastWrite)
      ensures wire == old(wire) + [Flight(Write(Binary(data), OnBroadcastWrite), data, BinaryMode)]
    {
      writing := true;
      broadcastBuffer := data;
      mode := BinaryMode;
      AsyncWrite(Binary(data), OnBroadcastWrite);
    }

    method BeginText(text: Octets, handler: Handler)
      requires Valid() && !writing
      modifies this
      ensures Valid() && Abs() == Start(old(Abs()), Text(text), handler)
      ensures wire == old(wire) + [Flight(Write(Text(text), handler), text, TextMode)]
    {
      writing := true;
      textWriteBuffer := text;
      mode := TextMode;
      AsyncWrite(Text(text), handler);
    }

    method BeginAll(snapshot: Octets)
      requires Valid() && !writing
      modifies this
      ensures Valid() && Abs() == Start(old(Abs()), SendAll, OnWrite)
      ensures wire == old(wire) + [Flight(Write(SendAll, OnWrite), snapshot, BinaryMode)]
    {
      writing := true;
      writeBuffer := snapshot;
      mode := BinaryMode;
      AsyncWrite(SendAll, OnWrite);
    }

    method SendData(snapshot: Octets)
      requires Valid()
      modifies this
      ensures Valid()
      ensures Abs() == Put(old(Abs()), SendAll)
      ensures wire == old(wire) + if old(writing) then [] else [Flight(Write(SendAll, OnWrite), snapshot, BinaryMode)]
    {
      if writing {
        writeQueue := writeQueue + [SendAll];
        return;
      }
      BeginAll(snapshot);
    }

    method DoBroadcast(data: Octets)
      requires Valid()
      modifies this
      ensures Valid() && Abs() == Submit(old(Abs()), Binary(data))
      ensures wire ==
        old(wire) + if old(writing) then [] else [Flight(Write(Binary(data), OnBroadcastWrite), data, BinaryMode)]
    {
      sends := sends + [Binary(data)];
      if writing {
        writeQueue := writeQueue + [Binary(data)];
        return;
      }
      BeginBinary(data);
    }

    method SendTextResponse(text: Octets)
      requires Valid()
      modifies this
      ensures Valid() && Abs() == Submit(old(Abs()), Text(text))
      ensures wire == old(wire) + if old(writing) then [] else [Flight(Write(Text(text), OnWrite), text, TextMode)]
    {
      sends := sends + [Text(text)];
      if writing {
        writeQueue := writeQueue + [Text(text)];
        return;
      }
      BeginText(text, OnWrite);
    }

    /** A full send, and a read once it is written. */
    method ReadAfterAll(snapshot: Octets)
      requires Valid()
      modifies this
      ensures Valid() && Abs() == Submit(old(Abs()).(pendingRead := true), SendAll)
      ensures Adds(old(wire), wire, snapshot)
    {
      pendingRead := true;
      sends := sends + [SendAll];
      SendData(snapshot);
    }

    method OnAccept(ok: bool, snapshot: Octets)
      requires Valid() && Enabled(Abs(), Accept(ok))
      modifies this
      ensures Valid() && Abs() == Step(config, old(Abs()), Accept(ok)) && Adds(old(wire), wire, snapshot)
    {
      if !ok {
        phase := Refused;
        return;
      }
      phase := Open;
      ReadAfterAll(snapshot);
    }

    method DrainQueue(snapshot: Octets)
      requires Valid()
      modifies this
      ensures Valid() && Abs() == Drain(old(Abs()))
      ensures Adds(old(wire), wire, snapshot)
      ensures |wire| > |old(wire)| <==> !old(writing) && old(writeQueue) != []
    {
      if writing || |writeQueue| == 0 {
        return;
      }
      var msg := writeQueue[0];
      writeQueue := writeQueue[1..];
      StartQueued(msg, snapshot);
    }

    /** Starts the write of a frame taken off the queue. */
    method StartQueued(msg: PendingMsg, snapshot: Octets)
      requires Valid() && !writing
      modifies this
      ensures Valid()
      ensures Abs() == Start(old(Abs()), msg, if msg.SendAll? then OnWrite else OnBroadcastWrite)
      ensures |wire| == |old(wire)| + 1 && Adds(old(wire), wire, snapshot)
    {
      match msg {
        case Binary(data) => BeginBinary(data);
        case Text(text) => BeginText(text, OnBroadcastWrite);
        case SendAll => SendData(snapshot);
      }
    }

    /** Which completion handler the write under way was started with: an
        async_write of a queued frame or a broadcast ends in on_broadcast_write. */
    method CompletesInOnWrite() returns (direct: bool)
      requires Valid() && flight.Some?
      ensures direct <==> flight.value.write.handler == OnWrite
    {
      direct := onWrite;
    }

    method OnBroadcastWriteDone(ok: bool, snapshot: Octets)
      requires Valid() && flight.Some? && flight.value.write.handler == OnBroadcastWrite
      modifies this
      ensures Valid() && Abs() == Step(config, old(Abs()), WriteDone(ok)) && Adds(old(wire), wire, snapshot)
    {
      flight := None;
      writing := false;
      if !ok {
        writeQueue := [];
        return;
      }
      DrainQueue(snapshot);
    }

    method OnWriteDone(ok: bool, snapshot: Octets)
      requires Valid() && flight.Some? && flight.value.write.handler == OnWrite
      requires pendingRead ==> reading == 0
      modifies this
      ensures Valid() && Abs() == Step(config, old(Abs()), WriteDone(ok)) && Adds(old(wire), wire, snapshot)
    {
      flight := None;
      writing := false;
      if !ok {
        writeQueue := [];
        return;
      }
      if pendingRead {
        pendingRead := false;
        AsyncRead();
      }
      DrainQueue(snapshot);
    }

    /** A handler thread, once spawned, ends in ActionFinished, CommandFinished or
        by throwing. */
    method OnRead(ok: bool, msg: string, snapshot: Octets)
      requires Valid() && reading == 1
      modifies this
      ensures Valid() && Abs() == Step(config, old(Abs()), ReadDone(ok, msg)) && Adds(old(wire), wire, snapshot)
    {
      hide IsJsonAction, Carries, Put;
      reading := reading - 1;
      if !ok {
        return;
      }
      if msg == "refresh" || msg == "getData" {
        ReadAfterAll(snapshot);
      } else if config.hasAction && IsJsonAction(msg) {
        if config.hasManager {
          owed := owed + 1;
        }
      } else if config.hasCommand {
        if config.hasManager {
          owed := owed + 1;
        }
      } else {
        AsyncRead();
      }
    }

    method ActionFinished(response: Octets)
      requires Valid() && owed > 0 && reading == 0
      modifies this
      ensures Valid() && Abs() == Step(config, old(Abs()), ActionDone(response))
      ensures forall snapshot :: Adds(old(wire), wire, snapshot)
    {
      SendTextResponse(response);
      owed := owed - 1;
      AsyncRead();
    }

    method CommandFinished()
      requires Valid() && owed > 0 && reading == 0
      modifies this
      ensures Valid() && Abs() == Step(config, old(Abs()), CommandDone) && wire == old(wire)
    {
      owed := owed - 1;
      AsyncRead();
    }

    ghost method HandlerFailed()
      requires Valid() && owed > 0
      modifies this
      ensures Valid() && Abs() == Step(config, old(Abs()), HandlerThrew) && wire == old(wire)
    {
      owed := owed - 1;
    }
  }
}
